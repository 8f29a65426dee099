/**
 * The prediction engine (predictor.cpp) as specification: the MED edge predictor, raster-
 * order residuals and reconstruction in the 8-bit domain (clamped) and the int16 domain
 * (wrapped), and the control structure of the least-squares (LS) predictor, whose float
 * solve is an arbitrary deterministic function of the context buffer.
 *
 * Buffers are `seq<int>` in raster order; sample (x, y, ch) is at Idx(w, c, x, y, ch).
 */
module Predictor {
  import opened MachineInts
  import opened Wrappers
  import opened Raster

  function Min(a: int, b: int): int { if a <= b then a else b }
  function Max(a: int, b: int): int { if a >= b then a else b }

  /** med_predict: the median edge detector on left A, above B, above-left C. */
  function Med(a: int, b: int, c: int): (p: int)
    ensures Min(a, b) <= p <= Max(a, b)
    ensures a == b ==> p == a
  {
    if c >= Max(a, b) then Min(a, b)
    else if c <= Min(a, b) then Max(a, b)
    else a + b - c
  }

  /** MED on a buffer: the left, above and above-left samples, zero outside the image. */
  function MedAt(buf: seq<int>, w: int, h: int, c: int, x: int, y: int, ch: int): int
  {
    Med(Get(buf, w, h, c, x - 1, y, ch), Get(buf, w, h, c, x, y - 1, ch), Get(buf, w, h, c, x - 1, y - 1, ch))
  }

  // ---------------------------------------------------------------------------
  // Sample domains
  // ---------------------------------------------------------------------------

  /** The 8-bit path (unsigned char samples) or the int16 path (colour-transformed samples). */
  datatype Domain = Bits8 | Bits16

  predicate InDomain(d: Domain, v: int)
  {
    match d
    case Bits8 => 0 <= v <= 255
    case Bits16 => -0x8000 <= v < 0x8000
  }

  predicate AllInDomain(d: Domain, buf: seq<int>)
  {
    forall i :: 0 <= i < |buf| ==> InDomain(d, buf[i])
  }

  /** How a reconstructed sample is stored: clamped to a byte, or cast to int16. */
  function Store(d: Domain, v: int): (r: int)
    ensures InDomain(d, r)
    ensures InDomain(d, v) ==> r == v
  {
    match d
    case Bits8 => Clamp(v, 0, 255)
    case Bits16 => ToI16(v)
  }

  /** Storing prediction plus residual gives the sample back; on 8 bits the prediction must be a byte. */
  lemma StoreResidual(d: Domain, actual: int, pred: int)
    requires InDomain(d, actual)
    requires d == Bits8 ==> 0 <= pred <= 255
    ensures Store(d, pred + Residual(actual, pred)) == actual
  {
    if d == Bits16 {
      WrapCancels(actual, pred);
    }
  }

  /** The residual the codec stores: actual minus prediction, cast to int16. */
  function Residual(actual: int, pred: int): i16
  {
    ToI16(actual - pred)
  }

  /** A sample of an in-domain buffer read with the zero border is in the domain. */
  lemma GetInDomain(d: Domain, buf: seq<int>, w: int, h: int, c: int, x: int, y: int, ch: int)
    requires AllInDomain(d, buf)
    ensures InDomain(d, Get(buf, w, h, c, x, y, ch))
  {
  }

  lemma MedInDomain(d: Domain, buf: seq<int>, w: int, h: int, c: int, x: int, y: int, ch: int)
    requires AllInDomain(d, buf)
    ensures InDomain(d, MedAt(buf, w, h, c, x, y, ch))
  {
    GetInDomain(d, buf, w, h, c, x - 1, y, ch);
    GetInDomain(d, buf, w, h, c, x, y - 1, ch);
  }

  // ---------------------------------------------------------------------------
  // MED residuals
  // ---------------------------------------------------------------------------

  /** The MED residual of sample k: actual minus MED of its source neighbours, cast to int16. */
  function MedSample(src: seq<int>, w: int, h: int, c: int, k: int): i16
    requires 0 <= k < |src|
  {
    Residual(src[k], MedAt(src, w, h, c, Coords(w, c, k).0, Coords(w, c, k).1, Coords(w, c, k).2))
  }

  /** The residual buffer after the first k samples of compute_residuals_MED_*; zeros after. */
  function MedFold(src: seq<int>, w: int, h: int, c: int, k: nat): (res: seq<i16>)
    requires k <= |src|
    ensures |res| == |src|
    decreases k
  {
    if k == 0 then seq(|src|, _ => 0)
    else MedFold(src, w, h, c, k - 1)[k - 1 := MedSample(src, w, h, c, k - 1)]
  }

  /** compute_residuals_MED_u8 / _s16: every sample's residual against MED of the source. */
  function MedResiduals(src: seq<int>, w: int, h: int, c: int): (res: seq<i16>)
    ensures |res| == |src|
  {
    MedFold(src, w, h, c, |src|)
  }

  /** Entry j of the fold is fixed once sample j has been visited. */
  lemma {:induction false} MedFoldIndex(src: seq<int>, w: int, h: int, c: int, k: nat, j: int)
    requires 0 <= j < k <= |src|
    ensures MedFold(src, w, h, c, k)[j] == MedSample(src, w, h, c, j)
    decreases k
  {
    if j < k - 1 {
      MedFoldIndex(src, w, h, c, k - 1, j);
    }
  }

  lemma MedResidualsIndex(src: seq<int>, w: int, h: int, c: int, j: int)
    requires 0 <= j < |src|
    ensures MedResiduals(src, w, h, c)[j] == MedSample(src, w, h, c, j)
  {
    MedFoldIndex(src, w, h, c, |src|, j);
  }

  /** The residual at (x, y, ch) is actual - med(left, above, above-left), wrapped to int16. */
  lemma MedResidualAt(src: seq<int>, w: int, h: int, c: int, x: int, y: int, ch: int)
    requires Shaped(w, h, c, |src|) && InShape(w, h, c, x, y, ch)
    ensures 0 <= Idx(w, c, x, y, ch) < |src|
    ensures MedResiduals(src, w, h, c)[Idx(w, c, x, y, ch)]
         == Residual(Get(src, w, h, c, x, y, ch),
                     Med(Get(src, w, h, c, x - 1, y, ch), Get(src, w, h, c, x, y - 1, ch), Get(src, w, h, c, x - 1, y - 1, ch)))
  {
    GetInside(src, w, h, c, x, y, ch);
    CoordsOfIdx(w, h, c, x, y, ch);
    MedResidualsIndex(src, w, h, c, Idx(w, c, x, y, ch));
  }

  /** On 8-bit samples every MED residual is in [-255, 255], so the int16 cast is exact. */
  lemma MedResidualRange8(src: seq<int>, w: int, h: int, c: int, k: int)
    requires AllInDomain(Bits8, src) && 0 <= k < |src|
    ensures -255 <= MedResiduals(src, w, h, c)[k] <= 255
    ensures MedResiduals(src, w, h, c)[k] == src[k] - MedAt(src, w, h, c, Coords(w, c, k).0, Coords(w, c, k).1, Coords(w, c, k).2)
  {
    var xyc := Coords(w, c, k);
    MedInDomain(Bits8, src, w, h, c, xyc.0, xyc.1, xyc.2);
    MedResidualsIndex(src, w, h, c, k);
    var v := src[k] - MedAt(src, w, h, c, xyc.0, xyc.1, xyc.2);
    assert -255 <= v <= 255;
    assert MedResiduals(src, w, h, c)[k] == v;
  }

  // ---------------------------------------------------------------------------
  // Prediction schemes
  // ---------------------------------------------------------------------------

  /**
   * gauss_solve on the window's normal equations, the dot product with the neighbour
   * vector and llround: the rounded LS prediction at (x, y, ch) from the context buffer,
   * or None when the solve fails.
   */
  type Solver = (seq<int>, int, int, int) -> Option<int>

  /** MED everywhere, or LS with N neighbours, a winW x winH window and a solver. */
  datatype Scheme = MedOnly | LeastSquares(n: int, winW: int, winH: int, solve: Solver)

  /** The LS parameters build_neighbor_vec can serve (it has four neighbour offsets). */
  predicate ValidScheme(s: Scheme)
  {
    s.LeastSquares? ==> 0 <= s.n <= 4
  }

  /** The i-th neighbour offset of build_neighbor_vec: left, above, above-left, above-right. */
  function NeighborX(x: int, i: int): int { if i == 0 then x - 1 else if i == 1 then x else if i == 2 then x - 1 else x + 1 }
  function NeighborY(y: int, i: int): int { if i == 0 then y else y - 1 }

  /** build_neighbor_vec's verdict: each of the first n neighbours lies inside the image. */
  predicate NeighborsInside(x: int, y: int, n: int, w: int, h: int)
  {
    forall i :: 0 <= i < n ==> 0 <= NeighborX(x, i) < w && 0 <= NeighborY(y, i) < h
  }

  /** With all four neighbours a sample inside the image has them exactly off the left, top and right edges. */
  lemma FourNeighbors(x: int, y: int, w: int, h: int)
    requires 0 <= x < w && 0 <= y < h
    ensures NeighborsInside(x, y, 4, w, h) <==> x >= 1 && y >= 1 && x + 1 < w
  {
    if x >= 1 && y >= 1 && x + 1 < w {
      forall i | 0 <= i < 4 ensures 0 <= NeighborX(x, i) < w && 0 <= NeighborY(y, i) < h {
      }
    } else {
      if x < 1 {
        assert !(0 <= NeighborX(x, 0));
      } else if y < 1 {
        assert !(0 <= NeighborY(y, 1));
      } else {
        assert !(NeighborX(x, 3) < w);
      }
    }
  }

  /** Samples of one window row: the columns xs..xe whose neighbours are all inside. */
  function RowCount(xs: int, xe: int, yy: int, n: int, w: int, h: int): (k: nat)
    ensures k <= Max(0, xe - xs + 1)
    decreases xe - xs
  {
    if xe < xs then 0
    else RowCount(xs, xe - 1, yy, n, w, h) + (if NeighborsInside(xe, yy, n, w, h) then 1 else 0)
  }

  /** The window's first column, last column and first row, as accumulate_window_normal_eq clips them. */
  function WinX0(x: int, winW: int): int { Max(0, x - winW) }
  function WinX1(x: int, w: int): int { Min(w - 1, x - 1) }
  function WinY0(y: int, winH: int): int { Max(0, y - winH) }

  /** Samples of the rows ys..ye. */
  function RowsCount(ys: int, ye: int, x: int, n: int, winW: int, w: int, h: int): (k: nat)
    decreases ye - ys
  {
    if ye < ys then 0
    else RowsCount(ys, ye - 1, x, n, winW, w, h) + RowCount(WinX0(x, winW), WinX1(x, w), ye, n, w, h)
  }

  /** The count accumulate_window_normal_eq returns. */
  function WindowSamples(x: int, y: int, n: int, winW: int, winH: int, w: int, h: int): nat
  {
    RowsCount(WinY0(y, winH), y, x, n, winW, w, h)
  }

  lemma {:induction false} RowsCountBound(ys: int, ye: int, x: int, n: int, winW: int, w: int, h: int)
    requires ys <= ye + 1
    ensures RowsCount(ys, ye, x, n, winW, w, h) <= (ye - ys + 1) * Max(0, WinX1(x, w) - WinX0(x, winW) + 1)
    decreases ye - ys
  {
    if ye >= ys {
      RowsCountBound(ys, ye - 1, x, n, winW, w, h);
      var cols := Max(0, WinX1(x, w) - WinX0(x, winW) + 1);
      assert (ye - ys + 1) * cols == (ye - 1 - ys + 1) * cols + cols;
    }
  }

  /** The window holds at most (min(winH, y) + 1) rows of min(winW, x) columns. */
  lemma WindowSamplesBound(x: int, y: int, n: int, winW: int, winH: int, w: int, h: int)
    requires 0 <= x < w && 0 <= y && winW >= 0 && winH >= 0
    ensures WindowSamples(x, y, n, winW, winH, w, h) <= (Min(winH, y) + 1) * Min(winW, x)
  {
    RowsCountBound(WinY0(y, winH), y, x, n, winW, w, h);
    assert y - WinY0(y, winH) + 1 == Min(winH, y) + 1;
    assert Max(0, WinX1(x, w) - WinX0(x, winW) + 1) == Min(winW, x);
  }

  /** The shaping of a rounded LS prediction: clamped on the 8-bit path, kept on the int16 path. */
  function ShapeLs(d: Domain, p: int): (r: int)
    ensures d == Bits8 ==> 0 <= r <= 255
  {
    match d
    case Bits8 => Clamp(p, 0, 255)
    case Bits16 => p
  }

  /**
   * The prediction for (x, y, ch) from buffer `buf`, and whether LS produced it: LS needs at
   * least N + 2 window samples, a successful solve (gauss_solve rejects N <= 0 outright) and a
   * full neighbour vector; anything else falls back to MED on the same buffer.
   */
  function Predict(s: Scheme, d: Domain, w: int, h: int, c: int, buf: seq<int>, x: int, y: int, ch: int): (r: (int, bool))
    ensures !r.1 ==> r.0 == MedAt(buf, w, h, c, x, y, ch)
    ensures r.1 <==> s.LeastSquares? && WindowSamples(x, y, s.n, s.winW, s.winH, w, h) >= s.n + 2
                     && s.n > 0 && s.solve(buf, x, y, ch).Some? && NeighborsInside(x, y, s.n, w, h)
    ensures r.1 ==> r.0 == ShapeLs(d, s.solve(buf, x, y, ch).value)
  {
    match s
    case MedOnly => (MedAt(buf, w, h, c, x, y, ch), false)
    case LeastSquares(n, winW, winH, solve) =>
      if WindowSamples(x, y, n, winW, winH, w, h) >= n + 2 && n > 0 && solve(buf, x, y, ch).Some? && NeighborsInside(x, y, n, w, h)
      then (ShapeLs(d, solve(buf, x, y, ch).value), true)
      else (MedAt(buf, w, h, c, x, y, ch), false)
  }

  /** On 8 bits every prediction from an in-range buffer is a byte. */
  lemma PredictInDomain(s: Scheme, d: Domain, w: int, h: int, c: int, buf: seq<int>, x: int, y: int, ch: int)
    requires d == Bits8 && AllInDomain(d, buf)
    ensures 0 <= Predict(s, d, w, h, c, buf, x, y, ch).0 <= 255
  {
    MedInDomain(d, buf, w, h, c, x, y, ch);
  }

  // ---------------------------------------------------------------------------
  // Raster-order folds
  // ---------------------------------------------------------------------------

  /** The prediction for sample k from a buffer, and whether LS produced it. */
  type Predictor = (seq<int>, int) -> (int, bool)

  /** The scheme's prediction for the k-th sample of the traversal. */
  function PredictK(s: Scheme, d: Domain, w: int, h: int, c: int, buf: seq<int>, k: int): (int, bool)
  {
    Predict(s, d, w, h, c, buf, Coords(w, c, k).0, Coords(w, c, k).1, Coords(w, c, k).2)
  }

  /** The scheme's predictor at the raster position of sample k. */
  function PredictorOf(s: Scheme, d: Domain, w: int, h: int, c: int): Predictor
  {
    (buf: seq<int>, k: int) => PredictK(s, d, w, h, c, buf, k)
  }

  /** p predicts as scheme s does (stated pointwise, so that a fold over p need not expand it). */
  ghost predicate Implements(p: Predictor, s: Scheme, d: Domain, w: int, h: int, c: int)
  {
    forall buf: seq<int>, k: int {:trigger PredictK(s, d, w, h, c, buf, k)} :: p(buf, k) == PredictK(s, d, w, h, c, buf, k)
  }

  lemma PredictorOfImplements(s: Scheme, d: Domain, w: int, h: int, c: int)
    ensures Implements(PredictorOf(s, d, w, h, c), s, d, w, h, c)
  {
  }

  /** On the 8-bit path a predictor must give byte predictions on byte buffers. */
  ghost predicate FitsDomain(d: Domain, p: Predictor)
  {
    d == Bits8 ==> forall buf: seq<int>, k: int :: AllInDomain(Bits8, buf) ==> 0 <= p(buf, k).0 <= 255
  }

  lemma PredictorOfFits(s: Scheme, d: Domain, w: int, h: int, c: int)
    ensures FitsDomain(d, PredictorOf(s, d, w, h, c))
  {
    if d == Bits8 {
      forall buf: seq<int>, k: int | AllInDomain(Bits8, buf)
        ensures 0 <= PredictorOf(s, d, w, h, c)(buf, k).0 <= 255
      {
        PredictInDomain(s, d, w, h, c, buf, Coords(w, c, k).0, Coords(w, c, k).1, Coords(w, c, k).2);
      }
    }
  }

  /** The first k samples of src, zeros after: the decoder's buffer before sample k. */
  function Prefix(src: seq<int>, k: int): (p: seq<int>)
    ensures |p| == |src|
  {
    seq(|src|, i requires 0 <= i < |src| => if i < k then src[i] else 0)
  }

  /** Reconstruction of sample i: its prediction from buffer b plus residual r, stored into the domain. */
  function RebuildStep(b: seq<int>, r: int, d: Domain, p: Predictor, i: int): (b': seq<int>)
    requires 0 <= i < |b|
    ensures |b'| == |b|
  {
    b[i := Store(d, p(b, i).0 + r)]
  }

  /** The reconstruction buffer after the first k samples, starting from zeros. */
  function Rebuild(res: seq<int>, d: Domain, p: Predictor, k: nat): (buf: seq<int>)
    requires k <= |res|
    ensures |buf| == |res|
    decreases k
  {
    if k == 0 then Zeros(|res|)
    else RebuildStep(Rebuild(res, d, p, k - 1), res[k - 1], d, p, k - 1)
  }

  /** Every reconstructed sample lies in the domain (so the 8-bit result is a byte image). */
  lemma {:induction false} RebuildInDomain(res: seq<int>, d: Domain, p: Predictor, k: nat)
    requires k <= |res|
    ensures AllInDomain(d, Rebuild(res, d, p, k))
    decreases k
  {
    if k > 0 {
      RebuildInDomain(res, d, p, k - 1);
      var b := Rebuild(res, d, p, k - 1);
      assert Rebuild(res, d, p, k) == b[k - 1 := Store(d, p(b, k - 1).0 + res[k - 1])];
    }
  }

  /** The LS encoder's state after k samples: context buffer, residuals, LS and MED counts. */
  datatype LsState = LsState(ctx: seq<int>, res: seq<i16>, lsUsed: nat, medUsed: nat)

  /** Encoding of sample i: the residual against the context's prediction; the context learns the sample as the decoder will. */
  function LsStep(st: LsState, src: seq<int>, d: Domain, p: Predictor, i: int): (st': LsState)
    requires 0 <= i < |src| && |st.ctx| == |st.res| == |src|
    ensures |st'.ctx| == |st'.res| == |src|
    ensures st'.lsUsed + st'.medUsed == st.lsUsed + st.medUsed + 1
  {
    var pr := p(st.ctx, i);
    var r := Residual(src[i], pr.0);
    LsState(st.ctx[i := Store(d, pr.0 + r)], st.res[i := r],
            st.lsUsed + (if pr.1 then 1 else 0), st.medUsed + (if pr.1 then 0 else 1))
  }

  /** compute_residuals_LS_u8 / _s16 after k samples. */
  function LsEncode(src: seq<int>, d: Domain, p: Predictor, k: nat): (st: LsState)
    requires k <= |src|
    ensures |st.ctx| == |st.res| == |src|
    ensures st.lsUsed + st.medUsed == k
    decreases k
  {
    if k == 0 then LsState(Zeros(|src|), seq(|src|, _ => 0), 0, 0)
    else LsStep(LsEncode(src, d, p, k - 1), src, d, p, k - 1)
  }

  // ---------------------------------------------------------------------------
  // Round trips
  // ---------------------------------------------------------------------------

  /** A read that lands before index j sees the same sample in src and in its j-prefix. */
  lemma GetCausal(src: seq<int>, w: int, h: int, c: int, x: int, y: int, ch: int, j: int)
    requires Idx(w, c, x, y, ch) < j
    ensures Get(src, w, h, c, x, y, ch) == Get(Prefix(src, j), w, h, c, x, y, ch)
  {
  }

  /** MED reads only samples that come earlier in raster order. */
  lemma MedCausal(src: seq<int>, w: int, h: int, c: int, j: int)
    requires Shaped(w, h, c, |src|) && 0 <= j < |src|
    ensures MedAt(src, w, h, c, Coords(w, c, j).0, Coords(w, c, j).1, Coords(w, c, j).2)
         == MedAt(Prefix(src, j), w, h, c, Coords(w, c, j).0, Coords(w, c, j).1, Coords(w, c, j).2)
  {
    CoordsInShape(w, h, c, j);
    var (x, y, ch) := Coords(w, c, j);
    IdxBounds(w, h, c, x, y, ch);
    GetCausal(src, w, h, c, x - 1, y, ch, j);
    GetCausal(src, w, h, c, x, y - 1, ch, j);
    GetCausal(src, w, h, c, x - 1, y - 1, ch, j);
  }

  lemma PrefixStep(src: seq<int>, k: int)
    requires 0 < k <= |src|
    ensures Prefix(src, k - 1)[k - 1 := src[k - 1]] == Prefix(src, k)
  {
    forall i | 0 <= i < |src| ensures Prefix(src, k - 1)[k - 1 := src[k - 1]][i] == Prefix(src, k)[i] {
    }
  }

  lemma PrefixInDomain(src: seq<int>, d: Domain, k: int)
    requires AllInDomain(d, src)
    ensures AllInDomain(d, Prefix(src, k))
  {
  }

  /** The residuals a decoder with predictor p can invert: each one taken against the prefix before it. */
  predicate CausalResiduals(src: seq<int>, res: seq<int>, d: Domain, p: Predictor)
    requires |src| == |res|
  {
    forall j {:trigger res[j]} :: 0 <= j < |src| ==> res[j] == Residual(src[j], p(Prefix(src, j), j).0)
  }

  /** Predicting from the i-prefix and storing prediction plus residual extends the prefix by one sample. */
  lemma StepRecovers(src: seq<int>, r: int, d: Domain, p: Predictor, i: int)
    requires 0 <= i < |src| && AllInDomain(d, src) && FitsDomain(d, p)
    requires r == Residual(src[i], p(Prefix(src, i), i).0)
    ensures Prefix(src, i)[i := Store(d, p(Prefix(src, i), i).0 + r)] == Prefix(src, i + 1)
  {
    var pred := p(Prefix(src, i), i).0;
    PrefixInDomain(src, d, i);
    StoreResidual(d, src[i], pred);
    PrefixStep(src, i + 1);
  }

  /** Reconstruction recovers the samples one by one: after k steps the buffer is the k-prefix. */
  lemma {:induction false} RebuildPrefix(src: seq<int>, res: seq<int>, d: Domain, p: Predictor, k: nat)
    requires |src| == |res| && k <= |src|
    requires AllInDomain(d, src) && FitsDomain(d, p) && CausalResiduals(src, res, d, p)
    ensures Rebuild(res, d, p, k) == Prefix(src, k)
    decreases k
  {
    if k == 0 {
      assert Prefix(src, 0) == Zeros(|src|);
    } else {
      RebuildPrefix(src, res, d, p, k - 1);
      StepRecovers(src, res[k - 1], d, p, k - 1);
    }
  }

  /** The encoder's context after k samples is the k-prefix: it holds what the decoder will have rebuilt. */
  lemma {:induction false} LsEncodeContext(src: seq<int>, d: Domain, p: Predictor, k: nat)
    requires AllInDomain(d, src) && FitsDomain(d, p) && k <= |src|
    ensures LsEncode(src, d, p, k).ctx == Prefix(src, k)
    decreases k
  {
    if k == 0 {
      assert Prefix(src, 0) == Zeros(|src|);
    } else {
      LsEncodeContext(src, d, p, k - 1);
      var prev := LsEncode(src, d, p, k - 1);
      var pred := p(prev.ctx, k - 1).0;
      var r := Residual(src[k - 1], pred);
      assert LsEncode(src, d, p, k).ctx == prev.ctx[k - 1 := Store(d, pred + r)];
      StepRecovers(src, r, d, p, k - 1);
    }
  }

  /** Residual j of the encoder is taken against the prediction from the j-prefix. */
  lemma {:induction false} LsEncodeResidual(src: seq<int>, d: Domain, p: Predictor, k: nat, j: int)
    requires AllInDomain(d, src) && FitsDomain(d, p) && 0 <= j < k <= |src|
    ensures LsEncode(src, d, p, k).res[j] == Residual(src[j], p(Prefix(src, j), j).0)
    decreases k
  {
    var prev := LsEncode(src, d, p, k - 1);
    assert LsEncode(src, d, p, k).res == prev.res[k - 1 := Residual(src[k - 1], p(prev.ctx, k - 1).0)];
    if j < k - 1 {
      LsEncodeResidual(src, d, p, k - 1, j);
    } else {
      LsEncodeContext(src, d, p, k - 1);
    }
  }

  /** The encoder's context after k samples is the k-prefix, and its residuals are those a decoder can invert. */
  lemma LsEncodeInvariant(src: seq<int>, d: Domain, p: Predictor, k: nat)
    requires AllInDomain(d, src) && FitsDomain(d, p) && k <= |src|
    ensures LsEncode(src, d, p, k).ctx == Prefix(src, k)
    ensures forall j {:trigger LsEncode(src, d, p, k).res[j]} :: 0 <= j < k ==>
      LsEncode(src, d, p, k).res[j] == Residual(src[j], p(Prefix(src, j), j).0)
  {
    LsEncodeContext(src, d, p, k);
    forall j | 0 <= j < k
      ensures LsEncode(src, d, p, k).res[j] == Residual(src[j], p(Prefix(src, j), j).0)
    {
      LsEncodeResidual(src, d, p, k, j);
    }
  }

  /** reconstruct_from_residuals_MED inverts compute_residuals_MED on 8-bit and int16 samples. */
  lemma MedRoundTrip(src: seq<int>, w: int, h: int, c: int, d: Domain)
    requires Shaped(w, h, c, |src|) && AllInDomain(d, src)
    ensures Rebuild(MedResiduals(src, w, h, c), d, PredictorOf(MedOnly, d, w, h, c), |src|) == src
  {
    var res := MedResiduals(src, w, h, c);
    var p := PredictorOf(MedOnly, d, w, h, c);
    forall j | 0 <= j < |src|
      ensures res[j] == Residual(src[j], p(Prefix(src, j), j).0)
    {
      MedCausal(src, w, h, c, j);
      MedResidualsIndex(src, w, h, c, j);
    }
    PredictorOfFits(MedOnly, d, w, h, c);
    RebuildPrefix(src, res, d, p, |src|);
    assert Prefix(src, |src|) == src;
  }

  /** The LS residuals, decoded with the same predictor (and so the same solver), give the source back. */
  lemma LsRoundTrip(src: seq<int>, d: Domain, p: Predictor)
    requires AllInDomain(d, src) && FitsDomain(d, p)
    ensures Rebuild(LsEncode(src, d, p, |src|).res, d, p, |src|) == src
  {
    LsEncodeInvariant(src, d, p, |src|);
    RebuildPrefix(src, LsEncode(src, d, p, |src|).res, d, p, |src|);
    assert Prefix(src, |src|) == src;
  }

  /** Encoder and decoder hold the same context before every sample, so they make the same LS/MED choice. */
  lemma LsContextsAgree(src: seq<int>, d: Domain, p: Predictor, k: nat)
    requires AllInDomain(d, src) && FitsDomain(d, p) && k <= |src|
    ensures LsEncode(src, d, p, k).ctx == Rebuild(LsEncode(src, d, p, |src|).res, d, p, k)
  {
    LsEncodeInvariant(src, d, p, k);
    LsEncodeInvariant(src, d, p, |src|);
    RebuildPrefix(src, LsEncode(src, d, p, |src|).res, d, p, k);
  }

  /** Without LS the encoder's fold computes exactly the MED residuals and counts only MED samples. */
  lemma LsEncodeMedOnly(src: seq<int>, w: int, h: int, c: int, d: Domain)
    requires Shaped(w, h, c, |src|) && AllInDomain(d, src)
    ensures LsEncode(src, d, PredictorOf(MedOnly, d, w, h, c), |src|).res == MedResiduals(src, w, h, c)
    ensures LsEncode(src, d, PredictorOf(MedOnly, d, w, h, c), |src|).medUsed == |src|
  {
    var p := PredictorOf(MedOnly, d, w, h, c);
    PredictorOfFits(MedOnly, d, w, h, c);
    LsEncodeInvariant(src, d, p, |src|);
    forall j | 0 <= j < |src|
      ensures LsEncode(src, d, p, |src|).res[j] == MedResiduals(src, w, h, c)[j]
    {
      MedCausal(src, w, h, c, j);
      MedResidualsIndex(src, w, h, c, j);
    }
    MedOnlyCounts(src, w, h, c, d, |src|);
  }

  lemma {:induction false} MedOnlyCounts(src: seq<int>, w: int, h: int, c: int, d: Domain, k: nat)
    requires k <= |src|
    ensures LsEncode(src, d, PredictorOf(MedOnly, d, w, h, c), k).lsUsed == 0
    decreases k
  {
    if k > 0 {
      MedOnlyCounts(src, w, h, c, d, k - 1);
      var prev := LsEncode(src, d, PredictorOf(MedOnly, d, w, h, c), k - 1);
      assert !PredictK(MedOnly, d, w, h, c, prev.ctx, k - 1).1;
    }
  }
}
