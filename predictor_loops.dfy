/**
 * The per-pixel loops of predictor.cpp, proved against the folds of module Predictor:
 * residual computation and reconstruction for MED and LS, on 8-bit and int16 images.
 * Every loop walks y, then x, then ch; a ghost counter k is the flat index of (x, y, ch).
 */
module PredictorLoops {
  import opened MachineInts
  import opened Wrappers
  import opened Raster
  import opened Predictor

  /** The MED fallback on a buffer being filled: neighbours off the left or top edge read as 0. */
  method PredictMed(buf: array<int>, w: int, h: int, c: int, x: int, y: int, ch: int) returns (pred: int)
    requires Shaped(w, h, c, buf.Length) && InShape(w, h, c, x, y, ch)
    ensures pred == MedAt(buf[..], w, h, c, x, y, ch)
  {
    var a, b, cc := 0, 0, 0;
    if x - 1 >= 0 {
      IdxBounds(w, h, c, x - 1, y, ch);
      a := buf[Idx(w, c, x - 1, y, ch)];
    }
    if y - 1 >= 0 {
      IdxBounds(w, h, c, x, y - 1, ch);
      b := buf[Idx(w, c, x, y - 1, ch)];
    }
    if x - 1 >= 0 && y - 1 >= 0 {
      IdxBounds(w, h, c, x - 1, y - 1, ch);
      cc := buf[Idx(w, c, x - 1, y - 1, ch)];
    }
    pred := Med(a, b, cc);
  }

  /**
   * build_neighbor_vec: the first n of left, above, above-left, above-right; false as soon
   * as one of them lies outside the image.
   */
  method BuildNeighborVec(buf: array<int>, w: int, h: int, c: int, x: int, y: int, ch: int, n: int)
    returns (ok: bool, nvec: seq<int>)
    requires Shaped(w, h, c, buf.Length) && 0 <= ch < c && 0 <= n <= 4
    ensures ok <==> NeighborsInside(x, y, n, w, h)
    ensures ok ==> |nvec| == n && forall i :: 0 <= i < n ==> nvec[i] == Get(buf[..], w, h, c, NeighborX(x, i), NeighborY(y, i), ch)
  {
    var xs := [x - 1, x, x - 1, x + 1];
    var ys := [y, y - 1, y - 1, y - 1];
    var v := new int[n](_ => 0);
    var i := 0;
    while i < n
      invariant 0 <= i <= n
      invariant NeighborsInside(x, y, i, w, h)
      invariant forall j :: 0 <= j < i ==> v[j] == Get(buf[..], w, h, c, NeighborX(x, j), NeighborY(y, j), ch)
    {
      var xi, yi := xs[i], ys[i];
      assert xi == NeighborX(x, i) && yi == NeighborY(y, i);
      if xi < 0 || yi < 0 || w <= xi || h <= yi {
        ok, nvec := false, v[..];
        return;
      }
      GetInside(buf[..], w, h, c, xi, yi, ch);
      v[i] := buf[Idx(w, c, xi, yi, ch)];
      i := i + 1;
    }
    ok, nvec := true, v[..];
  }

  /** One window row of accumulate_window_normal_eq: columns xStart..xEnd of row yy. */
  method AccumulateRow(buf: array<int>, w: int, h: int, c: int, xStart: int, xEnd: int, yy: int, ch: int, n: int)
    returns (count: nat)
    requires Shaped(w, h, c, buf.Length) && 0 <= ch < c && 0 <= n <= 4
    ensures count == RowCount(xStart, xEnd, yy, n, w, h)
  {
    count := 0;
    var xx := xStart;
    while xx <= xEnd
      invariant xStart <= xx && (xx <= xEnd + 1 || xx == xStart)
      invariant count == RowCount(xStart, xx - 1, yy, n, w, h)
      decreases xEnd - xx
    {
      var ok, v := BuildNeighborVec(buf, w, h, c, xx, yy, ch, n);
      if ok {
        count := count + 1;
      }
      xx := xx + 1;
    }
  }

  /**
   * accumulate_window_normal_eq: the number of window positions, rows max(0, y - winH)..y
   * and columns max(0, x - winW)..min(w - 1, x - 1), whose neighbour vector is complete.
   */
  method AccumulateWindow(buf: array<int>, w: int, h: int, c: int, x: int, y: int, ch: int, n: int, winW: int, winH: int)
    returns (count: int)
    requires Shaped(w, h, c, buf.Length) && 0 <= ch < c && 0 <= n <= 4
    ensures count == WindowSamples(x, y, n, winW, winH, w, h)
  {
    count := 0;
    var yStart := Max(0, y - winH);
    var yy := yStart;
    while yy <= y
      invariant yStart <= yy && (yy <= y + 1 || yy == yStart)
      invariant count == RowsCount(yStart, yy - 1, x, n, winW, w, h)
      decreases y - yy
    {
      var xStart := Max(0, x - winW);
      var xEnd := Min(w - 1, x - 1);
      var row := AccumulateRow(buf, w, h, c, xStart, xEnd, yy, ch, n);
      count := count + row;
      yy := yy + 1;
    }
  }

  /** The LS-or-MED prediction of compute_residuals_LS_* and reconstruct_from_residuals_LS_*. */
  method PredictLs(ctx: array<int>, s: Scheme, d: Domain, w: int, h: int, c: int, x: int, y: int, ch: int)
    returns (pred: int, usedLs: bool)
    requires Shaped(w, h, c, ctx.Length) && InShape(w, h, c, x, y, ch)
    requires s.LeastSquares? && ValidScheme(s)
    ensures (pred, usedLs) == Predict(s, d, w, h, c, ctx[..], x, y, ch)
  {
    pred, usedLs := 0, false;
    var samples := AccumulateWindow(ctx, w, h, c, x, y, ch, s.n, s.winW, s.winH);
    if samples >= s.n + 2 {
      var sol := if s.n > 0 then s.solve(ctx[..], x, y, ch) else None;
      if sol.Some? {
        var ok, nvec := BuildNeighborVec(ctx, w, h, c, x, y, ch, s.n);
        if ok {
          pred, usedLs := ShapeLs(d, sol.value), true;
        }
      }
    }
    if !usedLs {
      pred := PredictMed(ctx, w, h, c, x, y, ch);
    }
  }

  /** One sample of compute_residuals_MED_*: actual minus MED of its source neighbours. */
  method MedResidualOf(src: seq<int>, w: int, h: int, c: int, x: int, y: int, ch: int) returns (r: i16)
    requires Shaped(w, h, c, |src|) && InShape(w, h, c, x, y, ch)
    ensures 0 <= Idx(w, c, x, y, ch) < |src| && r == MedSample(src, w, h, c, Idx(w, c, x, y, ch))
  {
    IdxBounds(w, h, c, x, y, ch);
    GetInside(src, w, h, c, x, y, ch);
    CoordsOfIdx(w, h, c, x, y, ch);
    var a := Get(src, w, h, c, x - 1, y, ch);
    var b := Get(src, w, h, c, x, y - 1, ch);
    var cc := Get(src, w, h, c, x - 1, y - 1, ch);
    var pred := Med(a, b, cc);
    var actual := Get(src, w, h, c, x, y, ch);
    r := Residual(actual, pred);
  }

  /** The body of the MED residual loop: sample (x, y, ch) extends the fold by one. */
  method MedResidualStep(out: array<i16>, src: seq<int>, w: int, h: int, c: int, x: int, y: int, ch: int, ghost k: nat)
    requires Shaped(w, h, c, |src|) && InShape(w, h, c, x, y, ch) && out.Length == |src|
    requires k == Idx(w, c, x, y, ch) && k < |src| && out[..] == MedFold(src, w, h, c, k)
    modifies out
    ensures out[..] == MedFold(src, w, h, c, k + 1)
  {
    var r := MedResidualOf(src, w, h, c, x, y, ch);
    out[Idx(w, c, x, y, ch)] := r;
  }

  /** The channel loop of compute_residuals_MED_*: every channel of pixel (x, y). */
  method MedResidualPixel(out: array<i16>, src: seq<int>, w: int, h: int, c: int, x: int, y: int)
    requires Shaped(w, h, c, |src|) && 0 <= x < w && 0 <= y < h && out.Length == |src|
    requires 0 <= Idx(w, c, x, y, 0) <= |src| && out[..] == MedFold(src, w, h, c, Idx(w, c, x, y, 0))
    modifies out
    ensures 0 <= Idx(w, c, x + 1, y, 0) <= |src| && out[..] == MedFold(src, w, h, c, Idx(w, c, x + 1, y, 0))
  {
    PixelBounds(w, h, c, x, y);
    ghost var k := Idx(w, c, x, y, 0);
    var ch := 0;
    while ch < c
      invariant 0 <= ch <= c && k == Idx(w, c, x, y, ch) && k <= |src|
      invariant out[..] == MedFold(src, w, h, c, k)
    {
      IdxBounds(w, h, c, x, y, ch);
      MedResidualStep(out, src, w, h, c, x, y, ch, k);
      k := k + 1;
      ch := ch + 1;
    }
    IdxSteps(w, c, x, y);
  }

  /** The column loop of compute_residuals_MED_*: every sample of row y. */
  method MedResidualRow(out: array<i16>, src: seq<int>, w: int, h: int, c: int, y: int)
    requires Shaped(w, h, c, |src|) && 0 <= y < h && out.Length == |src|
    requires 0 <= Idx(w, c, 0, y, 0) <= |src| && out[..] == MedFold(src, w, h, c, Idx(w, c, 0, y, 0))
    modifies out
    ensures 0 <= Idx(w, c, 0, y + 1, 0) <= |src| && out[..] == MedFold(src, w, h, c, Idx(w, c, 0, y + 1, 0))
  {
    var x := 0;
    while x < w
      invariant 0 <= x <= w && 0 <= Idx(w, c, x, y, 0) <= |src|
      invariant out[..] == MedFold(src, w, h, c, Idx(w, c, x, y, 0))
    {
      PixelBounds(w, h, c, x, y);
      MedResidualPixel(out, src, w, h, c, x, y);
      x := x + 1;
    }
    IdxSteps(w, c, x, y);
  }

  /** compute_residuals_MED_u8 / _s16: the residual of every sample against MED of the source. */
  method ComputeResidualsMed(src: seq<int>, w: int, h: int, c: int) returns (res: seq<i16>)
    requires Shaped(w, h, c, |src|)
    ensures res == MedResiduals(src, w, h, c)
  {
    var out := new i16[|src|](_ => 0);
    var y := 0;
    IdxSteps(w, c, 0, 0);
    while y < h
      invariant 0 <= y <= h && 0 <= Idx(w, c, 0, y, 0) <= |src|
      invariant out[..] == MedFold(src, w, h, c, Idx(w, c, 0, y, 0))
    {
      RowBounds(w, h, c, y);
      MedResidualRow(out, src, w, h, c, y);
      y := y + 1;
    }
    IdxSteps(w, c, 0, h);
    res := out[..];
  }

  // ---------------------------------------------------------------------------
  // Reconstruction: reconstruct_from_residuals_MED / _MED_s16 / _LS_u8 / _LS_s16
  // ---------------------------------------------------------------------------

  /** The prediction the scheme makes at (x, y, ch) from the buffer being filled. */
  method PredictAt(buf: array<int>, s: Scheme, d: Domain, w: int, h: int, c: int, x: int, y: int, ch: int)
    returns (pred: int, usedLs: bool)
    requires Shaped(w, h, c, buf.Length) && InShape(w, h, c, x, y, ch) && ValidScheme(s)
    ensures (pred, usedLs) == Predict(s, d, w, h, c, buf[..], x, y, ch)
  {
    if s.MedOnly? {
      pred := PredictMed(buf, w, h, c, x, y, ch);
      usedLs := false;
    } else {
      pred, usedLs := PredictLs(buf, s, d, w, h, c, x, y, ch);
    }
  }

  /** The body of a reconstruction loop: sample k is its prediction plus its residual, stored into the domain. */
  method DecodeStep(rec: array<int>, res: seq<int>, s: Scheme, d: Domain, w: int, h: int, c: int, x: int, y: int, ch: int, ghost k: nat, ghost p: Predictor)
    requires Shaped(w, h, c, rec.Length) && InShape(w, h, c, x, y, ch) && ValidScheme(s) && |res| == rec.Length && Implements(p, s, d, w, h, c)
    requires k == Idx(w, c, x, y, ch) && k < |res| && rec[..] == Rebuild(res, d, p, k)
    modifies rec
    ensures rec[..] == Rebuild(res, d, p, k + 1)
  {
    CoordsOfIdx(w, h, c, x, y, ch);
    var pred, usedLs := PredictAt(rec, s, d, w, h, c, x, y, ch);
    assert pred == PredictK(s, d, w, h, c, rec[..], k).0;
    rec[Idx(w, c, x, y, ch)] := Store(d, pred + res[Idx(w, c, x, y, ch)]);
  }

  /** The channel loop of a reconstruction: every channel of pixel (x, y). */
  method DecodePixel(rec: array<int>, res: seq<int>, s: Scheme, d: Domain, w: int, h: int, c: int, x: int, y: int, ghost p: Predictor)
    requires Shaped(w, h, c, rec.Length) && 0 <= x < w && 0 <= y < h && ValidScheme(s) && |res| == rec.Length && Implements(p, s, d, w, h, c)
    requires 0 <= Idx(w, c, x, y, 0) <= |res| && rec[..] == Rebuild(res, d, p, Idx(w, c, x, y, 0))
    modifies rec
    ensures 0 <= Idx(w, c, x + 1, y, 0) <= |res| && rec[..] == Rebuild(res, d, p, Idx(w, c, x + 1, y, 0))
  {
    PixelBounds(w, h, c, x, y);
    ghost var k := Idx(w, c, x, y, 0);
    var ch := 0;
    while ch < c
      invariant 0 <= ch <= c && k == Idx(w, c, x, y, ch) && k <= |res|
      invariant rec[..] == Rebuild(res, d, p, k)
    {
      IdxBounds(w, h, c, x, y, ch);
      DecodeStep(rec, res, s, d, w, h, c, x, y, ch, k, p);
      k := k + 1;
      ch := ch + 1;
    }
    IdxSteps(w, c, x, y);
  }

  /** The column loop of a reconstruction: every sample of row y. */
  method DecodeRow(rec: array<int>, res: seq<int>, s: Scheme, d: Domain, w: int, h: int, c: int, y: int, ghost p: Predictor)
    requires Shaped(w, h, c, rec.Length) && 0 <= y < h && ValidScheme(s) && |res| == rec.Length && Implements(p, s, d, w, h, c)
    requires 0 <= Idx(w, c, 0, y, 0) <= |res| && rec[..] == Rebuild(res, d, p, Idx(w, c, 0, y, 0))
    modifies rec
    ensures 0 <= Idx(w, c, 0, y + 1, 0) <= |res| && rec[..] == Rebuild(res, d, p, Idx(w, c, 0, y + 1, 0))
  {
    var x := 0;
    while x < w
      invariant 0 <= x <= w && 0 <= Idx(w, c, x, y, 0) <= |res|
      invariant rec[..] == Rebuild(res, d, p, Idx(w, c, x, y, 0))
    {
      PixelBounds(w, h, c, x, y);
      DecodePixel(rec, res, s, d, w, h, c, x, y, p);
      x := x + 1;
    }
    IdxSteps(w, c, x, y);
  }

  /**
   * The reconstruction loop shared by the four decoders: a zero buffer filled in raster
   * order, each sample predicted from the samples already rebuilt.
   */
  method Reconstruct(residuals: seq<i16>, s: Scheme, d: Domain, w: int, h: int, c: int) returns (rec: seq<int>)
    requires w >= 0 && h >= 0 && c >= 0 && w * h * c <= |residuals| && ValidScheme(s)
    ensures rec == Rebuild(residuals[..w * h * c], d, PredictorOf(s, d, w, h, c), w * h * c)
  {
    var n := w * h * c;
    var res: seq<int> := residuals[..n];
    var buf := new int[n](_ => 0);
    assert buf[..] == Zeros(n);
    ghost var p := PredictorOf(s, d, w, h, c);
    PredictorOfImplements(s, d, w, h, c);
    var y := 0;
    IdxSteps(w, c, 0, 0);
    while y < h
      invariant 0 <= y <= h && 0 <= Idx(w, c, 0, y, 0) <= n
      invariant buf[..] == Rebuild(res, d, p, Idx(w, c, 0, y, 0))
    {
      RowBounds(w, h, c, y);
      DecodeRow(buf, res, s, d, w, h, c, y, p);
      y := y + 1;
    }
    IdxSteps(w, c, 0, h);
    rec := buf[..];
  }

  // ---------------------------------------------------------------------------
  // LS residuals: compute_residuals_LS_u8 / _s16
  // ---------------------------------------------------------------------------

  /**
   * The body of the LS residual loop: predict from the context, take the residual against
   * the source sample, count the choice, and store into the context what the decoder will rebuild.
   */
  method EncodeStep(ctx: array<int>, out: array<i16>, src: seq<int>, s: Scheme, d: Domain, w: int, h: int, c: int,
                    x: int, y: int, ch: int, ghost k: nat, ls: nat, med: nat, ghost p: Predictor)
    returns (ls': nat, med': nat)
    requires Shaped(w, h, c, |src|) && InShape(w, h, c, x, y, ch) && ValidScheme(s) && Implements(p, s, d, w, h, c)
    requires ctx.Length == out.Length == |src| && k == Idx(w, c, x, y, ch) && k < |src|
    requires LsState(ctx[..], out[..], ls, med) == LsEncode(src, d, p, k)
    modifies ctx, out
    ensures LsState(ctx[..], out[..], ls', med') == LsEncode(src, d, p, k + 1)
  {
    CoordsOfIdx(w, h, c, x, y, ch);
    var pred, usedLs := PredictAt(ctx, s, d, w, h, c, x, y, ch);
    assert (pred, usedLs) == PredictK(s, d, w, h, c, ctx[..], k);
    var at := Idx(w, c, x, y, ch);
    var r := Residual(src[at], pred);
    out[at] := r;
    ctx[at] := Store(d, pred + r);
    assert LsEncode(src, d, p, k + 1) == LsStep(LsEncode(src, d, p, k), src, d, p, k);
    if usedLs {
      ls', med' := ls + 1, med;
    } else {
      ls', med' := ls, med + 1;
    }
  }

  /** The channel loop of the LS residuals: every channel of pixel (x, y). */
  method EncodePixel(ctx: array<int>, out: array<i16>, src: seq<int>, s: Scheme, d: Domain, w: int, h: int, c: int,
                     x: int, y: int, ls: nat, med: nat, ghost p: Predictor)
    returns (ls': nat, med': nat)
    requires Shaped(w, h, c, |src|) && 0 <= x < w && 0 <= y < h && ValidScheme(s) && Implements(p, s, d, w, h, c) && ctx.Length == out.Length == |src|
    requires 0 <= Idx(w, c, x, y, 0) <= |src|
    requires LsState(ctx[..], out[..], ls, med) == LsEncode(src, d, p, Idx(w, c, x, y, 0))
    modifies ctx, out
    ensures 0 <= Idx(w, c, x + 1, y, 0) <= |src|
    ensures LsState(ctx[..], out[..], ls', med') == LsEncode(src, d, p, Idx(w, c, x + 1, y, 0))
  {
    PixelBounds(w, h, c, x, y);
    ghost var k := Idx(w, c, x, y, 0);
    ls', med' := ls, med;
    var ch := 0;
    while ch < c
      invariant 0 <= ch <= c && k == Idx(w, c, x, y, ch) && k <= |src|
      invariant LsState(ctx[..], out[..], ls', med') == LsEncode(src, d, p, k)
    {
      IdxBounds(w, h, c, x, y, ch);
      ls', med' := EncodeStep(ctx, out, src, s, d, w, h, c, x, y, ch, k, ls', med', p);
      k := k + 1;
      ch := ch + 1;
    }
    IdxSteps(w, c, x, y);
  }

  /** The column loop of the LS residuals: every sample of row y. */
  method EncodeRow(ctx: array<int>, out: array<i16>, src: seq<int>, s: Scheme, d: Domain, w: int, h: int, c: int,
                   y: int, ls: nat, med: nat, ghost p: Predictor)
    returns (ls': nat, med': nat)
    requires Shaped(w, h, c, |src|) && 0 <= y < h && ValidScheme(s) && Implements(p, s, d, w, h, c) && ctx.Length == out.Length == |src|
    requires 0 <= Idx(w, c, 0, y, 0) <= |src|
    requires LsState(ctx[..], out[..], ls, med) == LsEncode(src, d, p, Idx(w, c, 0, y, 0))
    modifies ctx, out
    ensures 0 <= Idx(w, c, 0, y + 1, 0) <= |src|
    ensures LsState(ctx[..], out[..], ls', med') == LsEncode(src, d, p, Idx(w, c, 0, y + 1, 0))
  {
    ls', med' := ls, med;
    var x := 0;
    while x < w
      invariant 0 <= x <= w && 0 <= Idx(w, c, x, y, 0) <= |src|
      invariant LsState(ctx[..], out[..], ls', med') == LsEncode(src, d, p, Idx(w, c, x, y, 0))
    {
      PixelBounds(w, h, c, x, y);
      ls', med' := EncodePixel(ctx, out, src, s, d, w, h, c, x, y, ls', med', p);
      x := x + 1;
    }
    IdxSteps(w, c, x, y);
  }

  /**
   * compute_residuals_LS_u8 / _s16: residuals against the scheme's prediction from a context
   * buffer that is rebuilt exactly as the decoder rebuilds it, with the LS and MED counts.
   */
  method ComputeResidualsLs(src: seq<int>, s: Scheme, d: Domain, w: int, h: int, c: int)
    returns (res: seq<i16>, ls: nat, med: nat)
    requires Shaped(w, h, c, |src|) && ValidScheme(s)
    ensures res == LsEncode(src, d, PredictorOf(s, d, w, h, c), |src|).res
    ensures ls == LsEncode(src, d, PredictorOf(s, d, w, h, c), |src|).lsUsed
    ensures med == LsEncode(src, d, PredictorOf(s, d, w, h, c), |src|).medUsed
  {
    var ctx := new int[|src|](_ => 0);
    var out := new i16[|src|](_ => 0);
    assert ctx[..] == Zeros(|src|);
    ls, med := 0, 0;
    ghost var p := PredictorOf(s, d, w, h, c);
    PredictorOfImplements(s, d, w, h, c);
    var y := 0;
    IdxSteps(w, c, 0, 0);
    while y < h
      invariant 0 <= y <= h && 0 <= Idx(w, c, 0, y, 0) <= |src|
      invariant LsState(ctx[..], out[..], ls, med) == LsEncode(src, d, p, Idx(w, c, 0, y, 0))
    {
      RowBounds(w, h, c, y);
      ls, med := EncodeRow(ctx, out, src, s, d, w, h, c, y, ls, med, p);
      y := y + 1;
    }
    IdxSteps(w, c, 0, h);
    res := out[..];
  }
}
