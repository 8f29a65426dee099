/**
 * The image-level entry points of predictor.cpp: the MED and LS residual encoders and
 * decoders for 8-bit images and for int16 (colour-transformed) images, built on the
 * raster loops of PredictorLoops and specified by the folds of Predictor.
 */
module PredictorImages {
  import opened MachineInts
  import opened Raster
  import opened Predictor
  import opened PredictorLoops
  import opened ImageIO

  /** `g_last_ls_breakdown`: how many samples the last LS encoder predicted by LS and by MED. */
  datatype LsBreakdown = LsBreakdown(usedLs: nat, usedMed: nat)

  /** A reconstruction buffer of the 8-bit domain as bytes. */
  function AsBytes(buf: seq<int>): (px: seq<u8>)
    requires AllInDomain(Bits8, buf)
    ensures px == buf
  {
    seq(|buf|, i requires 0 <= i < |buf| => buf[i] as u8)
  }

  /** A reconstruction buffer of the 16-bit domain as int16 samples. */
  function AsI16s(buf: seq<int>): (px: seq<i16>)
    requires AllInDomain(Bits16, buf)
    ensures px == buf
  {
    seq(|buf|, i requires 0 <= i < |buf| => buf[i] as i16)
  }

  /** Non-negative dimensions and at least w * h * c residuals (the decoders read that many). */
  predicate DecodableShape(w: int, h: int, c: int, residuals: seq<i16>)
  {
    w >= 0 && h >= 0 && c >= 0 && Size(w, h, c) <= |residuals|
  }

  function Size(w: int, h: int, c: int): int
  {
    w * h * c
  }

  /** The samples a decoder rebuilds from the first w * h * c residuals: Rebuild over the whole raster. */
  function Decoded(residuals: seq<i16>, s: Scheme, d: Domain, w: int, h: int, c: int): (buf: seq<int>)
    requires DecodableShape(w, h, c, residuals) && ValidScheme(s)
    ensures |buf| == w * h * c && AllInDomain(d, buf)
  {
    var n := Size(w, h, c);
    RebuildInDomain(residuals[..n], d, PredictorOf(s, d, w, h, c), n);
    Rebuild(residuals[..n], d, PredictorOf(s, d, w, h, c), n)
  }

  /** The 8-bit image a decoder rebuilds from the residuals, the shape and the scheme, tagged with `format`. */
  function DecodeImage8(residuals: seq<i16>, shape: Image, s: Scheme, format: ImageFormat): (rec: Image)
    requires DecodableShape(shape.w, shape.h, shape.c, residuals) && ValidScheme(s)
    ensures ImageShaped(rec) && rec.w == shape.w && rec.h == shape.h && rec.c == shape.c
    ensures rec.format == format
  {
    Image(shape.w, shape.h, shape.c, AsBytes(Decoded(residuals, s, Bits8, shape.w, shape.h, shape.c)), format)
  }

  /** The int16 image a decoder rebuilds from the residuals, the shape and the scheme. */
  function DecodeImage16(residuals: seq<i16>, shape: Image16, s: Scheme): (rec: Image16)
    requires DecodableShape(shape.w, shape.h, shape.c, residuals) && ValidScheme(s)
    ensures Image16Shaped(rec) && rec.w == shape.w && rec.h == shape.h && rec.c == shape.c
  {
    Image16(shape.w, shape.h, shape.c, AsI16s(Decoded(residuals, s, Bits16, shape.w, shape.h, shape.c)))
  }

  // ---------------------------------------------------------------------------
  // MED
  // ---------------------------------------------------------------------------

  method ComputeResidualsMedU8(src: Image) returns (res: seq<i16>)
    requires ImageShaped(src)
    ensures res == MedResiduals(src.px, src.w, src.h, src.c)
  {
    res := ComputeResidualsMed(src.px, src.w, src.h, src.c);
  }

  /** reconstruct_from_residuals_MED copies only the dimensions of `shape`, so the format is Unknown. */
  method ReconstructMedU8(residuals: seq<i16>, shape: Image) returns (rec: Image)
    requires DecodableShape(shape.w, shape.h, shape.c, residuals)
    ensures rec == DecodeImage8(residuals, shape, MedOnly, Unknown)
  {
    var buf := Reconstruct(residuals, MedOnly, Bits8, shape.w, shape.h, shape.c);
    assert buf == Decoded(residuals, MedOnly, Bits8, shape.w, shape.h, shape.c);
    rec := Image(shape.w, shape.h, shape.c, AsBytes(buf), Unknown);
  }

  method ComputeResidualsMedS16(src: Image16) returns (res: seq<i16>)
    requires Image16Shaped(src)
    ensures res == MedResiduals(src.px, src.w, src.h, src.c)
  {
    res := ComputeResidualsMed(src.px, src.w, src.h, src.c);
  }

  method ReconstructMedS16(residuals: seq<i16>, shape: Image16) returns (rec: Image16)
    requires DecodableShape(shape.w, shape.h, shape.c, residuals)
    ensures rec == DecodeImage16(residuals, shape, MedOnly)
  {
    var buf := Reconstruct(residuals, MedOnly, Bits16, shape.w, shape.h, shape.c);
    assert buf == Decoded(residuals, MedOnly, Bits16, shape.w, shape.h, shape.c);
    rec := Image16(shape.w, shape.h, shape.c, AsI16s(buf));
  }

  /** MED decoding of an 8-bit image's MED residuals gives the image back (up to the format tag). */
  lemma MedImageRoundTrip8(src: Image)
    requires ImageShaped(src)
    ensures |MedResiduals(src.px, src.w, src.h, src.c)| == src.w * src.h * src.c
    ensures ImagesEqual(DecodeImage8(MedResiduals(src.px, src.w, src.h, src.c), src, MedOnly, Unknown), src)
  {
    var res := MedResiduals(src.px, src.w, src.h, src.c);
    assert AllInDomain(Bits8, src.px);
    MedRoundTrip(src.px, src.w, src.h, src.c, Bits8);
    assert res[..|res|] == res;
  }

  /** MED decoding of an int16 image's MED residuals gives the image back. */
  lemma MedImageRoundTrip16(src: Image16)
    requires Image16Shaped(src)
    ensures |MedResiduals(src.px, src.w, src.h, src.c)| == src.w * src.h * src.c
    ensures DecodeImage16(MedResiduals(src.px, src.w, src.h, src.c), src, MedOnly) == src
  {
    var res := MedResiduals(src.px, src.w, src.h, src.c);
    assert AllInDomain(Bits16, src.px);
    MedRoundTrip(src.px, src.w, src.h, src.c, Bits16);
    assert res[..|res|] == res;
  }

  // ---------------------------------------------------------------------------
  // LS
  // ---------------------------------------------------------------------------

  function LsScheme(n: int, winW: int, winH: int, solve: Solver): Scheme
  {
    LeastSquares(n, winW, winH, solve)
  }

  /** The residuals and breakdown compute_residuals_LS_{u8,s16} produce for source samples `src`. */
  function LsResult(src: seq<int>, d: Domain, w: int, h: int, c: int, s: Scheme): (st: LsState)
    requires |src| == w * h * c
    ensures |st.res| == |src| && st.lsUsed + st.medUsed == w * h * c
  {
    LsEncode(src, d, PredictorOf(s, d, w, h, c), |src|)
  }

  method ComputeResidualsLsU8(src: Image, n: int, winW: int, winH: int, solve: Solver)
    returns (res: seq<i16>, stats: LsBreakdown)
    requires ImageShaped(src) && 0 <= n <= 4
    ensures res == LsResult(src.px, Bits8, src.w, src.h, src.c, LsScheme(n, winW, winH, solve)).res
    ensures stats.usedLs == LsResult(src.px, Bits8, src.w, src.h, src.c, LsScheme(n, winW, winH, solve)).lsUsed
    ensures stats.usedMed == LsResult(src.px, Bits8, src.w, src.h, src.c, LsScheme(n, winW, winH, solve)).medUsed
  {
    var ls, med;
    res, ls, med := ComputeResidualsLs(src.px, LsScheme(n, winW, winH, solve), Bits8, src.w, src.h, src.c);
    stats := LsBreakdown(ls, med);
  }

  /** reconstruct_from_residuals_LS_u8 starts from a copy of `shape`, so the format is kept. */
  method ReconstructLsU8(residuals: seq<i16>, shape: Image, n: int, winW: int, winH: int, solve: Solver)
    returns (rec: Image)
    requires DecodableShape(shape.w, shape.h, shape.c, residuals) && 0 <= n <= 4
    ensures rec == DecodeImage8(residuals, shape, LsScheme(n, winW, winH, solve), shape.format)
  {
    var s := LsScheme(n, winW, winH, solve);
    var buf := Reconstruct(residuals, s, Bits8, shape.w, shape.h, shape.c);
    assert buf == Decoded(residuals, s, Bits8, shape.w, shape.h, shape.c);
    rec := Image(shape.w, shape.h, shape.c, AsBytes(buf), shape.format);
  }

  method ComputeResidualsLsS16(src: Image16, n: int, winW: int, winH: int, solve: Solver)
    returns (res: seq<i16>, stats: LsBreakdown)
    requires Image16Shaped(src) && 0 <= n <= 4
    ensures res == LsResult(src.px, Bits16, src.w, src.h, src.c, LsScheme(n, winW, winH, solve)).res
    ensures stats.usedLs == LsResult(src.px, Bits16, src.w, src.h, src.c, LsScheme(n, winW, winH, solve)).lsUsed
    ensures stats.usedMed == LsResult(src.px, Bits16, src.w, src.h, src.c, LsScheme(n, winW, winH, solve)).medUsed
  {
    var ls, med;
    res, ls, med := ComputeResidualsLs(src.px, LsScheme(n, winW, winH, solve), Bits16, src.w, src.h, src.c);
    stats := LsBreakdown(ls, med);
  }

  method ReconstructLsS16(residuals: seq<i16>, shape: Image16, n: int, winW: int, winH: int, solve: Solver)
    returns (rec: Image16)
    requires DecodableShape(shape.w, shape.h, shape.c, residuals) && 0 <= n <= 4
    ensures rec == DecodeImage16(residuals, shape, LsScheme(n, winW, winH, solve))
  {
    var s := LsScheme(n, winW, winH, solve);
    var buf := Reconstruct(residuals, s, Bits16, shape.w, shape.h, shape.c);
    assert buf == Decoded(residuals, s, Bits16, shape.w, shape.h, shape.c);
    rec := Image16(shape.w, shape.h, shape.c, AsI16s(buf));
  }

  /**
   * LS decoding of an 8-bit image's LS residuals, with the same parameters and solver, gives
   * the image back, format included.
   */
  lemma LsImageRoundTrip8(src: Image, n: int, winW: int, winH: int, solve: Solver)
    requires ImageShaped(src) && 0 <= n <= 4
    ensures DecodeImage8(LsResult(src.px, Bits8, src.w, src.h, src.c, LsScheme(n, winW, winH, solve)).res,
                         src, LsScheme(n, winW, winH, solve), src.format) == src
  {
    var s := LsScheme(n, winW, winH, solve);
    var p := PredictorOf(s, Bits8, src.w, src.h, src.c);
    var res := LsResult(src.px, Bits8, src.w, src.h, src.c, s).res;
    assert AllInDomain(Bits8, src.px);
    PredictorOfFits(s, Bits8, src.w, src.h, src.c);
    LsRoundTrip(src.px, Bits8, p);
    assert res[..|res|] == res;
  }

  /** LS decoding of an int16 image's LS residuals, with the same parameters and solver, gives the image back. */
  lemma LsImageRoundTrip16(src: Image16, n: int, winW: int, winH: int, solve: Solver)
    requires Image16Shaped(src) && 0 <= n <= 4
    ensures DecodeImage16(LsResult(src.px, Bits16, src.w, src.h, src.c, LsScheme(n, winW, winH, solve)).res,
                          src, LsScheme(n, winW, winH, solve)) == src
  {
    var s := LsScheme(n, winW, winH, solve);
    var p := PredictorOf(s, Bits16, src.w, src.h, src.c);
    var res := LsResult(src.px, Bits16, src.w, src.h, src.c, s).res;
    assert AllInDomain(Bits16, src.px);
    PredictorOfFits(s, Bits16, src.w, src.h, src.c);
    LsRoundTrip(src.px, Bits16, p);
    assert res[..|res|] == res;
  }
}
