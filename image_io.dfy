/**
 * The integer parts of imageIO.cpp: the byte clamp, the reversible colour transforms
 * (the YUV-like transform and the RCT), the alpha-drop / gray-or-RGB channel rule and
 * image equality. Every transform is a loop over w * h interleaved 3-sample pixels.
 */
module ImageIO {
  import opened MachineInts
  import opened Wrappers
  import opened Raster

  /** `clamp8` / `clamp8i`: std::clamp to [0, 255], then the (lossless) cast to unsigned char. */
  function Clamp8(v: int): (r: u8)
    ensures 0 <= v <= 255 ==> r == v
    ensures v < 0 ==> r == 0
    ensures v > 255 ==> r == 255
  {
    Clamp(v, 0, 255)
  }

  /** An image as the loader produces it: non-negative dimensions and exactly w * h * c samples. */
  predicate ImageShaped(im: Image)
  {
    Shaped(im.w, im.h, im.c, |im.px|)
  }

  predicate Image16Shaped(im: Image16)
  {
    Shaped(im.w, im.h, im.c, |im.px|)
  }

  // ---------------------------------------------------------------------------
  // Per-pixel maps
  // ---------------------------------------------------------------------------

  /**
   * rgb_to_yuv on one pixel: Y is (R + 2G + B) >> 2 cast to uint8, U = B - G, V = R - G,
   * each stored as int16.
   */
  function YuvFromRgb(r: int, g: int, b: int): (p: (i16, i16, i16))
  {
    (ToU8((r + 2 * g + b) / 4), ToI16(b - g), ToI16(r - g))
  }

  /**
   * yuv_to_rgb on one pixel before clamping: Y is re-read as uint8, G = Y - ((U + V) >> 2)
   * with an arithmetic (flooring) shift, R = V + G, B = U + G.
   */
  function RgbFromYuvRaw(y: int, u: int, v: int): (int, int, int)
  {
    var Y := ToU8(y);
    var G := Y - (u + v) / 4;
    (v + G, G, u + G)
  }

  function RgbFromYuv(y: int, u: int, v: int): (p: (u8, u8, u8))
  {
    var q := RgbFromYuvRaw(y, u, v);
    (Clamp8(q.0), Clamp8(q.1), Clamp8(q.2))
  }

  /** rct_from_rgb on one pixel: Y = G, U = R - G, V = B - G, each cast to int16. */
  function RctFromRgb(r: int, g: int, b: int): (p: (i16, i16, i16))
  {
    (ToI16(g), ToI16(r - g), ToI16(b - g))
  }

  /** rct_to_rgb on one pixel before clamping: R = Y + U, G = Y, B = Y + V. */
  function RgbFromRctRaw(y: int, u: int, v: int): (int, int, int)
  {
    (y + u, y, y + v)
  }

  function RgbFromRct(y: int, u: int, v: int): (p: (u8, u8, u8))
  {
    var q := RgbFromRctRaw(y, u, v);
    (Clamp8(q.0), Clamp8(q.1), Clamp8(q.2))
  }

  /** On a byte pixel, Y = floor((R + 2G + B) / 4) lies in [0, 255] and U, V in [-255, 255]. */
  lemma YuvRanges(r: u8, g: u8, b: u8)
    ensures YuvFromRgb(r, g, b).0 == (r as int + 2 * (g as int) + b) / 4 && 0 <= YuvFromRgb(r, g, b).0 <= 255
    ensures YuvFromRgb(r, g, b).1 == b as int - g && -255 <= YuvFromRgb(r, g, b).1 <= 255
    ensures YuvFromRgb(r, g, b).2 == r as int - g && -255 <= YuvFromRgb(r, g, b).2 <= 255
  {
    DivBelow(r + 2 * g + b, 4, 256);
  }

  lemma FloorShift(a: int, g: int)
    ensures (a + 4 * g) / 4 == a / 4 + g
  {
  }

  /**
   * The inverse transform recovers the pixel before any clamping (so the clamps are no-ops):
   * R + 2G + B = (U + V) + 4G, hence G = Y - floor((U + V) / 4).
   */
  lemma YuvPixelRoundTrip(r: u8, g: u8, b: u8)
    ensures RgbFromYuvRaw(YuvFromRgb(r, g, b).0, YuvFromRgb(r, g, b).1, YuvFromRgb(r, g, b).2) == (r, g, b)
    ensures RgbFromYuv(YuvFromRgb(r, g, b).0, YuvFromRgb(r, g, b).1, YuvFromRgb(r, g, b).2) == (r, g, b)
  {
    YuvRanges(r, g, b);
    FloorShift((b - g) + (r - g), g);
    assert (b - g) + (r - g) + 4 * g == r + 2 * g + b;
  }

  lemma RctPixelRoundTrip(r: u8, g: u8, b: u8)
    ensures RgbFromRctRaw(RctFromRgb(r, g, b).0, RctFromRgb(r, g, b).1, RctFromRgb(r, g, b).2) == (r, g, b)
    ensures RgbFromRct(RctFromRgb(r, g, b).0, RctFromRgb(r, g, b).1, RctFromRgb(r, g, b).2) == (r, g, b)
  {
  }

  // ---------------------------------------------------------------------------
  // Pixel planes
  // ---------------------------------------------------------------------------

  /** The first n pixels of an interleaved 3-sample buffer, each mapped by f. */
  function MapPixels<T>(px: seq<int>, n: nat, f: (int, int, int) -> (T, T, T)): (q: seq<T>)
    requires 3 * n <= |px|
    ensures |q| == 3 * n
    decreases n
  {
    if n == 0 then []
    else
      var p := f(px[3 * (n - 1)], px[3 * (n - 1) + 1], px[3 * (n - 1) + 2]);
      MapPixels(px, n - 1, f) + [p.0, p.1, p.2]
  }

  /** Pixel i of the mapped plane is f of pixel i of the source. */
  lemma {:induction false} MapPixelsAt<T>(px: seq<int>, n: nat, f: (int, int, int) -> (T, T, T), i: int)
    requires 3 * n <= |px| && 0 <= i < n
    ensures MapPixels(px, n, f)[3 * i] == f(px[3 * i], px[3 * i + 1], px[3 * i + 2]).0
    ensures MapPixels(px, n, f)[3 * i + 1] == f(px[3 * i], px[3 * i + 1], px[3 * i + 2]).1
    ensures MapPixels(px, n, f)[3 * i + 2] == f(px[3 * i], px[3 * i + 1], px[3 * i + 2]).2
    decreases n
  {
    if i < n - 1 {
      MapPixelsAt(px, n - 1, f, i);
    }
  }

  /** The mapped plane of n pixels reads only the first 3n samples. */
  lemma {:induction false} MapPixelsPrefix<T>(px: seq<int>, px': seq<int>, n: nat, f: (int, int, int) -> (T, T, T))
    requires 3 * n <= |px| && 3 * n <= |px'| && px[..3 * n] == px'[..3 * n]
    ensures MapPixels(px, n, f) == MapPixels(px', n, f)
    decreases n
  {
    if n > 0 {
      assert px[..3 * (n - 1)] == px[..3 * n][..3 * (n - 1)];
      assert px'[..3 * (n - 1)] == px'[..3 * n][..3 * (n - 1)];
      MapPixelsPrefix(px, px', n - 1, f);
      assert px[3 * (n - 1)] == px[..3 * n][3 * (n - 1)];
      assert px[3 * (n - 1) + 1] == px[..3 * n][3 * (n - 1) + 1];
      assert px[3 * (n - 1) + 2] == px[..3 * n][3 * (n - 1) + 2];
    }
  }

  function YuvMap(): (int, int, int) -> (i16, i16, i16)
  {
    (r: int, g: int, b: int) => YuvFromRgb(r, g, b)
  }

  function RgbOfYuvMap(): (int, int, int) -> (u8, u8, u8)
  {
    (y: int, u: int, v: int) => RgbFromYuv(y, u, v)
  }

  function RctMap(): (int, int, int) -> (i16, i16, i16)
  {
    (r: int, g: int, b: int) => RctFromRgb(r, g, b)
  }

  function RgbOfRctMap(): (int, int, int) -> (u8, u8, u8)
  {
    (y: int, u: int, v: int) => RgbFromRct(y, u, v)
  }

  /** The plane of n + 1 pixels is the plane of n pixels followed by the mapped pixel n. */
  lemma MapPixelsLast<T>(px: seq<int>, n: nat, f: (int, int, int) -> (T, T, T))
    requires 3 * n + 3 <= |px|
    ensures MapPixels(px, n + 1, f)[..3 * n] == MapPixels(px, n, f)
    ensures MapPixels(px, n + 1, f)[3 * n] == f(px[3 * n], px[3 * n + 1], px[3 * n + 2]).0
    ensures MapPixels(px, n + 1, f)[3 * n + 1] == f(px[3 * n], px[3 * n + 1], px[3 * n + 2]).1
    ensures MapPixels(px, n + 1, f)[3 * n + 2] == f(px[3 * n], px[3 * n + 1], px[3 * n + 2]).2
  {
  }

  /** Mapping with f and then with g gives every byte pixel back when g undoes f on byte pixels. */
  lemma {:induction false} MapPixelsInverse(px: seq<u8>, n: nat, f: (int, int, int) -> (i16, i16, i16), g: (int, int, int) -> (u8, u8, u8))
    requires 3 * n <= |px|
    requires forall r: u8, gg: u8, b: u8 {:trigger f(r, gg, b)} :: g(f(r, gg, b).0, f(r, gg, b).1, f(r, gg, b).2) == (r, gg, b)
    ensures MapPixels(MapPixels(px, n, f), n, g) == px[..3 * n]
    decreases n
  {
    if n > 0 {
      var m := n - 1;
      var q := MapPixels(px, n, f);
      MapPixelsLast(px, m, f);
      MapPixelsPrefix(q, MapPixels(px, m, f), m, g);
      MapPixelsInverse(px, m, f, g);
      MapPixelsLast(q, m, g);
      assert px[..3 * n] == px[..3 * m] + [px[3 * m], px[3 * m + 1], px[3 * m + 2]];
    }
  }

  /** The per-pixel loop shared by the four colour transforms: out[3i..3i+3] = f(pixel i). */
  method TransformPixels<T(0)>(px: seq<int>, n: nat, f: (int, int, int) -> (T, T, T)) returns (out: seq<T>)
    requires 3 * n <= |px|
    ensures out == MapPixels(px, n, f)
  {
    var a := new T[3 * n];
    var i := 0;
    while i < n
      invariant 0 <= i <= n
      invariant a[..3 * i] == MapPixels(px, i, f)
    {
      var p := f(px[3 * i], px[3 * i + 1], px[3 * i + 2]);
      a[3 * i] := p.0;
      a[3 * i + 1] := p.1;
      a[3 * i + 2] := p.2;
      assert a[..3 * (i + 1)] == a[..3 * i] + [p.0, p.1, p.2];
      i := i + 1;
    }
    assert a[..] == a[..3 * n];
    out := a[..];
  }

  // ---------------------------------------------------------------------------
  // Image transforms
  // ---------------------------------------------------------------------------

  /** rgb_to_yuv: a 3-channel image of the same size, or an error for any other channel count. */
  function YuvImage(rgb: Image): (r: Result<Image16>)
    requires ImageShaped(rgb)
    ensures r.Err? <==> rgb.c != 3
    ensures r.Ok? ==> r.value.w == rgb.w && r.value.h == rgb.h && r.value.c == 3 && Image16Shaped(r.value)
  {
    if rgb.c != 3 then Err(UnsupportedChannels)
    else Ok(Image16(rgb.w, rgb.h, 3, MapPixels(rgb.px, rgb.w * rgb.h, YuvMap())))
  }

  /** yuv_to_rgb. */
  function RgbImageOfYuv(yuv: Image16): (r: Result<Image>)
    requires Image16Shaped(yuv)
    ensures r.Err? <==> yuv.c != 3
    ensures r.Ok? ==> r.value.w == yuv.w && r.value.h == yuv.h && r.value.c == 3 && ImageShaped(r.value)
  {
    if yuv.c != 3 then Err(UnsupportedChannels)
    else Ok(Image(yuv.w, yuv.h, 3, MapPixels(yuv.px, yuv.w * yuv.h, RgbOfYuvMap()), Unknown))
  }

  /** rct_from_rgb. */
  function RctImage(rgb: Image): (r: Result<Image16>)
    requires ImageShaped(rgb)
    ensures r.Err? <==> rgb.c != 3
    ensures r.Ok? ==> r.value.w == rgb.w && r.value.h == rgb.h && r.value.c == 3 && Image16Shaped(r.value)
  {
    if rgb.c != 3 then Err(UnsupportedChannels)
    else Ok(Image16(rgb.w, rgb.h, 3, MapPixels(rgb.px, rgb.w * rgb.h, RctMap())))
  }

  /** rct_to_rgb. */
  function RgbImageOfRct(rct: Image16): (r: Result<Image>)
    requires Image16Shaped(rct)
    ensures r.Err? <==> rct.c != 3
    ensures r.Ok? ==> r.value.w == rct.w && r.value.h == rct.h && r.value.c == 3 && ImageShaped(r.value)
  {
    if rct.c != 3 then Err(UnsupportedChannels)
    else Ok(Image(rct.w, rct.h, 3, MapPixels(rct.px, rct.w * rct.h, RgbOfRctMap()), Unknown))
  }

  method RgbToYuv(rgb: Image) returns (r: Result<Image16>)
    requires ImageShaped(rgb)
    ensures r == YuvImage(rgb)
  {
    if rgb.c != 3 {
      return Err(UnsupportedChannels);
    }
    var px := TransformPixels(rgb.px, rgb.w * rgb.h, YuvMap());
    r := Ok(Image16(rgb.w, rgb.h, 3, px));
  }

  method YuvToRgb(yuv: Image16) returns (r: Result<Image>)
    requires Image16Shaped(yuv)
    ensures r == RgbImageOfYuv(yuv)
  {
    if yuv.c != 3 {
      return Err(UnsupportedChannels);
    }
    var px := TransformPixels(yuv.px, yuv.w * yuv.h, RgbOfYuvMap());
    r := Ok(Image(yuv.w, yuv.h, 3, px, Unknown));
  }

  method RctFromRgbImage(rgb: Image) returns (r: Result<Image16>)
    requires ImageShaped(rgb)
    ensures r == RctImage(rgb)
  {
    if rgb.c != 3 {
      return Err(UnsupportedChannels);
    }
    var px := TransformPixels(rgb.px, rgb.w * rgb.h, RctMap());
    r := Ok(Image16(rgb.w, rgb.h, 3, px));
  }

  method RctToRgbImage(rct: Image16) returns (r: Result<Image>)
    requires Image16Shaped(rct)
    ensures r == RgbImageOfRct(rct)
  {
    if rct.c != 3 {
      return Err(UnsupportedChannels);
    }
    var px := TransformPixels(rct.px, rct.w * rct.h, RgbOfRctMap());
    r := Ok(Image(rct.w, rct.h, 3, px, Unknown));
  }

  /** `images_equal`: same dimensions and samples; the format tag is not compared. */
  predicate ImagesEqual(a: Image, b: Image)
  {
    a.w == b.w && a.h == b.h && a.c == b.c && a.px == b.px
  }

  /** images_equal is equality up to the format tag. */
  lemma ImagesEqualIgnoresFormat(a: Image, b: Image)
    ensures ImagesEqual(a, b) <==> a == b.(format := a.format)
  {
  }

  /** yuv_to_rgb(rgb_to_yuv(im)) equals im for every RGB image. */
  lemma YuvRoundTrip(rgb: Image)
    requires ImageShaped(rgb) && rgb.c == 3
    ensures YuvImage(rgb).Ok? && RgbImageOfYuv(YuvImage(rgb).value).Ok?
    ensures ImagesEqual(RgbImageOfYuv(YuvImage(rgb).value).value, rgb)
  {
    var n := rgb.w * rgb.h;
    assert |rgb.px| == 3 * n by {
      MulAssoc(rgb.w, rgb.h, 3);
    }
    forall r: u8, g: u8, b: u8 ensures RgbOfYuvMap()(YuvMap()(r, g, b).0, YuvMap()(r, g, b).1, YuvMap()(r, g, b).2) == (r, g, b) {
      YuvPixelRoundTrip(r, g, b);
    }
    MapPixelsInverse(rgb.px, n, YuvMap(), RgbOfYuvMap());
    assert rgb.px[..3 * n] == rgb.px;
  }

  /** rct_to_rgb(rct_from_rgb(im)) equals im for every RGB image. */
  lemma RctRoundTrip(rgb: Image)
    requires ImageShaped(rgb) && rgb.c == 3
    ensures RctImage(rgb).Ok? && RgbImageOfRct(RctImage(rgb).value).Ok?
    ensures ImagesEqual(RgbImageOfRct(RctImage(rgb).value).value, rgb)
  {
    var n := rgb.w * rgb.h;
    assert |rgb.px| == 3 * n by {
      MulAssoc(rgb.w, rgb.h, 3);
    }
    forall r: u8, g: u8, b: u8 ensures RgbOfRctMap()(RctMap()(r, g, b).0, RctMap()(r, g, b).1, RctMap()(r, g, b).2) == (r, g, b) {
      RctPixelRoundTrip(r, g, b);
    }
    MapPixelsInverse(rgb.px, n, RctMap(), RgbOfRctMap());
    assert rgb.px[..3 * n] == rgb.px;
  }

  /** Each sample of rgb_to_yuv's output: Y of every pixel in [0, 255], U = B - G and V = R - G in [-255, 255]. */
  lemma YuvImageSamples(rgb: Image, i: int)
    requires ImageShaped(rgb) && rgb.c == 3 && 0 <= i < rgb.w * rgb.h
    ensures YuvImage(rgb).Ok? && 3 * i + 2 < |YuvImage(rgb).value.px|
    ensures YuvImage(rgb).value.px[3 * i] == (rgb.px[3 * i] as int + 2 * (rgb.px[3 * i + 1] as int) + rgb.px[3 * i + 2]) / 4
    ensures 0 <= YuvImage(rgb).value.px[3 * i] <= 255
    ensures YuvImage(rgb).value.px[3 * i + 1] == rgb.px[3 * i + 2] as int - rgb.px[3 * i + 1]
    ensures YuvImage(rgb).value.px[3 * i + 2] == rgb.px[3 * i] as int - rgb.px[3 * i + 1]
    ensures -255 <= YuvImage(rgb).value.px[3 * i + 1] <= 255 && -255 <= YuvImage(rgb).value.px[3 * i + 2] <= 255
  {
    var n := rgb.w * rgb.h;
    assert |rgb.px| == 3 * n by {
      MulAssoc(rgb.w, rgb.h, 3);
    }
    MapPixelsAt(rgb.px, n, YuvMap(), i);
    YuvRanges(rgb.px[3 * i], rgb.px[3 * i + 1], rgb.px[3 * i + 2]);
  }

  // ---------------------------------------------------------------------------
  // Channel rule
  // ---------------------------------------------------------------------------

  /** The first three samples of each of the first n 4-sample pixels. */
  function DropAlphaPlane(px: seq<u8>, n: nat): (q: seq<u8>)
    requires 4 * n <= |px|
    ensures |q| == 3 * n
    decreases n
  {
    if n == 0 then []
    else DropAlphaPlane(px, n - 1) + [px[4 * (n - 1)], px[4 * (n - 1) + 1], px[4 * (n - 1) + 2]]
  }

  /** Sample k of output pixel i is sample k of input pixel i. */
  lemma {:induction false} DropAlphaAt(px: seq<u8>, n: nat, i: int, k: int)
    requires 4 * n <= |px| && 0 <= i < n && 0 <= k < 3
    ensures DropAlphaPlane(px, n)[3 * i + k] == px[4 * i + k]
    decreases n
  {
    if i < n - 1 {
      DropAlphaAt(px, n - 1, i, k);
    }
  }

  /**
   * The channel rule of load_image and ensure_gray_or_rgb: gray and RGB pass unchanged, RGBA
   * loses its alpha channel (into a fresh image, so with an Unknown format), anything else fails.
   */
  function GrayOrRgb(im: Image): (r: Result<Image>)
    requires ImageShaped(im)
    ensures r.Ok? <==> im.c == 1 || im.c == 3 || im.c == 4
    ensures r.Ok? ==> ImageShaped(r.value) && (r.value.c == 1 || r.value.c == 3)
    ensures r.Ok? ==> r.value.w == im.w && r.value.h == im.h
    ensures im.c == 1 || im.c == 3 ==> r == Ok(im)
  {
    if im.c == 1 || im.c == 3 then Ok(im)
    else if im.c == 4 then
      MulAssoc(im.w, im.h, 4);
      MulAssoc(im.w, im.h, 3);
      Ok(Image(im.w, im.h, 3, DropAlphaPlane(im.px, im.w * im.h), Unknown))
    else Err(UnsupportedChannels)
  }

  /** Applying the channel rule twice is applying it once. */
  lemma GrayOrRgbIdempotent(im: Image)
    requires ImageShaped(im) && GrayOrRgb(im).Ok?
    ensures GrayOrRgb(GrayOrRgb(im).value) == GrayOrRgb(im)
  {
  }

  /** The alpha-drop loop of load_image / ensure_gray_or_rgb. */
  method DropAlpha(px: seq<u8>, n: nat) returns (out: seq<u8>)
    requires 4 * n <= |px|
    ensures out == DropAlphaPlane(px, n)
  {
    var a := new u8[3 * n];
    var i := 0;
    while i < n
      invariant 0 <= i <= n
      invariant a[..3 * i] == DropAlphaPlane(px, i)
    {
      a[3 * i] := px[4 * i];
      a[3 * i + 1] := px[4 * i + 1];
      a[3 * i + 2] := px[4 * i + 2];
      assert a[..3 * (i + 1)] == a[..3 * i] + [px[4 * i], px[4 * i + 1], px[4 * i + 2]];
      i := i + 1;
    }
    assert a[..] == a[..3 * n];
    out := a[..];
  }

  method EnsureGrayOrRgb(im: Image) returns (r: Result<Image>)
    requires ImageShaped(im)
    ensures r == GrayOrRgb(im)
  {
    if im.c == 1 || im.c == 3 {
      return Ok(im);
    }
    if im.c == 4 {
      MulAssoc(im.w, im.h, 4);
      var px := DropAlpha(im.px, im.w * im.h);
      return Ok(Image(im.w, im.h, 3, px, Unknown));
    }
    r := Err(UnsupportedChannels);
  }
}
