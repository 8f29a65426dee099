/**
 * Image buffers (imageIO.h) and the raster addressing every per-pixel loop of the codec
 * uses: sample (x, y, ch) of a w x h image with c interleaved channels lives at
 * (y * w + x) * c + ch.
 */
module Raster {
  import opened MachineInts

  datatype ImageFormat = Unknown | PNG | JPG | BMP | TGA | PPM | PGM

  /** An 8-bit image. */
  datatype Image = Image(w: i32, h: i32, c: i32, px: seq<u8>, format: ImageFormat)

  /** A 16-bit image (colour-transformed planes). */
  datatype Image16 = Image16(w: i32, h: i32, c: i32, px: seq<i16>)

  /** Non-negative dimensions and a buffer of exactly w * h * c samples. */
  predicate Shaped(w: int, h: int, c: int, n: int)
  {
    w >= 0 && h >= 0 && c >= 0 && n == w * h * c
  }

  predicate InShape(w: int, h: int, c: int, x: int, y: int, ch: int)
  {
    0 <= x < w && 0 <= y < h && 0 <= ch < c
  }

  /** `std::clamp(v, lo, hi)`. */
  function Clamp(v: int, lo: int, hi: int): (r: int)
    requires lo <= hi
    ensures lo <= r <= hi
    ensures r == v <==> lo <= v <= hi
    ensures v < lo ==> r == lo
    ensures v > hi ==> r == hi
  {
    if v < lo then lo else if v > hi then hi else v
  }

  function Idx(w: int, c: int, x: int, y: int, ch: int): int
  {
    (y * w + x) * c + ch
  }

  lemma MulLess(a: int, b: int, m: int)
    requires 0 <= a < m && b > 0
    ensures a * b + b <= m * b
  {
    assert (m - a - 1) * b >= 0;
    assert (m - a - 1) * b == m * b - a * b - b;
  }

  lemma MulMono(a: int, b: int, m: int)
    requires 0 <= a <= b && m >= 0
    ensures 0 <= a * m <= b * m
  {
  }

  /** A sample inside the image has an index inside the buffer; its causal neighbours come before it. */
  lemma IdxBounds(w: int, h: int, c: int, x: int, y: int, ch: int)
    requires InShape(w, h, c, x, y, ch)
    ensures 0 <= Idx(w, c, x, y, ch) < w * h * c
    ensures Idx(w, c, x - 1, y, ch) == Idx(w, c, x, y, ch) - c
    ensures Idx(w, c, x, y - 1, ch) == Idx(w, c, x, y, ch) - w * c
    ensures Idx(w, c, x - 1, y - 1, ch) == Idx(w, c, x, y, ch) - w * c - c
    ensures w * c >= c > 0
  {
    MulMono(1, w, c);
    var p := y * w + x;
    assert 0 <= p < h * w by {
      MulLess(y, w, h);
    }
    assert 0 <= p * c;
    MulLess(p, c, h * w);
    assert h * w * c == w * h * c;
    assert (p - 1) * c == p * c - c;
    assert ((y - 1) * w + x) * c == p * c - w * c;
    assert ((y - 1) * w + x - 1) * c == p * c - w * c - c;
  }

  /** The sample after p in raster order: next channel, else next column, else next row. */
  function Next(w: int, c: int, p: (int, int, int)): (int, int, int)
  {
    if p.2 + 1 < c then (p.0, p.1, p.2 + 1)
    else if p.0 + 1 < w then (p.0 + 1, p.1, 0)
    else (0, p.1 + 1, 0)
  }

  /** The coordinates of the k-th sample of the row-major, channel-innermost traversal. */
  function Coords(w: int, c: int, k: int): (int, int, int)
    decreases k
  {
    if k <= 0 then (0, 0, 0) else Next(w, c, Coords(w, c, k - 1))
  }

  /** The next sample of the traversal has the next buffer index. */
  lemma NextIdx(w: int, h: int, c: int, x: int, y: int, ch: int)
    requires InShape(w, h, c, x, y, ch)
    ensures 0 <= Next(w, c, (x, y, ch)).0 < w && 0 <= Next(w, c, (x, y, ch)).2 < c
    ensures y <= Next(w, c, (x, y, ch)).1 <= y + 1
    ensures Idx(w, c, Next(w, c, (x, y, ch)).0, Next(w, c, (x, y, ch)).1, Next(w, c, (x, y, ch)).2) == Idx(w, c, x, y, ch) + 1
  {
    if ch + 1 >= c {
      assert (y * w + x + 1) * c == (y * w + x) * c + c;
      if x + 1 >= w {
        assert (y + 1) * w == y * w + x + 1;
      }
    }
  }

  lemma MulAssoc(a: int, b: int, c: int)
    ensures a * (b * c) == a * b * c
  {
  }

  lemma MulCancelLess(a: int, b: int, m: int)
    requires m > 0 && a * m < b * m
    ensures a < b
  {
  }

  /** Stepping from a sample whose successor index is still in the buffer stays inside the image. */
  lemma NextInShape(w: int, h: int, c: int, x: int, y: int, ch: int)
    requires InShape(w, h, c, x, y, ch) && Idx(w, c, x, y, ch) + 1 < w * h * c
    ensures InShape(w, h, c, Next(w, c, (x, y, ch)).0, Next(w, c, (x, y, ch)).1, Next(w, c, (x, y, ch)).2)
    ensures Idx(w, c, Next(w, c, (x, y, ch)).0, Next(w, c, (x, y, ch)).1, Next(w, c, (x, y, ch)).2) == Idx(w, c, x, y, ch) + 1
  {
    NextIdx(w, h, c, x, y, ch);
    var q := Next(w, c, (x, y, ch));
    var k := Idx(w, c, x, y, ch) + 1;
    var wc := w * c;
    MulAssoc(q.1, w, c);
    MulAssoc(h, w, c);
    assert (q.1 * w + q.0) * c == q.1 * w * c + q.0 * c;
    assert q.0 * c >= 0;
    assert q.1 * wc <= k;
    assert w * h * c == h * w * c;
    MulCancelLess(q.1, h, wc);
  }

  /** Every buffer index is the index of a sample inside the image. */
  lemma {:induction false} CoordsInShape(w: int, h: int, c: int, k: int)
    requires Shaped(w, h, c, w * h * c) && 0 <= k < w * h * c
    ensures InShape(w, h, c, Coords(w, c, k).0, Coords(w, c, k).1, Coords(w, c, k).2)
    ensures Idx(w, c, Coords(w, c, k).0, Coords(w, c, k).1, Coords(w, c, k).2) == k
    decreases k
  {
    assert w > 0 && h > 0 && c > 0;
    if k > 0 {
      CoordsInShape(w, h, c, k - 1);
      var p := Coords(w, c, k - 1);
      NextInShape(w, h, c, p.0, p.1, p.2);
    }
  }

  lemma DivModUnique(a: int, d: int, q: int, r: int)
    requires d > 0 && q >= 0 && 0 <= r < d && a == q * d + r
    ensures a / d == q && a % d == r
  {
    assert a < d * (q + 1);
    DivBelow(a, d, q + 1);
    DivAtLeast(a, d, q);
    assert a == d * (a / d) + a % d;
  }

  /** Two samples of the image with the same buffer index are the same sample. */
  lemma IdxInjective(w: int, h: int, c: int, x: int, y: int, ch: int, x': int, y': int, ch': int)
    requires InShape(w, h, c, x, y, ch) && InShape(w, h, c, x', y', ch')
    requires Idx(w, c, x, y, ch) == Idx(w, c, x', y', ch')
    ensures x == x' && y == y' && ch == ch'
  {
    assert y * w >= 0 && y' * w >= 0;
    DivModUnique(Idx(w, c, x, y, ch), c, y * w + x, ch);
    DivModUnique(Idx(w, c, x', y', ch'), c, y' * w + x', ch');
    DivModUnique(y * w + x, w, y, x);
    DivModUnique(y' * w + x', w, y', x');
  }

  /** Coords inverts Idx on the image. */
  lemma CoordsOfIdx(w: int, h: int, c: int, x: int, y: int, ch: int)
    requires InShape(w, h, c, x, y, ch)
    ensures Coords(w, c, Idx(w, c, x, y, ch)) == (x, y, ch)
  {
    var k := Idx(w, c, x, y, ch);
    IdxBounds(w, h, c, x, y, ch);
    CoordsInShape(w, h, c, k);
    var p := Coords(w, c, k);
    IdxInjective(w, h, c, x, y, ch, p.0, p.1, p.2);
  }

  /** The samples of row y form a block of the buffer. */
  lemma RowBounds(w: int, h: int, c: int, y: int)
    requires 0 <= y < h && w >= 0 && c >= 0
    ensures 0 <= Idx(w, c, 0, y, 0) && Idx(w, c, 0, y, 0) + w * c == Idx(w, c, 0, y + 1, 0) <= w * h * c
  {
    MulMono(y + 1, h, w);
    MulMono((y + 1) * w, h * w, c);
    MulMono(0, y * w, c);
    MulAssoc(h, w, c);
    assert h * w * c == w * h * c;
    assert ((y + 1) * w) * c == (y * w) * c + w * c;
  }

  /** The samples of pixel (x, y) form a block of the buffer. */
  lemma PixelBounds(w: int, h: int, c: int, x: int, y: int)
    requires 0 <= x < w && 0 <= y < h && c >= 0
    ensures 0 <= Idx(w, c, x, y, 0) && Idx(w, c, x, y, 0) + c == Idx(w, c, x + 1, y, 0) <= w * h * c
  {
    var p := y * w + x;
    assert 0 <= p < h * w by {
      MulLess(y, w, h);
    }
    MulMono(p + 1, h * w, c);
    MulMono(0, p, c);
    MulAssoc(h, w, c);
    assert h * w * c == w * h * c;
    assert (p + 1) * c == p * c + c;
  }

  /** How the flat index moves across the three loops of the traversal. */
  lemma IdxSteps(w: int, c: int, x: int, y: int)
    ensures Idx(w, c, x, y, c) == Idx(w, c, x + 1, y, 0)
    ensures Idx(w, c, w, y, 0) == Idx(w, c, 0, y + 1, 0)
    ensures Idx(w, c, 0, y, 0) == y * w * c == w * y * c
  {
    MulAssoc(y, w, c);
    assert (y * w + x) * c + c == (y * w + x + 1) * c;
    assert (y * w + w) * c == ((y + 1) * w + 0) * c;
  }

  /** A sample with the zero border: reads outside the image (or the buffer) give 0. */
  function Get(px: seq<int>, w: int, h: int, c: int, x: int, y: int, ch: int): (v: int)
    ensures !(0 <= x < w && 0 <= y < h) ==> v == 0
  {
    if x < 0 || y < 0 || x >= w || y >= h then 0
    else if 0 <= Idx(w, c, x, y, ch) < |px| then px[Idx(w, c, x, y, ch)]
    else 0
  }

  /** Inside a well-shaped image Get is the buffer entry. */
  lemma GetInside(px: seq<int>, w: int, h: int, c: int, x: int, y: int, ch: int)
    requires Shaped(w, h, c, |px|) && InShape(w, h, c, x, y, ch)
    ensures 0 <= Idx(w, c, x, y, ch) < |px|
    ensures Get(px, w, h, c, x, y, ch) == px[Idx(w, c, x, y, ch)]
  {
    IdxBounds(w, h, c, x, y, ch);
  }
}
