/**
 * The raw residual file of residualIO.cpp: magic, mode, width, height, channels (32 bits
 * each), a 64-bit residual count and the int16 residuals, every field little-endian.
 * Files are byte sequences here.
 */
module ResidualIO {
  import opened MachineInts
  import opened Wrappers
  import opened LittleEndian

  /** The bytes 'R' '6' '1' 'R' read as a little-endian uint32. */
  const RESIDUAL_MAGIC: u32 := 0x52313652
  const MAGIC_BYTES: seq<u8> := [0x52, 0x36, 0x31, 0x52]
  const RESIDUAL_HEADER_SIZE: nat := 28  // magic, mode, w, h, c, count

  /** What load_residuals returns (mode 0: 8-bit RGB residuals, 1: RCT residuals). */
  datatype ResidualFile = ResidualFile(mode: i32, w: i32, h: i32, c: i32, residuals: seq<i16>)

  /** A residual vector is no longer than max_size(), so its count also fits the signed 64-bit field. */
  predicate Saveable(residuals: seq<i16>)
  {
    |residuals| <= VECTOR_MAX_2
  }

  function Header(mode: i32, w: i32, h: i32, c: i32, count: u64): (r: seq<u8>)
    ensures |r| == RESIDUAL_HEADER_SIZE
  {
    U32Bytes(RESIDUAL_MAGIC) + I32Bytes(mode) + I32Bytes(w) + I32Bytes(h) + I32Bytes(c) + U64Bytes(count)
  }

  /** The bytes save_residuals writes; nothing is validated. */
  function SaveResiduals(mode: i32, w: i32, h: i32, c: i32, residuals: seq<i16>): (bs: seq<u8>)
    requires Saveable(residuals)
    ensures |bs| == RESIDUAL_HEADER_SIZE + 2 * |residuals|
    ensures bs[..4] == MAGIC_BYTES
  {
    Pow256Values();
    Header(mode, w, h, c, |residuals|) + I16sBytes(residuals)
  }

  /**
   * load_residuals over the file's bytes.  A header cut short leaves the zero-initialised
   * fields partly read (so the metadata check sees zeros); the dimensions must be positive;
   * a count that is negative or above max_size() cannot be allocated; a file shorter than
   * the count says is a ShortRead.
   * The count is not compared with w * h * c, and bytes after the residuals are ignored.
   */
  function LoadResiduals(bs: seq<u8>): (r: Result<ResidualFile>)
    ensures r == Err(BadMagic) <==> |bs| < 4 || bs[..4] != MAGIC_BYTES
    ensures r.Ok? ==> r.value.w > 0 && r.value.h > 0 && r.value.c > 0
    ensures r.Ok? ==> RESIDUAL_HEADER_SIZE + 2 * |r.value.residuals| <= |bs|
    ensures r.Ok? ==> Saveable(r.value.residuals)
  {
    Pow256Values();
    if |bs| < 4 then Err(BadMagic)
    else if (MagicValue(bs); U32Of(bs[..4]) != RESIDUAL_MAGIC) then Err(BadMagic)
    else
      var mode := I32Of(ReadPadded(bs, 4, 4));
      var w := I32Of(ReadPadded(bs, 8, 4));
      var h := I32Of(ReadPadded(bs, 12, 4));
      var c := I32Of(ReadPadded(bs, 16, 4));
      var count := U64Of(ReadPadded(bs, 20, 8));
      if w <= 0 || h <= 0 || c <= 0 then Err(InvalidMetadata)
      else if count > VECTOR_MAX_2 then Err(AllocationFailure)
      else if |bs| < RESIDUAL_HEADER_SIZE + 2 * count then Err(ShortRead)
      else Ok(ResidualFile(mode, w, h, c, I16sOf(bs[RESIDUAL_HEADER_SIZE..RESIDUAL_HEADER_SIZE + 2 * count])))
  }

  /** A four-byte prefix is the magic exactly when its little-endian value is RESIDUAL_MAGIC. */
  lemma MagicValue(bs: seq<u8>)
    requires |bs| >= 4
    ensures U32Of(bs[..4]) == RESIDUAL_MAGIC <==> bs[..4] == MAGIC_BYTES
  {
    Pow256Values();
    assert LeValue(MAGIC_BYTES) == RESIDUAL_MAGIC;
    if U32Of(bs[..4]) == RESIDUAL_MAGIC {
      LeInjective(bs[..4], MAGIC_BYTES);
    }
  }

  lemma HeaderFields(mode: i32, w: i32, h: i32, c: i32, count: u64)
    ensures Header(mode, w, h, c, count)[4..8] == I32Bytes(mode)
    ensures Header(mode, w, h, c, count)[8..12] == I32Bytes(w)
    ensures Header(mode, w, h, c, count)[12..16] == I32Bytes(h)
    ensures Header(mode, w, h, c, count)[16..20] == I32Bytes(c)
    ensures Header(mode, w, h, c, count)[20..28] == U64Bytes(count)
  {
  }

  lemma SliceOfPrefix(a: seq<u8>, b: seq<u8>, i: int, j: int)
    requires 0 <= i <= j <= |a|
    ensures (a + b)[i..j] == a[i..j]
  {
  }

  /** The fields of a saved file, at their offsets. */
  lemma SavedFields(mode: i32, w: i32, h: i32, c: i32, residuals: seq<i16>)
    requires Saveable(residuals)
    ensures ReadPadded(SaveResiduals(mode, w, h, c, residuals), 4, 4) == I32Bytes(mode)
    ensures ReadPadded(SaveResiduals(mode, w, h, c, residuals), 8, 4) == I32Bytes(w)
    ensures ReadPadded(SaveResiduals(mode, w, h, c, residuals), 12, 4) == I32Bytes(h)
    ensures ReadPadded(SaveResiduals(mode, w, h, c, residuals), 16, 4) == I32Bytes(c)
    ensures ReadPadded(SaveResiduals(mode, w, h, c, residuals), 20, 8) == U64Bytes(|residuals|)
    ensures SaveResiduals(mode, w, h, c, residuals)[RESIDUAL_HEADER_SIZE..] == I16sBytes(residuals)
  {
    Pow256Values();
    var hd := Header(mode, w, h, c, |residuals|);
    var bs := SaveResiduals(mode, w, h, c, residuals);
    HeaderFields(mode, w, h, c, |residuals|);
    var body := I16sBytes(residuals);
    assert bs == hd + body;
    SliceOfPrefix(hd, body, 4, 8);
    SliceOfPrefix(hd, body, 8, 12);
    SliceOfPrefix(hd, body, 12, 16);
    SliceOfPrefix(hd, body, 16, 20);
    SliceOfPrefix(hd, body, 20, 28);
  }

  /** load_residuals returns what save_residuals stored, whenever the dimensions are positive. */
  lemma SaveLoadRoundTrip(mode: i32, w: i32, h: i32, c: i32, residuals: seq<i16>)
    requires Saveable(residuals) && w > 0 && h > 0 && c > 0
    ensures LoadResiduals(SaveResiduals(mode, w, h, c, residuals)) == Ok(ResidualFile(mode, w, h, c, residuals))
  {
    var bs := SaveResiduals(mode, w, h, c, residuals);
    SavedFields(mode, w, h, c, residuals);
    Pow256Values();
    MagicValue(bs);
    I32RoundTrip(mode);
    I32RoundTrip(w);
    I32RoundTrip(h);
    I32RoundTrip(c);
    U64RoundTrip(|residuals|);
    I16sRoundTrip(residuals);
    assert bs[RESIDUAL_HEADER_SIZE..RESIDUAL_HEADER_SIZE + 2 * |residuals|] == bs[RESIDUAL_HEADER_SIZE..];
  }

  /** Every proper prefix of a saved file fails to load: a short read of a field or of the payload. */
  lemma TruncatedFails(mode: i32, w: i32, h: i32, c: i32, residuals: seq<i16>, k: nat)
    requires Saveable(residuals) && k < RESIDUAL_HEADER_SIZE + 2 * |residuals|
    ensures LoadResiduals(SaveResiduals(mode, w, h, c, residuals)[..k]).Err?
  {
    var bs := SaveResiduals(mode, w, h, c, residuals);
    var cut := bs[..k];
    if LoadResiduals(cut).Ok? {
      assert k >= RESIDUAL_HEADER_SIZE;
      SavedFields(mode, w, h, c, residuals);
      assert ReadPadded(cut, 20, 8) == ReadPadded(bs, 20, 8);
      Pow256Values();
      U64RoundTrip(|residuals|);
      assert false;
    }
  }

  /** save_residuals accepts a non-positive dimension that load_residuals then rejects. */
  lemma SaveLoadRejectsNonPositive(mode: i32, w: i32, h: i32, c: i32, residuals: seq<i16>)
    requires Saveable(residuals) && (w <= 0 || h <= 0 || c <= 0)
    ensures LoadResiduals(SaveResiduals(mode, w, h, c, residuals)) == Err(InvalidMetadata)
  {
    var bs := SaveResiduals(mode, w, h, c, residuals);
    SavedFields(mode, w, h, c, residuals);
    Pow256Values();
    MagicValue(bs);
    I32RoundTrip(w);
    I32RoundTrip(h);
    I32RoundTrip(c);
  }

  /** The loader takes a residual count that differs from w * h * c: a 1 x 1 x 1 file with no residuals. */
  lemma LoadAcceptsShortVector()
    ensures LoadResiduals(SaveResiduals(0, 1, 1, 1, [])).Ok?
    ensures |LoadResiduals(SaveResiduals(0, 1, 1, 1, [])).value.residuals| < 1 * 1 * 1
  {
    SaveLoadRoundTrip(0, 1, 1, 1, []);
  }
}
