/**
 * The 'RANS' container file of the entropy back end (ansResidual.cpp, save_file and
 * load_file): a fixed header, the frequency table, three 64-bit sizes, the escape list and
 * the rANS byte stream, every field little-endian.  Files are byte sequences here.
 */
module Container {
  import opened MachineInts
  import opened Wrappers
  import opened AnsConfig
  import opened LittleEndian
  import opened StaticModel

  /** Everything one container file carries. */
  datatype Packed = Packed(
    mode: i32, w: i32, h: i32, c: i32,
    nSyms: u64,
    model: Model,
    ans: seq<u8>,
    escapes: seq<i16>)

  const HEADER_SIZE: nat := 36  // magic, mode, w, h, c, n_syms, L, alphabet size
  const COUNTS_SIZE: nat := 24  // escape count, escape byte count, rANS byte count

  /**
   * The sizes save_file stores fit their fields without truncation, and the escape list and
   * the stream are no longer than a vector can be.
   */
  predicate Saveable(p: Packed)
  {
    |p.model.freq| < TWO_32 && |p.escapes| <= VECTOR_MAX_2 && |p.ans| <= VECTOR_MAX_1
  }

  function Header(p: Packed): (r: seq<u8>)
    requires Saveable(p)
    ensures |r| == HEADER_SIZE
  {
    U32Bytes(FILE_MAGIC) + I32Bytes(p.mode) + I32Bytes(p.w) + I32Bytes(p.h) + I32Bytes(p.c)
      + U64Bytes(p.nSyms) + U32Bytes(p.model.L) + U32Bytes(|p.model.freq|)
  }

  function Counts(p: Packed): (r: seq<u8>)
    requires Saveable(p)
    ensures |r| == COUNTS_SIZE
  {
    U64Bytes(|p.escapes|) + U64Bytes(2 * |p.escapes|) + U64Bytes(|p.ans|)
  }

  /** The bytes save_file writes for `p`; cdf and lut_sym are not stored. */
  function SaveFile(p: Packed): (bs: seq<u8>)
    requires Saveable(p)
    ensures |bs| == HEADER_SIZE + 2 * |p.model.freq| + COUNTS_SIZE + 2 * |p.escapes| + |p.ans|
    ensures bs[..4] == [0x52, 0x41, 0x4E, 0x53]
  {
    Pow256Values();
    Header(p) + U16sBytes(p.model.freq) + Counts(p) + I16sBytes(p.escapes) + p.ans
  }

  function Min(a: int, b: int): int { if a <= b then a else b }

  /**
   * load_file over the file's bytes.  A short file is a ShortRead, except that the slot
   * table is rebuilt from whatever the frequency read left behind before the stream state
   * is checked, and that rebuild writes past lut_sym when the frequencies sum above L; an
   * escape read of a byte count that fits `std::streamsize` and exceeds the escape list
   * also writes past its buffer.  Both of those are OutOfBounds.  A size above its
   * vector's max_size() is AllocationFailure.  Bytes after the rANS stream are ignored.
   */
  function LoadFile(bs: seq<u8>): (r: Result<Packed>)
    ensures r.Ok? ==> r.value.model == Tables(r.value.model.L, r.value.model.freq)
    ensures r.Ok? ==> Sum(r.value.model.freq) <= r.value.model.L
    ensures r == Err(BadMagic) <==> |bs| < 4 || bs[..4] != [0x52, 0x41, 0x4E, 0x53]
  {
    Pow256Values();
    if |bs| < 4 then Err(BadMagic)
    else if (MagicBytes(bs); U32Of(bs[..4]) != FILE_MAGIC) then Err(BadMagic)
    else
      if |bs| < HEADER_SIZE then Err(ShortRead)
      else
        var L := U32Of(bs[28..32]);
        var freq := U16sOf(ReadPadded(bs, HEADER_SIZE, 2 * U32Of(bs[32..36])));
        if Sum(freq) > L then Err(OutOfBounds)
        else
          var head := Packed(I32Of(bs[4..8]), I32Of(bs[8..12]), I32Of(bs[12..16]), I32Of(bs[16..20]),
                             U64Of(bs[20..28]), Tables(L, freq), [], []);
          LoadBody(bs, HEADER_SIZE + 2 * |freq|, head)
  }

  /** A four-byte prefix is the magic exactly when its little-endian value is FILE_MAGIC. */
  lemma MagicBytes(bs: seq<u8>)
    requires |bs| >= 4
    ensures U32Of(bs[..4]) == FILE_MAGIC <==> bs[..4] == [0x52, 0x41, 0x4E, 0x53]
  {
    Pow256Values();
    var m: seq<u8> := [0x52, 0x41, 0x4E, 0x53];
    assert LeValue(m) == FILE_MAGIC;
    if U32Of(bs[..4]) == FILE_MAGIC {
      LeRoundTrip(FILE_MAGIC, 4);
      LeInjective(bs[..4], m);
    }
  }

  /**
   * The three sizes, the escape list and the rANS stream, starting at `at`.  The escape
   * vector is resized to esc_count before anything else is checked, and the stream vector
   * to ans_size after the escapes are read; either fails above its max_size().  A count
   * block cut short leaves the missing bytes zero, so only a complete esc_count can fail.
   * An esc_bytes above PTRDIFF_MAX is a negative `std::streamsize`: that read extracts
   * nothing and fails the stream, so it cannot overrun the escape buffer.
   */
  function LoadBody(bs: seq<u8>, at: nat, head: Packed): (r: Result<Packed>)
    ensures r.Ok? ==> r.value.model == head.model
    ensures r.Ok? ==> |r.value.escapes| <= VECTOR_MAX_2 && |r.value.ans| <= VECTOR_MAX_1
    ensures U64Of(ReadPadded(bs, at, 8)) > VECTOR_MAX_2 ==> r == Err(AllocationFailure)
  {
    Pow256Values();
    if U64Of(ReadPadded(bs, at, 8)) > VECTOR_MAX_2 then Err(AllocationFailure)
    else if |bs| < at + COUNTS_SIZE then Err(ShortRead)
    else
      LoadSized(bs, at + COUNTS_SIZE, U64Of(bs[at..at + 8]), U64Of(bs[at + 8..at + 16]),
                U64Of(bs[at + 16..at + 24]), head)
  }

  /** The escape list and the rANS stream at escAt, once their three sizes are known. */
  function LoadSized(bs: seq<u8>, escAt: nat, escCount: nat, escBytes: nat, ansSize: nat, head: Packed): (r: Result<Packed>)
    ensures r.Ok? ==> r.value.model == head.model
    ensures r.Ok? ==> |r.value.escapes| == escCount && |r.value.ans| == ansSize <= VECTOR_MAX_1
    ensures escBytes > VECTOR_MAX_1 && ansSize <= VECTOR_MAX_1 ==> r == Err(ShortRead)
  {
    if escBytes <= VECTOR_MAX_1 && Min(escBytes, |bs| - escAt) > 2 * escCount then Err(OutOfBounds)
    else if ansSize > VECTOR_MAX_1 then Err(AllocationFailure)
    else if escBytes > VECTOR_MAX_1 || |bs| < escAt + escBytes + ansSize then Err(ShortRead)
    else
      Ok(head.(escapes := ReadEscapes(bs, escAt, escCount, escBytes),
               ans := bs[escAt + escBytes..escAt + escBytes + ansSize]))
  }

  /** The escape list: the escBytes bytes stored at escAt, zero-padded to escCount values. */
  function ReadEscapes(bs: seq<u8>, escAt: nat, escCount: nat, escBytes: nat): (e: seq<i16>)
    requires escAt + escBytes <= |bs| && escBytes <= 2 * escCount
    ensures |e| == escCount
  {
    I16sOf(bs[escAt..escAt + escBytes] + Zeros(2 * escCount - escBytes))
  }

  /** Escapes stored without padding read back as themselves. */
  lemma ReadEscapesOf(bs: seq<u8>, escAt: nat, escapes: seq<i16>)
    requires escAt + 2 * |escapes| <= |bs| && bs[escAt..escAt + 2 * |escapes|] == I16sBytes(escapes)
    ensures ReadEscapes(bs, escAt, |escapes|, 2 * |escapes|) == escapes
  {
    assert bs[escAt..escAt + 2 * |escapes|] + Zeros(0) == I16sBytes(escapes);
    I16sRoundTrip(escapes);
  }

  /** Frequencies read byte by byte no larger than the stored ones sum to no more. */
  lemma {:induction false} U16sSumMonotone(a: seq<u8>, b: seq<u8>)
    requires |a| == |b| && |a| % 2 == 0 && forall i :: 0 <= i < |a| ==> b[i] <= a[i]
    ensures Sum(U16sOf(b)) <= Sum(U16sOf(a))
  {
    if a != [] {
      LeMonotone(a[..2], b[..2]);
      U16sSumMonotone(a[2..], b[2..]);
      assert U16sOf(a)[1..] == U16sOf(a[2..]);
      assert U16sOf(b)[1..] == U16sOf(b[2..]);
    }
  }

  // ---------- save then load ----------

  lemma HeaderFields(p: Packed)
    requires Saveable(p)
    ensures Header(p)[..4] == U32Bytes(FILE_MAGIC)
    ensures Header(p)[4..8] == I32Bytes(p.mode) && Header(p)[8..12] == I32Bytes(p.w)
    ensures Header(p)[12..16] == I32Bytes(p.h) && Header(p)[16..20] == I32Bytes(p.c)
    ensures Header(p)[20..28] == U64Bytes(p.nSyms)
    ensures Header(p)[28..32] == U32Bytes(p.model.L) && Header(p)[32..36] == U32Bytes(|p.model.freq|)
  {
  }

  lemma CountsFields(p: Packed)
    requires Saveable(p)
    ensures Counts(p)[..8] == U64Bytes(|p.escapes|)
    ensures Counts(p)[8..16] == U64Bytes(2 * |p.escapes|)
    ensures Counts(p)[16..24] == U64Bytes(|p.ans|)
  {
  }

  /** The three sizes, the escape list and the rANS stream as save_file lays them out at `at`. */
  lemma LoadBodyAt(bs: seq<u8>, at: nat, head: Packed, escapes: seq<i16>, ans: seq<u8>)
    requires at + COUNTS_SIZE + 2 * |escapes| + |ans| <= |bs|
    requires |escapes| <= VECTOR_MAX_2 && |ans| <= VECTOR_MAX_1
    requires |bs[at..at + 8]| == 8 && U64Of(bs[at..at + 8]) == |escapes|
    requires |bs[at + 8..at + 16]| == 8 && U64Of(bs[at + 8..at + 16]) == 2 * |escapes|
    requires |bs[at + 16..at + 24]| == 8 && U64Of(bs[at + 16..at + 24]) == |ans|
    requires bs[at + 24..at + 24 + 2 * |escapes|] == I16sBytes(escapes)
    requires bs[at + 24 + 2 * |escapes|..at + 24 + 2 * |escapes| + |ans|] == ans
    ensures LoadBody(bs, at, head) == Ok(head.(escapes := escapes, ans := ans))
  {
    assert ReadPadded(bs, at, 8) == bs[at..at + 8];
    ReadEscapesOf(bs, at + COUNTS_SIZE, escapes);
  }

  lemma Middle(a: seq<u8>, b: seq<u8>, c: seq<u8>)
    ensures (a + b + c)[|a|..|a| + |b|] == b
  {
  }

  /** The three sizes read back from Counts(p) wherever it sits in a file. */
  lemma CountsAt(pre: seq<u8>, p: Packed, rest: seq<u8>)
    requires Saveable(p)
    ensures var bs := pre + Counts(p) + rest;
            |bs| >= |pre| + COUNTS_SIZE &&
            U64Of(bs[|pre|..|pre| + 8]) == |p.escapes| &&
            U64Of(bs[|pre| + 8..|pre| + 16]) == 2 * |p.escapes| &&
            U64Of(bs[|pre| + 16..|pre| + 24]) == |p.ans|
  {
    var c := Counts(p);
    var bs := pre + c + rest;
    var at := |pre|;
    Middle(pre, c, rest);
    CountsFields(p);
    assert bs[at..at + 8] == c[..8];
    assert bs[at + 8..at + 16] == c[8..16];
    assert bs[at + 16..at + 24] == c[16..24];
    Pow256Values();
    U64RoundTrip(|p.escapes|);
    U64RoundTrip(2 * |p.escapes|);
    U64RoundTrip(|p.ans|);
  }

  /** The tail of a saved file loads back to the escape list and the rANS stream. */
  lemma LoadBodyRoundTrip(pre: seq<u8>, p: Packed, head: Packed)
    requires Saveable(p)
    ensures LoadBody(pre + Counts(p) + I16sBytes(p.escapes) + p.ans, |pre|, head)
         == Ok(head.(escapes := p.escapes, ans := p.ans))
  {
    var c := Counts(p);
    var e := I16sBytes(p.escapes);
    var bs := pre + c + e + p.ans;
    var at := |pre|;
    assert bs == pre + c + (e + p.ans);
    CountsAt(pre, p, e + p.ans);
    Middle(pre + c, e, p.ans);
    Middle(pre + c + e, p.ans, []);
    assert pre + c + e + p.ans + [] == bs;
    LoadBodyAt(bs, at, head, p.escapes, p.ans);
  }
  /** The header fields read back from a file that starts with Header(p). */
  lemma HeaderRoundTrip(bs: seq<u8>, p: Packed)
    requires Saveable(p) && |bs| >= HEADER_SIZE && bs[..HEADER_SIZE] == Header(p)
    ensures U32Of(bs[..4]) == FILE_MAGIC
    ensures I32Of(bs[4..8]) == p.mode && I32Of(bs[8..12]) == p.w
    ensures I32Of(bs[12..16]) == p.h && I32Of(bs[16..20]) == p.c
    ensures U64Of(bs[20..28]) == p.nSyms
    ensures U32Of(bs[28..32]) == p.model.L && U32Of(bs[32..36]) == |p.model.freq|
  {
    var h := Header(p);
    HeaderFields(p);
    assert bs[..4] == h[..4];
    assert bs[4..8] == h[4..8] && bs[8..12] == h[8..12];
    assert bs[12..16] == h[12..16] && bs[16..20] == h[16..20];
    assert bs[20..28] == h[20..28];
    assert bs[28..32] == h[28..32] && bs[32..36] == h[32..36];
    Pow256Values();
    U32RoundTrip(FILE_MAGIC);
    I32RoundTrip(p.mode);
    I32RoundTrip(p.w);
    I32RoundTrip(p.h);
    I32RoundTrip(p.c);
    U64RoundTrip(p.nSyms);
    U32RoundTrip(p.model.L);
    U32RoundTrip(|p.model.freq|);
  }

  /** load_file's header stage over a file whose fields hold p's values. */
  lemma LoadFileAt(bs: seq<u8>, p: Packed)
    requires |bs| >= HEADER_SIZE + 2 * |p.model.freq|
    requires U32Of(bs[..4]) == FILE_MAGIC
    requires I32Of(bs[4..8]) == p.mode && I32Of(bs[8..12]) == p.w
    requires I32Of(bs[12..16]) == p.h && I32Of(bs[16..20]) == p.c
    requires U64Of(bs[20..28]) == p.nSyms
    requires U32Of(bs[28..32]) == p.model.L && U32Of(bs[32..36]) == |p.model.freq|
    requires bs[HEADER_SIZE..HEADER_SIZE + 2 * |p.model.freq|] == U16sBytes(p.model.freq)
    requires Sum(p.model.freq) <= p.model.L && p.model == Tables(p.model.L, p.model.freq)
    requires LoadBody(bs, HEADER_SIZE + 2 * |p.model.freq|, p.(escapes := [], ans := [])) == Ok(p)
    ensures LoadFile(bs) == Ok(p)
  {
    U16sRoundTrip(p.model.freq);
    assert p.(escapes := [], ans := []) == Packed(p.mode, p.w, p.h, p.c, p.nSyms, p.model, [], []);
  }

  /** The layout of a saved file: header, frequency table, then the body at HEADER_SIZE + 2 |freq|. */
  lemma SavedLayout(p: Packed)
    requires Saveable(p)
    ensures SaveFile(p)[..HEADER_SIZE] == Header(p)
    ensures SaveFile(p)[HEADER_SIZE..HEADER_SIZE + 2 * |p.model.freq|] == U16sBytes(p.model.freq)
    ensures SaveFile(p) == (Header(p) + U16sBytes(p.model.freq)) + Counts(p) + I16sBytes(p.escapes) + p.ans
  {
    SplitFive(Header(p), U16sBytes(p.model.freq), Counts(p), I16sBytes(p.escapes), p.ans);
  }

  lemma SplitFive(a: seq<u8>, b: seq<u8>, c: seq<u8>, d: seq<u8>, e: seq<u8>)
    ensures (a + b + c + d + e)[..|a|] == a
    ensures (a + b + c + d + e)[|a|..|a| + |b|] == b
    ensures a + b + c + d + e == (a + b) + c + d + e
  {
  }

  /** The body of a saved file loads back to p's escape list and rANS stream. */
  lemma SavedBodyLoads(p: Packed)
    requires Saveable(p)
    ensures LoadBody(SaveFile(p), HEADER_SIZE + 2 * |p.model.freq|, p.(escapes := [], ans := [])) == Ok(p)
  {
    SavedLayout(p);
    var pre := Header(p) + U16sBytes(p.model.freq);
    var head := p.(escapes := [], ans := []);
    LoadBodyRoundTrip(pre, p, head);
    assert head.(escapes := p.escapes, ans := p.ans) == p;
  }

  /** load_file returns what save_file stored, when the stored model is one load_file rebuilds. */
  lemma SaveLoadRoundTrip(p: Packed)
    requires Saveable(p)
    requires Sum(p.model.freq) <= p.model.L
    requires p.model == Tables(p.model.L, p.model.freq)
    ensures LoadFile(SaveFile(p)) == Ok(p)
  {
    var bs := SaveFile(p);
    SavedLayout(p);
    HeaderRoundTrip(bs, p);
    SavedBodyLoads(p);
    LoadFileAt(bs, p);
  }

  // ---------- truncated files ----------

  /** The three sizes of a file laid out as save_file writes it, with the two tails after them. */
  lemma SavedCounts(pre: seq<u8>, p: Packed, d: seq<u8>, e: seq<u8>)
    requires Saveable(p)
    ensures var bs, at := pre + Counts(p) + d + e, |pre|;
            |bs| == at + COUNTS_SIZE + |d| + |e| &&
            U64Of(bs[at..at + 8]) == |p.escapes| &&
            U64Of(bs[at + 8..at + 16]) == 2 * |p.escapes| &&
            U64Of(bs[at + 16..at + 24]) == |p.ans|
  {
    assert pre + Counts(p) + d + e == pre + Counts(p) + (d + e);
    CountsAt(pre, p, d + e);
  }

  /** A body whose sizes are consistent, cut anywhere before its end, is a short read. */
  lemma CutBodyFails(bs: seq<u8>, at: nat, k: nat, head: Packed)
    requires at + COUNTS_SIZE <= |bs| && k < |bs|
    requires U64Of(bs[at..at + 8]) <= VECTOR_MAX_2
    requires U64Of(bs[at + 8..at + 16]) == 2 * U64Of(bs[at..at + 8])
    requires U64Of(bs[at + 16..at + 24]) <= VECTOR_MAX_1
    requires |bs| == at + COUNTS_SIZE + U64Of(bs[at + 8..at + 16]) + U64Of(bs[at + 16..at + 24])
    ensures LoadBody(bs[..k], at, head) == Err(ShortRead)
  {
    var t := bs[..k];
    ReadPaddedOfPrefix(bs, k, at, 8);
    LeMonotone(bs[at..at + 8], ReadPadded(t, at, 8));
    Pow256Values();
    assert U64Of(ReadPadded(t, at, 8)) <= U64Of(bs[at..at + 8]);
    if k >= at + COUNTS_SIZE {
      assert t[at..at + 8] == bs[at..at + 8];
      assert t[at + 8..at + 16] == bs[at + 8..at + 16];
      assert t[at + 16..at + 24] == bs[at + 16..at + 24];
    }
  }

  /**
   * The shape load_file expects of a whole file: the magic, a table of n = 2 * ALPH bytes
   * whose frequencies sum to at most L, then consistent sizes whose escapes and stream end
   * the file.
   */
  predicate WellFormedFile(bs: seq<u8>, n: nat)
  {
    var at := HEADER_SIZE + n;
    at + COUNTS_SIZE <= |bs| && n % 2 == 0 && bs[..4] == [0x52, 0x41, 0x4E, 0x53] &&
    2 * U32Of(bs[32..36]) == n && Sum(U16sOf(bs[HEADER_SIZE..at])) <= U32Of(bs[28..32]) &&
    U64Of(bs[at..at + 8]) <= VECTOR_MAX_2 &&
    U64Of(bs[at + 8..at + 16]) == 2 * U64Of(bs[at..at + 8]) &&
    U64Of(bs[at + 16..at + 24]) <= VECTOR_MAX_1 &&
    |bs| == at + COUNTS_SIZE + U64Of(bs[at + 8..at + 16]) + U64Of(bs[at + 16..at + 24])
  }

  /** Every file save_file writes for a model whose frequencies sum to at most L has that shape. */
  lemma SavedWellFormed(p: Packed)
    requires Saveable(p) && Sum(p.model.freq) <= p.model.L
    ensures WellFormedFile(SaveFile(p), 2 * |p.model.freq|)
  {
    var bs := SaveFile(p);
    SavedLayout(p);
    HeaderRoundTrip(bs, p);
    SavedTable(p, bs);
    SavedCounts(Header(p) + U16sBytes(p.model.freq), p, I16sBytes(p.escapes), p.ans);
  }

  /** A well-formed file cut after its fixed header but before its end is a short read. */
  lemma CutFileFails(bs: seq<u8>, n: nat, k: nat)
    requires WellFormedFile(bs, n) && HEADER_SIZE <= k < |bs|
    ensures LoadFile(bs[..k]) == Err(ShortRead)
  {
    CutHeader(bs, k, n);
    var head := HeaderPasses(bs[..k]);
    CutBodyFails(bs, HEADER_SIZE + n, k, head);
  }

  /**
   * load_file of a saved file cut short: BadMagic when not even the magic is left, and a
   * ShortRead for every other proper prefix.  A cut frequency table is zero-padded, so it
   * still sums to at most L; a cut escape count is at most the stored one.
   */
  lemma TruncatedFails(p: Packed, k: nat)
    requires Saveable(p) && Sum(p.model.freq) <= p.model.L && k < |SaveFile(p)|
    ensures LoadFile(SaveFile(p)[..k]) == if k < 4 then Err(BadMagic) else Err(ShortRead)
  {
    var bs := SaveFile(p);
    var t := bs[..k];
    if k >= HEADER_SIZE {
      SavedWellFormed(p);
      CutFileFails(bs, 2 * |p.model.freq|, k);
    } else if k >= 4 {
      assert t[..4] == bs[..4];
      ShortHeaderFails(t);
    }
  }

  /**
   * A file with the magic, whose frequency read sums to at most L, is decided by its body:
   * `head` is the container the header fields describe.
   */
  lemma HeaderPasses(t: seq<u8>) returns (head: Packed)
    requires |t| >= HEADER_SIZE && t[..4] == [0x52, 0x41, 0x4E, 0x53]
    requires Sum(U16sOf(ReadPadded(t, HEADER_SIZE, 2 * U32Of(t[32..36])))) <= U32Of(t[28..32])
    ensures LoadFile(t) == LoadBody(t, HEADER_SIZE + 2 * U32Of(t[32..36]), head)
  {
    MagicBytes(t);
    var n: nat := U32Of(t[32..36]);
    var freq := U16sOf(ReadPadded(t, HEADER_SIZE, 2 * n));
    assert |freq| == n;
    head := Packed(I32Of(t[4..8]), I32Of(t[8..12]), I32Of(t[12..16]), I32Of(t[16..20]),
                   U64Of(t[20..28]), Tables(U32Of(t[28..32]), freq), [], []);
  }

  /** A file holding the magic but not the whole fixed header is a short read. */
  lemma ShortHeaderFails(t: seq<u8>)
    requires 4 <= |t| < HEADER_SIZE && t[..4] == [0x52, 0x41, 0x4E, 0x53]
    ensures LoadFile(t) == Err(ShortRead)
  {
    MagicBytes(t);
  }

  /** A frequency table laid out as save_file writes it, as the loader reads it. */
  lemma SavedTable(p: Packed, bs: seq<u8>)
    requires HEADER_SIZE + 2 * |p.model.freq| <= |bs|
    requires bs[HEADER_SIZE..HEADER_SIZE + 2 * |p.model.freq|] == U16sBytes(p.model.freq)
    ensures U16sOf(bs[HEADER_SIZE..HEADER_SIZE + 2 * |p.model.freq|]) == p.model.freq
  {
    U16sRoundTrip(p.model.freq);
  }

  /** A file cut after its header: magic, L and ALPH intact, the frequency read no larger. */
  lemma CutHeader(bs: seq<u8>, k: nat, n: nat)
    requires HEADER_SIZE <= k <= |bs| && HEADER_SIZE + n <= |bs| && n % 2 == 0
    ensures var t := bs[..k];
            t[..4] == bs[..4] && t[28..32] == bs[28..32] && t[32..36] == bs[32..36] &&
            Sum(U16sOf(ReadPadded(t, HEADER_SIZE, n))) <= Sum(U16sOf(bs[HEADER_SIZE..HEADER_SIZE + n]))
  {
    var t := bs[..k];
    ReadPaddedOfPrefix(bs, k, HEADER_SIZE, n);
    U16sSumMonotone(bs[HEADER_SIZE..HEADER_SIZE + n], ReadPadded(t, HEADER_SIZE, n));
  }

  /**
   * An escape byte count above PTRDIFF_MAX reads nothing: whatever follows the sizes, the
   * body is a short read (or fails to allocate the stream), never an overrun.
   */
  lemma NegativeEscapeReadFails(bs: seq<u8>, at: nat, head: Packed)
    requires |bs| >= at + COUNTS_SIZE && U64Of(bs[at..at + 8]) <= VECTOR_MAX_2
    requires U64Of(bs[at + 8..at + 16]) > VECTOR_MAX_1
    ensures LoadBody(bs, at, head) == if U64Of(bs[at + 16..at + 24]) > VECTOR_MAX_1 then Err(AllocationFailure) else Err(ShortRead)
  {
    assert ReadPadded(bs, at, 8) == bs[at..at + 8];
  }
}
