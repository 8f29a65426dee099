/**
 * The public entry points of the entropy back end (ansResidual.cpp, compress_to_file and
 * decompress_file): symbolize, build the model, encode, then pack into a container; and
 * the reverse.  The file is a byte sequence here rather than a path.
 */
module AnsPipeline {
  import opened MachineInts
  import opened Wrappers
  import opened AnsConfig
  import opened StaticModel
  import opened Symbolizer
  import opened Rans32
  import opened Rans32Fixed
  import opened Container

  /** The sizes compress_to_file reports. */
  datatype Encoded = Encoded(escapes: nat, nSyms: nat, ansBytes: nat)

  /** A residual count for which the encoder's largest possible output still fits a byte vector. */
  predicate Storable(rs: seq<i16>)
  {
    4 + 2 * |rs| <= VECTOR_MAX_1
  }

  /** The container compress_to_file saves. */
  function Pack(rs: seq<i16>, mode: i32, w: i32, h: i32, c: i32): (p: Packed)
    requires Storable(rs)
    ensures Saveable(p) && p.model == OnesModel()
    ensures p.nSyms == |rs| && p.escapes == Symbolize(rs).esc
    ensures p.ans == EncodeSpec(Symbolize(rs).syms, OnesModel())
  {
    var S := Symbolize(rs);
    OnesModelUsable(S.syms);
    EncodeLength(S.syms, OnesModel());
    CountEscBound(S.syms);
    Packed(mode, w, h, c, |rs|, OnesModel(), EncodeSpec(S.syms, OnesModel()), S.esc)
  }

  /** What compress_to_file writes and returns. */
  function CompressSpec(rs: seq<i16>, mode: i32, w: i32, h: i32, c: i32): (r: (seq<u8>, Encoded))
    requires Storable(rs)
  {
    var p := Pack(rs, mode, w, h, c);
    (SaveFile(p), Encoded(|p.escapes|, p.nSyms, |p.ans|))
  }

  /**
   * compress_to_file.  The report counts every residual as a symbol and every residual
   * outside (-2048, 2048) as an escape; the file is the fixed parts, a 4096-entry table,
   * two bytes per escape and the rANS stream.
   */
  method CompressToFile(rs: seq<i16>, mode: i32, w: i32, h: i32, c: i32) returns (file: seq<u8>, info: Encoded)
    requires Storable(rs)
    ensures (file, info) == CompressSpec(rs, mode, w, h, c)
    ensures info.nSyms == |rs|
    ensures info.escapes == CountEsc(Symbolize(rs).syms)
    ensures 4 <= info.ansBytes <= 4 + 2 * |rs|
    ensures |file| == HEADER_SIZE + 2 * ALPHABET + COUNTS_SIZE + 2 * info.escapes + info.ansBytes
  {
    var S := SymbolizeResiduals(rs);
    var m := BuildModel(S.syms);
    OnesModelUsable(S.syms);
    var ans := Encode(S.syms, m);
    var p := Pack(rs, mode, w, h, c);
    assert p == Packed(mode, w, h, c, |S.syms|, m, ans, S.esc);
    EncodeLength(S.syms, OnesModel());
    file := SaveFile(p);
    info := Encoded(|p.escapes|, p.nSyms, |p.ans|);
  }

  /**
   * rans32::decode on stored tables: the output vector of n_syms entries is allocated
   * first, which fails above max_size(); then the stream is decoded, with each step's
   * table reads checked where the source does not check them.
   */
  function DecodeStored(p: Packed): (r: Result<seq<u16>>)
    ensures r == Err(AllocationFailure) <==> p.nSyms > VECTOR_MAX_2
    ensures p.nSyms <= VECTOR_MAX_2 ==> r == DecodeSpec(p.ans, p.nSyms, p.model)
    ensures r.Ok? ==> |r.value| == p.nSyms
  {
    if p.nSyms > VECTOR_MAX_2 then Err(AllocationFailure)
    else DecodeSpec(p.ans, p.nSyms, p.model)
  }

  /**
   * unsymbolize_residuals after a successful decode; an escape symbol beyond the end of
   * the escape list is an out-of-range read in the source.
   */
  function Restore(decoded: Result<seq<u16>>, escapes: seq<i16>): (r: Result<seq<i16>>)
    ensures decoded.Err? ==> r == Err(decoded.error)
    ensures decoded.Ok? ==> (r.Ok? <==> CountEsc(decoded.value) <= |escapes|)
    ensures r.Ok? ==> |r.value| == |decoded.value|
  {
    match decoded
    case Err(e) => Err(e)
    case Ok(syms) =>
      if CountEsc(syms) > |escapes| then Err(OutOfBounds) else Ok(Unsymbolize(syms, escapes))
  }

  /** What decompress_file returns for a file. */
  function DecompressSpec(bs: seq<u8>): (r: Result<seq<i16>>)
    ensures LoadFile(bs).Err? ==> r == Err(LoadFile(bs).error)
    ensures r.Ok? ==> |r.value| == LoadFile(bs).value.nSyms
  {
    match LoadFile(bs)
    case Err(e) => Err(e)
    case Ok(p) => Restore(DecodeStored(p), p.escapes)
  }

  /** decompress_file: load the container, decode nSyms symbols, map them back to residuals. */
  method DecompressFile(bs: seq<u8>) returns (r: Result<seq<i16>>)
    ensures r == DecompressSpec(bs)
  {
    var loaded := LoadFile(bs);
    if loaded.Err? {
      return Err(loaded.error);
    }
    var p := loaded.value;
    if p.nSyms > VECTOR_MAX_2 {
      return Err(AllocationFailure);
    }
    var decoded := Decode(p.ans, p.nSyms, p.model);
    if decoded.Err? {
      return Err(decoded.error);
    }
    if CountEsc(decoded.value) > |p.escapes| {
      return Err(OutOfBounds);
    }
    var out := UnsymbolizeResiduals(decoded.value, p.escapes);
    r := Ok(out);
  }

  // ---------------------------------------------------------------------------
  // The container is transparent
  // ---------------------------------------------------------------------------

  /** Loading a file compress_to_file wrote gives back the container it packed. */
  lemma LoadCompressed(rs: seq<i16>, mode: i32, w: i32, h: i32, c: i32)
    requires Storable(rs)
    ensures LoadFile(CompressSpec(rs, mode, w, h, c).0) == Ok(Pack(rs, mode, w, h, c))
  {
    SumOnes(ALPHABET);
    SaveLoadRoundTrip(Pack(rs, mode, w, h, c));
  }

  /**
   * The as-written pipeline is the rANS codec between symbolize and unsymbolize: the file
   * decodes to whatever rans32::decode makes of the encoder's own output.
   */
  lemma PipelineIsCodec(rs: seq<i16>, mode: i32, w: i32, h: i32, c: i32)
    requires Storable(rs)
    ensures Encodable(Symbolize(rs).syms, OnesModel()) && Decodable(OnesModel())
    ensures DecompressSpec(CompressSpec(rs, mode, w, h, c).0)
         == Restore(DecodeSpec(EncodeSpec(Symbolize(rs).syms, OnesModel()), |rs|, OnesModel()), Symbolize(rs).esc)
  {
    LoadCompressed(rs, mode, w, h, c);
    OnesModelUsable(Symbolize(rs).syms);
  }

  /** Without escapes to restore, an empty residual list survives the as-written pipeline. */
  lemma EmptyPipelineRoundTrip(mode: i32, w: i32, h: i32, c: i32)
    ensures DecompressSpec(CompressSpec([], mode, w, h, c).0) == Ok([])
  {
    PipelineIsCodec([], mode, w, h, c);
    EmptyRoundTrip(OnesModel());
  }

  /**
   * The as-written pipeline loses a single zero residual: the file decodes to a rANS
   * underflow instead of [0].
   */
  lemma AsWrittenPipelineLosesResidual()
    ensures DecompressSpec(CompressSpec([0], 0, 1, 1, 1).0) == Err(Underflow)
  {
    PipelineIsCodec([0], 0, 1, 1, 1);
    SymbolizeZero();
    AsWrittenLosesSymbol();
  }

  lemma SymbolizeZero()
    ensures Symbolize([0]).syms == [0]
  {
    var syms := Symbolize([0]).syms;
    assert |syms| == 1 && SymbolOf(0) == 0;
  }

  /**
   * Stored tables that cover only part of the slot range still decode while every slot the
   * decoder visits is covered: L = 2048 with the one frequency 2048 and the stream
   * 10 00 00 00 give the state 2^28, slot 0, symbol 0 and the state 2^27, with no refill.
   */
  lemma ShortTableDecodes()
    ensures DecodeStored(Packed(0, 1, 1, 1, 1, Tables(2048, [2048]), [0x10, 0, 0, 0], [])) == Ok([0])
  {
    var m := Tables(2048, [2048]);
    assert m.lut[0] == 0 by {
      assert Sum([2048]) == 2048;
      assert Owner([2048], 0) == 0;
    }
    assert m.cdf[0] == 0 by {
      assert [2048 as int][..0] == [];
    }
    assert ReadState([0x10, 0, 0, 0]) == Ok((0x1000_0000, []));
    assert SlotInRange(0x1000_0000, m) && DecStep(0x1000_0000, m) == (0, 0x800_0000);
    assert Refill([], 0x800_0000) == Ok((0x800_0000, []));
    assert DecodeLoop([], 0x800_0000, 0, m) == Ok(Decoded([], [], 0x800_0000));
    DecodeLoopStep([], 0x1000_0000, 1, m);
    assert Refill([], DecStep(0x1000_0000, m).1).Ok?;
    assert DecodeLoop([], 0x1000_0000, 1, m) == PrependSyms([0], DecodeLoop([], 0x800_0000, 0, m));
    var none: seq<u16> := [];
    assert [0 as u16] + none == [0];
    assert DecodeLoop([], 0x1000_0000, 1, m) == Ok(Decoded([0], [], 0x800_0000));
  }

  /** The file save_file writes for those tables decompresses to the single residual 0. */
  lemma ShortTableFileDecompresses()
    ensures DecompressSpec(SaveFile(Packed(0, 1, 1, 1, 1, Tables(2048, [2048]), [0x10, 0, 0, 0], []))) == Ok([0])
  {
    var p := Packed(0, 1, 1, 1, 1, Tables(2048, [2048]), [0x10, 0, 0, 0], []);
    assert Sum([2048]) == 2048;
    SaveLoadRoundTrip(p);
    ShortTableDecodes();
    assert CountEsc([0]) == 0;
    assert Unsymbolize([0], []) == [0] by {
      assert [0 as u16][1..] == [];
    }
  }

  // ---------------------------------------------------------------------------
  // The pipeline over the corrected codec
  // ---------------------------------------------------------------------------

  /** The container packed with the corrected encoder. */
  function FixedPack(rs: seq<i16>, mode: i32, w: i32, h: i32, c: i32): (p: Packed)
    requires Storable(rs)
    ensures Saveable(p) && p.model == OnesModel()
    ensures p.nSyms == |rs| && p.escapes == Symbolize(rs).esc
    ensures ValidTables(OnesModel()) && FixedEncodable(Symbolize(rs).syms, OnesModel())
    ensures p.ans == FixedEncode(Symbolize(rs).syms, OnesModel())
  {
    var S := Symbolize(rs);
    FixedOnesUsable(S.syms);
    FixedEncodeLength(S.syms, OnesModel());
    CountEscBound(S.syms);
    Packed(mode, w, h, c, |rs|, OnesModel(), FixedEncode(S.syms, OnesModel()), S.esc)
  }

  function FixedCompressSpec(rs: seq<i16>, mode: i32, w: i32, h: i32, c: i32): (r: (seq<u8>, Encoded))
    requires Storable(rs)
    ensures r.1.nSyms == |rs| && r.1.escapes == CountEsc(Symbolize(rs).syms)
  {
    var p := FixedPack(rs, mode, w, h, c);
    (SaveFile(p), Encoded(|p.escapes|, p.nSyms, |p.ans|))
  }

  /** The corrected decoder on stored tables, with the same allocation and table checks. */
  function FixedDecodeStored(p: Packed): (r: Result<seq<u16>>)
    ensures r == Err(AllocationFailure) <==> p.nSyms > VECTOR_MAX_2
  {
    if p.nSyms > VECTOR_MAX_2 then Err(AllocationFailure)
    else FixedDecode(p.ans, p.nSyms, p.model)
  }

  function FixedDecompressSpec(bs: seq<u8>): (r: Result<seq<i16>>)
    ensures LoadFile(bs).Err? ==> r == Err(LoadFile(bs).error)
  {
    match LoadFile(bs)
    case Err(e) => Err(e)
    case Ok(p) => Restore(FixedDecodeStored(p), p.escapes)
  }

  /** With the corrected codec, decompressing a compressed file gives back every residual. */
  lemma FixedPipelineRoundTrip(rs: seq<i16>, mode: i32, w: i32, h: i32, c: i32)
    requires Storable(rs)
    ensures FixedDecompressSpec(FixedCompressSpec(rs, mode, w, h, c).0) == Ok(rs)
  {
    var p := FixedPack(rs, mode, w, h, c);
    SumOnes(ALPHABET);
    SaveLoadRoundTrip(p);
    assert LoadFile(FixedCompressSpec(rs, mode, w, h, c).0) == Ok(p);
    FixedStoredRoundTrip(rs, mode, w, h, c);
    SymbolizeRoundTrip(rs);
  }

  /** The corrected decoder gives back the symbols of the packed residuals. */
  lemma FixedStoredRoundTrip(rs: seq<i16>, mode: i32, w: i32, h: i32, c: i32)
    requires Storable(rs)
    ensures FixedDecodeStored(FixedPack(rs, mode, w, h, c)) == Ok(Symbolize(rs).syms)
  {
    FixedRoundTripOnes(Symbolize(rs).syms);
  }
}
