/**
 * The byte-wise rANS32 coder exactly as written (ansResidual.cpp, lines 107-170): the
 * encoder walks the symbols backwards and pushes bytes, the decoder walks forwards and pops
 * them from the tail.
 */
module Rans32 {
  import opened MachineInts
  import opened Wrappers
  import opened AnsConfig
  import opened LittleEndian
  import opened StaticModel

  const STATE_INIT: int := 0x1_0000   // `1u << 16`, the encoder's first state
  const REFILL_BELOW: int := 0x1_0000 // the decoder refills while x < 1u << 16
  const SCALE: int := 0x10_0000       // 1 << (32 - PREC)

  /** `f << (32 - PREC)` in uint32 arithmetic; it wraps to 0 when f == 4096. */
  function RenormBound(f: u16): (b: u32)
    ensures 1 <= f < RANS_L ==> b == f * SCALE && b > 0
    ensures f == RANS_L ==> b == 0
  {
    ToU32(f * SCALE)
  }

  /**
   * The encoder's renormalisation loop `while (x >= bound) { put(x & 0xFF); x >>= 8; }`:
   * the state it leaves and the bytes it pushes. No information is lost: the bytes are the
   * low digits of x and the new state the rest.
   */
  function Renorm(x: u32, bound: u32): (r: (u32, seq<u8>))
    requires bound > 0
    ensures r.0 < bound && r.0 <= x
    decreases x
  {
    if x < bound then (x, [])
    else
      var (y, bs) := Renorm(x / 256, bound);
      (y, [x % 256] + bs)
  }

  /** Renormalisation loses nothing: the pushed bytes are the low digits of x, the state the rest. */
  lemma {:induction false} RenormLossless(x: u32, bound: u32)
    requires bound > 0
    ensures x == LeValue(Renorm(x, bound).1) + Pow256(|Renorm(x, bound).1|) * Renorm(x, bound).0
    decreases x
  {
    if x >= bound {
      RenormLossless(x / 256, bound);
      var (y, bs) := Renorm(x / 256, bound);
      assert Renorm(x, bound) == (y, [x % 256] + bs);
      assert ([x % 256] + bs)[1..] == bs;
      assert x / 256 == LeValue(bs) + Pow256(|bs|) * y;
      calc {
        LeValue([x % 256] + bs) + Pow256(|bs| + 1) * y;
        x % 256 + 256 * LeValue(bs) + 256 * Pow256(|bs|) * y;
        x % 256 + 256 * (LeValue(bs) + Pow256(|bs|) * y);
        x;
      }
    }
  }

  /** The state update `x = (x / f) * L + (x % f) + cf` in uint32 arithmetic. */
  function EncStep(x: u32, f: u16, cf: int): u32
    requires f >= 1
  {
    ToU32((x / f) * RANS_L + x % f + cf)
  }

  /** What the encoder needs of the model for the symbols it is given. */
  predicate Encodable(syms: seq<u16>, m: Model)
  {
    |m.cdf| == |m.freq| &&
    forall i :: 0 <= i < |syms| ==> syms[i] < |m.freq| && 1 <= m.freq[syms[i]] < RANS_L
  }

  /** One symbol pushed onto an encoder state (x, bytes so far). */
  function Put(st: (u32, seq<u8>), s: u16, m: Model): (u32, seq<u8>)
    requires s < |m.freq| == |m.cdf| && 1 <= m.freq[s] < RANS_L
  {
    var f := m.freq[s];
    var (x1, bs) := Renorm(st.0, RenormBound(f));
    (EncStep(x1, f, m.cdf[s]), st.1 + bs)
  }

  /** The encoder state after the symbol loop: the last symbol is pushed first. */
  function EncodeRun(syms: seq<u16>, m: Model): (u32, seq<u8>)
    requires Encodable(syms, m)
  {
    if syms == [] then (STATE_INIT, [])
    else Put(EncodeRun(syms[1..], m), syms[0], m)
  }

  /** rans32::encode: the renormalisation bytes, then the final state flushed low byte first. */
  function EncodeSpec(syms: seq<u16>, m: Model): seq<u8>
    requires Encodable(syms, m)
  {
    var (x, out) := EncodeRun(syms, m);
    out + LeBytes(x, 4)
  }

  /** The body of the encoder's symbol loop for one symbol. */
  method PutSymbol(x: u32, out: seq<u8>, s: u16, m: Model) returns (x': u32, out': seq<u8>)
    requires s < |m.freq| == |m.cdf| && 1 <= m.freq[s] < RANS_L
    ensures (x', out') == Put((x, out), s, m)
  {
    var f := m.freq[s];
    var cf := m.cdf[s];
    var bound := RenormBound(f);
    x', out' := x, out;
    while x' >= bound
      invariant x' <= x
      invariant Renorm(x, bound).0 == Renorm(x', bound).0
      invariant out + Renorm(x, bound).1 == out' + Renorm(x', bound).1
      decreases x'
    {
      out' := out' + [(x' % 256) as u8];
      x' := x' / 256;
    }
    assert Renorm(x', bound) == (x', []);
    assert out' + [] == out';
    assert (x', out') == (Renorm(x, bound).0, out + Renorm(x, bound).1);
    x' := ToU32((x' / f) * RANS_L + (x' % f) + cf);
  }

  /** The four flushed bytes, low byte first. */
  lemma FlushBytes(x: u32)
    ensures LeBytes(x, 4) == [x % 256, x / 256 % 256, x / 256 / 256 % 256, x / 256 / 256 / 256 % 256]
  {
    var x1, x2, x3 := x / 256, x / 256 / 256, x / 256 / 256 / 256;
    assert LeBytes(x3, 1) == [x3 % 256] + LeBytes(x3 / 256, 0);
    assert LeBytes(x2, 2) == [x2 % 256] + LeBytes(x3, 1);
    assert LeBytes(x1, 3) == [x1 % 256] + LeBytes(x2, 2);
    assert LeBytes(x, 4) == [x % 256] + LeBytes(x1, 3);
  }

  method Encode(syms: seq<u16>, m: Model) returns (out: seq<u8>)
    requires Encodable(syms, m)
    ensures out == EncodeSpec(syms, m)
  {
    var x: u32 := STATE_INIT;
    out := [];
    var i := |syms|;
    while i > 0
      invariant 0 <= i <= |syms|
      invariant (x, out) == EncodeRun(syms[i..], m)
    {
      i := i - 1;
      assert syms[i..][1..] == syms[i + 1..];
      x, out := PutSymbol(x, out, syms[i], m);
    }
    // the flush: four `put(x & 0xFF); x >>= 8;`
    FlushBytes(x);
    out := out + [(x % 256) as u8]; x := x / 256;
    out := out + [(x % 256) as u8]; x := x / 256;
    out := out + [(x % 256) as u8]; x := x / 256;
    out := out + [(x % 256) as u8];
  }

  // ---------------------------------------------------------------------------
  // Decoder
  // ---------------------------------------------------------------------------

  /**
   * The reads of one decode step stay inside the tables: `lut_sym[slot]` for the slot of x,
   * then `cdf[s]` and `freq[s]` for the symbol s it names.
   */
  predicate SlotInRange(x: u32, m: Model)
  {
    x % RANS_L < |m.lut| && 0 <= m.lut[x % RANS_L] < |m.freq| && m.lut[x % RANS_L] < |m.cdf|
    && m.lut[x % RANS_L] < TWO_16
  }

  /** A model whose every slot names a symbol of the tables: no decode step reads out of range. */
  predicate Decodable(m: Model)
  {
    |m.cdf| == |m.freq| && |m.lut| >= RANS_L &&
    forall k :: 0 <= k < RANS_L ==> 0 <= m.lut[k] < |m.freq| && m.lut[k] < TWO_16
  }

  /** The start of decode: four pops, the first one landing in the LOW byte of x. */
  function ReadState(stack: seq<u8>): (r: Result<(u32, seq<u8>)>)
    ensures r.Ok? <==> |stack| >= 4
    ensures r.Ok? ==> r.value.1 == stack[..|stack| - 4]
  {
    if |stack| < 4 then Err(Underflow)
    else
      var n := |stack|;
      var b0, b1, b2, b3 := stack[n - 1] as int, stack[n - 2] as int, stack[n - 3] as int, stack[n - 4] as int;
      Ok((b0 + 256 * b1 + 0x1_0000 * b2 + 0x100_0000 * b3,
          stack[..n - 4]))
  }

  /** The refill loop `while (x < 1u << 16) x = (x << 8) | get();`. */
  function Refill(stack: seq<u8>, x: u32): (r: Result<(u32, seq<u8>)>)
    ensures r.Ok? ==> r.value.0 >= REFILL_BELOW
    ensures r.Ok? && x < REFILL_BELOW ==> r.value.0 < 0x100_0000
    ensures r.Ok? && x >= REFILL_BELOW ==> r.value == (x, stack)
    ensures r.Ok? ==> r.value.1 <= stack
    ensures r.Err? ==> r.error == Underflow
    decreases |stack|
  {
    if x >= REFILL_BELOW then Ok((x, stack))
    else if stack == [] then Err(Underflow)
    else Refill(stack[..|stack| - 1], x * 256 + stack[|stack| - 1])
  }

  /** One decode step: the slot's symbol and the state `f * (x >> PREC) + (slot - cf)` in uint32. */
  function DecStep(x: u32, m: Model): (r: (u16, u32))
    requires SlotInRange(x, m)
  {
    var slot := x % RANS_L;
    var s := m.lut[slot];
    (s, ToU32(ToU32(m.freq[s] * (x / RANS_L)) + ToU32(slot - m.cdf[s])))
  }

  datatype Decoded = Decoded(syms: seq<u16>, stack: seq<u8>, x: u32)

  /**
   * The symbol loop: k symbols in forward order.  A step whose slot reads outside the
   * tables is an out-of-range read in the source, OutOfBounds here.
   */
  function DecodeLoop(stack: seq<u8>, x: u32, k: nat, m: Model): (r: Result<Decoded>)
    ensures r.Ok? ==> |r.value.syms| == k
    ensures r.Err? ==> r.error == Underflow || r.error == OutOfBounds
    decreases k
  {
    if k == 0 then Ok(Decoded([], stack, x))
    else if !SlotInRange(x, m) then Err(OutOfBounds)
    else
      var (s, x1) := DecStep(x, m);
      match Refill(stack, x1)
      case Err(e) => Err(e)
      case Ok((x2, rest)) =>
        match DecodeLoop(rest, x2, k - 1, m)
        case Err(e) => Err(e)
        case Ok(d) => Ok(Decoded([s] + d.syms, d.stack, d.x))
  }

  /** rans32::decode: read the state from the tail, then decode nSyms symbols. */
  function DecodeSpec(input: seq<u8>, nSyms: nat, m: Model): Result<seq<u16>>
  {
    match ReadState(input)
    case Err(e) => Err(e)
    case Ok((x, stack)) =>
      match DecodeLoop(stack, x, nSyms, m)
      case Err(e) => Err(e)
      case Ok(d) => Ok(d.syms)
  }

  /** r with the symbols p placed before its own. */
  function PrependSyms(p: seq<u16>, r: Result<Decoded>): Result<Decoded>
  {
    if r.Ok? then Ok(r.value.(syms := p + r.value.syms)) else r
  }

  lemma DecodeLoopStep(stack: seq<u8>, x: u32, k: nat, m: Model)
    requires SlotInRange(x, m) && k > 0
    ensures Refill(stack, DecStep(x, m).1).Err? ==>
              DecodeLoop(stack, x, k, m) == Err(Refill(stack, DecStep(x, m).1).error)
    ensures Refill(stack, DecStep(x, m).1).Ok? ==>
              var (x2, rest) := Refill(stack, DecStep(x, m).1).value;
              DecodeLoop(stack, x, k, m) == PrependSyms([DecStep(x, m).0], DecodeLoop(rest, x2, k - 1, m))
  {
  }

  lemma PrependNothing(r: Result<Decoded>)
    ensures PrependSyms([], r) == r
  {
    if r.Ok? {
      assert [] + r.value.syms == r.value.syms;
    }
  }

  lemma PrependTwice(a: seq<u16>, b: seq<u16>, r: Result<Decoded>)
    ensures PrependSyms(a, PrependSyms(b, r)) == PrependSyms(a + b, r)
  {
    if r.Ok? {
      assert a + (b + r.value.syms) == (a + b) + r.value.syms;
    }
  }

  /** The refill loop at cursor ip; on success the new state and cursor. */
  method RefillAt(input: seq<u8>, ip: nat, x: u32) returns (r: Result<(u32, nat)>)
    requires ip <= |input|
    ensures r.Ok? ==> r.value.1 <= ip && Refill(input[..ip], x) == Ok((r.value.0, input[..r.value.1]))
    ensures r.Err? ==> Refill(input[..ip], x) == Err(r.error)
  {
    var y: u32 := x;
    var j := ip;
    while y < REFILL_BELOW
      invariant 0 <= j <= ip
      invariant Refill(input[..ip], x) == Refill(input[..j], y)
      decreases j
    {
      if j == 0 {
        return Err(Underflow);
      }
      assert input[..j][..j - 1] == input[..j - 1];
      j := j - 1;
      y := y * 256 + input[j];
    }
    return Ok((y, j));
  }

  /** The four `get()`s that start decode. */
  method ReadStateAt(input: seq<u8>) returns (r: Result<(u32, nat)>)
    ensures r.Ok? ==> r.value.1 == |input| - 4 && ReadState(input) == Ok((r.value.0, input[..r.value.1]))
    ensures r.Err? ==> ReadState(input) == Err(r.error)
  {
    var ip := |input|;
    if ip < 4 {
      return Err(Underflow);
    }
    // x |= get(); x |= get() << 8; ...: the bytes do not overlap, so `|` adds
    var x: int := 0;
    ip := ip - 1; x := x + input[ip];
    ip := ip - 1; x := x + (input[ip] as int) * 0x100;
    ip := ip - 1; x := x + (input[ip] as int) * 0x1_0000;
    ip := ip - 1; x := x + (input[ip] as int) * 0x100_0000;
    return Ok((x, ip));
  }

  /** The body of the decoder's symbol loop: the symbol, the refilled state and the new cursor. */
  method DecodeSymbol(input: seq<u8>, ip: nat, x: u32, k: nat, m: Model) returns (r: Result<(u16, u32, nat)>)
    requires ip <= |input| && k > 0
    ensures r.Ok? ==> r.value.2 <= ip
    ensures r.Ok? ==> DecodeLoop(input[..ip], x, k, m)
                      == PrependSyms([r.value.0], DecodeLoop(input[..r.value.2], r.value.1, k - 1, m))
    ensures r.Err? ==> DecodeLoop(input[..ip], x, k, m) == Err(r.error)
  {
    var slot := x % RANS_L;
    if !(slot < |m.lut| && 0 <= m.lut[slot] < |m.freq| && m.lut[slot] < |m.cdf| && m.lut[slot] < TWO_16) {
      return Err(OutOfBounds);
    }
    var s := m.lut[slot] as u16;
    var cf := m.cdf[s];
    var f := m.freq[s];
    var x1 := ToU32(ToU32(f * (x / RANS_L)) + ToU32(slot - cf));
    assert DecStep(x, m) == (s, x1);
    DecodeLoopStep(input[..ip], x, k, m);
    var refilled := RefillAt(input, ip, x1);
    if refilled.Err? {
      return Err(refilled.error);
    }
    return Ok((s, refilled.value.0, refilled.value.1));
  }

  /** The symbols of a decode, or its error. */
  function SymsOf(r: Result<Decoded>): Result<seq<u16>>
  {
    if r.Ok? then Ok(r.value.syms) else Err(r.error)
  }

  /** The decoder's symbol loop from cursor ip and state x. */
  method DecodeSymbols(input: seq<u8>, ip: nat, x: u32, nSyms: nat, m: Model) returns (r: Result<seq<u16>>)
    requires ip <= |input|
    ensures r == SymsOf(DecodeLoop(input[..ip], x, nSyms, m))
  {
    ghost var total := DecodeLoop(input[..ip], x, nSyms, m);
    var out: seq<u16> := [];
    var i := 0;
    var x, ip := x, ip;
    PrependNothing(total);
    while i < nSyms
      invariant 0 <= i <= nSyms && ip <= |input| && |out| == i
      invariant total == PrependSyms(out, DecodeLoop(input[..ip], x, nSyms - i, m))
    {
      var step := DecodeSymbol(input, ip, x, nSyms - i, m);
      if step.Err? {
        return Err(step.error);
      }
      var (s, x', ip') := step.value;
      PrependTwice(out, [s], DecodeLoop(input[..ip'], x', nSyms - i - 1, m));
      out := out + [s];
      x, ip := x', ip';
      i := i + 1;
    }
    assert out + [] == out;
    return Ok(out);
  }

  method Decode(input: seq<u8>, nSyms: nat, m: Model) returns (r: Result<seq<u16>>)
    ensures r == DecodeSpec(input, nSyms, m)
  {
    var start := ReadStateAt(input);
    if start.Err? {
      return Err(start.error);
    }
    r := DecodeSymbols(input, start.value.1, start.value.0, nSyms, m);
  }

  // ---------------------------------------------------------------------------
  // Properties of the coder as written
  // ---------------------------------------------------------------------------

  /** The renormalisation loop pushes at most two bytes per symbol. */
  lemma RenormAtMostTwo(x: u32, bound: u32)
    requires bound >= SCALE
    ensures |Renorm(x, bound).1| <= 2
  {
    if x >= bound {
      var y := x / 256;
      if y >= bound {
        assert Renorm(y / 256, bound) == (y / 256, []);
      }
    }
  }

  lemma {:induction false} EncodeRunLength(syms: seq<u16>, m: Model)
    requires Encodable(syms, m)
    ensures |EncodeRun(syms, m).1| <= 2 * |syms|
  {
    if syms != [] {
      EncodeRunLength(syms[1..], m);
      RenormAtMostTwo(EncodeRun(syms[1..], m).0, RenormBound(m.freq[syms[0]]));
    }
  }

  /** The output is the four flushed bytes plus at most two bytes per symbol. */
  lemma EncodeLength(syms: seq<u16>, m: Model)
    requires Encodable(syms, m)
    ensures 4 <= |EncodeSpec(syms, m)| <= 4 + 2 * |syms|
    ensures EncodeSpec(syms, m)[|EncodeSpec(syms, m)| - 4..] == LeBytes(EncodeRun(syms, m).0, 4)
  {
    EncodeRunLength(syms, m);
    var (x, out) := EncodeRun(syms, m);
    assert (out + LeBytes(x, 4))[|out|..] == LeBytes(x, 4);
  }

  /**
   * Below the renormalisation bound f << 20 and with cf + f <= L, the encoder's state update
   * does not wrap.
   */
  lemma EncStepNoWrap(x: u32, f: u16, cf: int)
    requires 1 <= f && 0 <= cf && cf + f <= RANS_L && x < f * SCALE
    ensures EncStep(x, f, cf) == (x / f) * RANS_L + x % f + cf
  {
    var q, r := x / f, x % f;
    DivBelow(x, f, SCALE);
    assert q * RANS_L <= (SCALE - 1) * RANS_L;
    assert 0 <= r < f;
    assert 0 <= q * RANS_L + r + cf < TWO_32;
  }

  /**
   * One decode step undoes one encode step: the slot of the new state lies in the symbol's
   * interval [cf, cf + f), and `f * (y >> 12) + (slot - cf)` gives the old state back.
   */
  lemma StepInverse(x: u32, f: u16, cf: int)
    requires 1 <= f && 0 <= cf && cf + f <= RANS_L && x < f * SCALE
    ensures var y := EncStep(x, f, cf);
            cf <= y % RANS_L < cf + f && f * (y / RANS_L) + (y % RANS_L - cf) == x
  {
    EncStepNoWrap(x, f, cf);
    var y := EncStep(x, f, cf);
    var q, r := x / f, x % f + cf;
    assert y == q * RANS_L + r && 0 <= r < RANS_L;
    assert y / RANS_L == q && y % RANS_L == r;
    assert f * q + x % f == x;
  }

  /** The tables rebuilt from a frequency vector that fills L are usable by the decoder. */
  lemma TablesDecodable(freq: seq<u16>)
    requires Sum(freq) == RANS_L && |freq| <= TWO_16
    ensures Decodable(Tables(RANS_L, freq))
  {
    var m := Tables(RANS_L, freq);
    forall k | 0 <= k < RANS_L
      ensures 0 <= m.lut[k] < |freq| && m.lut[k] < TWO_16
    {
      assert m.lut[k] == ToU16(Owner(freq, k));
    }
  }

  /**
   * Against the rebuilt tables, the decoder's step maps the encoder's new state back to the
   * symbol and the old state.
   */
  lemma DecStepInvertsEncStep(freq: seq<u16>, s: nat, x: u32)
    requires Sum(freq) == RANS_L && |freq| <= TWO_16
    requires s < |freq| && 1 <= freq[s] && x < freq[s] * SCALE
    ensures Decodable(Tables(RANS_L, freq))
    ensures DecStep(EncStep(x, freq[s], Tables(RANS_L, freq).cdf[s]), Tables(RANS_L, freq)) == (s, x)
  {
    var m := Tables(RANS_L, freq);
    TablesDecodable(freq);
    var f, cf := freq[s], m.cdf[s];
    TablesAgree(RANS_L, freq, s, 0);
    assert 0 <= cf && cf + f <= RANS_L by {
      SumNonNegative(freq[..s]);
      SumEntryLe(freq, s);
    }
    StepInverse(x, f, cf);
    var y := EncStep(x, f, cf);
    TablesAgree(RANS_L, freq, s, y % RANS_L);
    DecStepValue(y, m, s, x);
  }

  /** DecStep when the slot's symbol and the arithmetic are known. */
  lemma DecStepValue(y: u32, m: Model, s: nat, x: u32)
    requires Decodable(m) && m.lut[y % RANS_L] == s
    requires 0 <= y % RANS_L - m.cdf[s] && 0 <= m.freq[s]
    requires m.freq[s] * (y / RANS_L) + (y % RANS_L - m.cdf[s]) == x
    ensures DecStep(y, m) == (s, x)
  {
    var q := y / RANS_L;
    assert 0 <= q;
    NoWrap(m.freq[s] * q, y % RANS_L - m.cdf[s], x);
  }

  lemma NoWrap(p: int, d: int, x: u32)
    requires 0 <= p && 0 <= d && p + d == x
    ensures ToU32(ToU32(p) + ToU32(d)) == x
  {
  }

  /** The state bytes in the opposite order: what the decoder reads back from the flush. */
  function ByteSwap(x: u32): (r: u32)
  {
    var b := LeBytes(x, 4);
    b[3] as int + 256 * (b[2] as int) + 0x1_0000 * (b[1] as int) + 0x100_0000 * (b[0] as int)
  }

  /**
   * The decoder's first four pops take the flushed state byte-reversed, since the flush
   * pushed the low byte first and `get()` pops the last byte first into the low position.
   */
  lemma ReadFlushed(pre: seq<u8>, x: u32)
    ensures ReadState(pre + LeBytes(x, 4)) == Ok((ByteSwap(x), pre))
  {
    var st := pre + LeBytes(x, 4);
    var n := |st|;
    assert st[n - 4..] == LeBytes(x, 4);
    assert st[..n - 4] == pre;
  }

  /** Nothing to encode: the flushed initial state, which decodes to no symbols. */
  lemma EmptyRoundTrip(m: Model)
    requires |m.cdf| == |m.freq|
    ensures EncodeSpec([], m) == [0x00, 0x00, 0x01, 0x00]
    ensures DecodeSpec(EncodeSpec([], m), 0, m) == Ok([])
  {
    FlushBytes(STATE_INIT);
  }

  /** Zero symbols: the decoder consumes exactly the four state bytes, and fails on fewer. */
  lemma DecodeNothing(input: seq<u8>, m: Model)
    ensures DecodeSpec(input, 0, m) == if |input| >= 4 then Ok([]) else Err(Underflow)
  {
  }

  /** The decoder only pops: the bytes it leaves are a prefix of the stack it started from. */
  lemma {:induction false} DecodeKeepsPrefix(stack: seq<u8>, x: u32, k: nat, m: Model)
    ensures DecodeLoop(stack, x, k, m).Ok? ==> DecodeLoop(stack, x, k, m).value.stack <= stack
    decreases k
  {
    if k > 0 && SlotInRange(x, m) {
      var (s, x1) := DecStep(x, m);
      if Refill(stack, x1).Ok? {
        var (x2, rest) := Refill(stack, x1).value;
        DecodeKeepsPrefix(rest, x2, k - 1, m);
      }
    }
  }

  /** The all-ones model every call of build_model produces encodes every symbol and decodes. */
  lemma OnesModelUsable(syms: seq<u16>)
    requires forall i :: 0 <= i < |syms| ==> syms[i] < ALPHABET
    ensures Encodable(syms, OnesModel()) && Decodable(OnesModel())
  {
    OnesModelShape();
  }

  /**
   * The coder as written does not round-trip: the single symbol 0 under the all-ones model
   * encodes to the state 2^28, flushed as 00 00 00 10; the decoder reads the state 16,
   * takes symbol 16 from slot 16, reaches the state 0 and runs out of bytes refilling it.
   */
  lemma AsWrittenLosesSymbol()
    ensures Encodable([0], OnesModel()) && Decodable(OnesModel())
    ensures EncodeSpec([0], OnesModel()) == [0x00, 0x00, 0x00, 0x10]
    ensures DecodeSpec([0x00, 0x00, 0x00, 0x10], 1, OnesModel()) == Err(Underflow)
  {
    OnesModelUsable([0]);
    OnesModelAt(0);
    OnesModelAt(16);
    EncodeZero(OnesModel());
    DecodeSixteen(OnesModel());
  }

  lemma OnesModelAt(k: nat)
    requires k < RANS_L
    ensures OnesModel().freq[k] == 1 && OnesModel().cdf[k] == k && OnesModel().lut[k] == k
  {
    OnesModelShape();
  }

  /** Symbol 0 with frequency 1 at cdf 0 is encoded as the state 2^28. */
  lemma EncodeZero(m: Model)
    requires 0 < |m.freq| && Encodable([0], m) && m.freq[0] == 1 && m.cdf[0] == 0
    ensures EncodeSpec([0], m) == [0x00, 0x00, 0x00, 0x10]
  {
    assert RenormBound(1) == SCALE;
    assert Renorm(STATE_INIT, SCALE) == (STATE_INIT, []);
    assert EncStep(STATE_INIT, 1, 0) == 0x1000_0000;
    assert EncodeRun([0], m) == (0x1000_0000, []) by {
      assert [0 as u16][1..] == [];
      assert EncodeRun([], m) == (STATE_INIT, []);
      var none: seq<u8> := [];
      assert none + none == none;
      assert Put((STATE_INIT, []), 0, m) == (0x1000_0000, []);
    }
    FlushBytes(0x1000_0000);
  }

  /** The bytes 00 00 00 10 give the state 16, slot 16, the state 0 and no byte to refill from. */
  lemma DecodeSixteen(m: Model)
    requires Decodable(m) && m.lut[16] == 16 && m.freq[16] == 1 && m.cdf[16] == 16
    ensures DecodeSpec([0x00, 0x00, 0x00, 0x10], 1, m) == Err(Underflow)
  {
    assert ReadState([0x00, 0x00, 0x00, 0x10]) == Ok((16, []));
    assert DecStep(16, m) == (16, 0);
    assert Refill([], 0) == Err(Underflow);
  }
}
