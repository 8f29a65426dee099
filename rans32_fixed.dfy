/**
 * The rANS32 coder as its design intends it: the state lives in [2^16, 2^24), so the
 * encoder renormalises below `f << 12` (eight bits below the decoder's refill bound, scaled
 * by f / L), and the decoder takes the flushed state back with the first popped byte in the
 * HIGH position. The step functions, the refill loop and the symbol loop are those of
 * `Rans32`; only the renormalisation bound and the order of the state read change.
 */
module Rans32Fixed {
  import opened MachineInts
  import opened Wrappers
  import opened AnsConfig
  import opened LittleEndian
  import opened StaticModel
  import opened Rans32

  const STATE_LIMIT: int := 0x100_0000   // 2^24, the top of the state interval

  /** `f << 12`: with f <= L it never wraps. */
  function FixedBound(f: u16): (b: u32)
    requires 1 <= f <= RANS_L
    ensures b == f * RANS_L && b >= RANS_L
  {
    f * RANS_L
  }

  predicate FixedEncodable(syms: seq<u16>, m: Model)
  {
    |m.cdf| == |m.freq| &&
    forall i :: 0 <= i < |syms| ==> syms[i] < |m.freq| && 1 <= m.freq[syms[i]] <= RANS_L
  }

  function FixedPut(st: (u32, seq<u8>), s: u16, m: Model): (u32, seq<u8>)
    requires s < |m.freq| == |m.cdf| && 1 <= m.freq[s] <= RANS_L
  {
    var f := m.freq[s];
    var (x1, bs) := Renorm(st.0, FixedBound(f));
    (EncStep(x1, f, m.cdf[s]), st.1 + bs)
  }

  function FixedEncodeRun(syms: seq<u16>, m: Model): (u32, seq<u8>)
    requires FixedEncodable(syms, m)
  {
    if syms == [] then (STATE_INIT, [])
    else FixedPut(FixedEncodeRun(syms[1..], m), syms[0], m)
  }

  /** The corrected encoder: same flush as the original, low byte first. */
  function FixedEncode(syms: seq<u16>, m: Model): seq<u8>
    requires FixedEncodable(syms, m)
  {
    var (x, out) := FixedEncodeRun(syms, m);
    out + LeBytes(x, 4)
  }

  /** The corrected start of decode: the first popped byte is the most significant one. */
  function FixedReadState(stack: seq<u8>): (r: Result<(u32, seq<u8>)>)
    ensures r.Ok? <==> |stack| >= 4
  {
    if |stack| < 4 then Err(Underflow)
    else
      var n := |stack|;
      var b0, b1, b2, b3 := stack[n - 1] as int, stack[n - 2] as int, stack[n - 3] as int, stack[n - 4] as int;
      Ok((0x100_0000 * b0 + 0x1_0000 * b1 + 256 * b2 + b3, stack[..n - 4]))
  }

  function FixedDecode(input: seq<u8>, nSyms: nat, m: Model): Result<seq<u16>>
  {
    match FixedReadState(input)
    case Err(e) => Err(e)
    case Ok((x, stack)) => SymsOf(DecodeLoop(stack, x, nSyms, m))
  }

  // ---------------------------------------------------------------------------
  // The round trip
  // ---------------------------------------------------------------------------

  /** The corrected read takes back exactly the state the flush wrote. */
  lemma FixedReadFlushed(pre: seq<u8>, x: u32)
    ensures FixedReadState(pre + LeBytes(x, 4)) == Ok((x, pre))
  {
    var st := pre + LeBytes(x, 4);
    var n := |st|;
    var b := LeBytes(x, 4);
    assert st[n - 4..] == b;
    assert st[..n - 4] == pre;
    assert st[n - 1] == b[3] && st[n - 2] == b[2] && st[n - 3] == b[1] && st[n - 4] == b[0];
    FlushBytes(x);
    DigitsRebuild(x);
  }

  /** The four base-256 digits of a uint32, most significant first, give it back. */
  lemma DigitsRebuild(x: u32)
    ensures 0x100_0000 * (x / 256 / 256 / 256 % 256) + 0x1_0000 * (x / 256 / 256 % 256)
            + 256 * (x / 256 % 256) + x % 256 == x
  {
    var x1, x2, x3 := x / 256, x / 256 / 256, x / 256 / 256 / 256;
    assert x == 256 * x1 + x % 256;
    assert x1 == 256 * x2 + x1 % 256;
    assert x2 == 256 * x3 + x2 % 256;
    assert x3 == x3 % 256;
  }

  /**
   * Refilling undoes renormalising: popping the bytes that the renormalisation of y pushed,
   * starting from the state it left, rebuilds y (for any y below 2^24).
   */
  lemma {:induction false} RefillUndoesRenorm(t: seq<u8>, y: u32, b: u32)
    requires y < STATE_LIMIT && b > 0
    ensures Refill(t + Renorm(y, b).1, Renorm(y, b).0) == Refill(t, y)
    decreases y
  {
    if y >= b {
      var y' := y / 256;
      var (x1, bs') := Renorm(y', b);
      assert Renorm(y, b) == (x1, [(y % 256) as u8] + bs');
      RefillUndoesRenorm(t + [(y % 256) as u8], y', b);
      assert t + ([(y % 256) as u8] + bs') == (t + [(y % 256) as u8]) + bs';
      assert y' < REFILL_BELOW;
      assert (t + [(y % 256) as u8])[..|t|] == t;
      assert Refill(t + [(y % 256) as u8], y') == Refill(t, y' * 256 + y % 256);
    } else {
      assert t + [] == t;
    }
  }

  /** Renormalising at or above the bound leaves at least bound / 256. */
  lemma {:induction false} RenormFloor(y: u32, b: u32)
    requires b > 0 && y >= b
    ensures Renorm(y, b).0 >= b / 256
    decreases y
  {
    if y / 256 >= b {
      RenormFloor(y / 256, b);
    }
  }

  /** The corrected encoder keeps its state in [2^16, 2^24). */
  lemma FixedPutInterval(x: u32, f: u16, cf: int)
    requires REFILL_BELOW <= x < STATE_LIMIT
    requires 1 <= f && 0 <= cf && cf + f <= RANS_L
    ensures var x1 := Renorm(x, FixedBound(f)).0;
            x1 < f * RANS_L && REFILL_BELOW <= EncStep(x1, f, cf) < STATE_LIMIT
  {
    var b := FixedBound(f);
    var x1 := Renorm(x, b).0;
    if x >= b {
      RenormFloor(x, b);
    }
    StepInterval(x1, f, cf);
  }

  lemma StepInterval(x1: u32, f: u16, cf: int)
    requires 1 <= f && 0 <= cf && cf + f <= RANS_L
    requires 16 * f <= x1 < f * RANS_L
    ensures REFILL_BELOW <= EncStep(x1, f, cf) < STATE_LIMIT
  {
    EncStepNoWrap(x1, f, cf);
    var q := x1 / f;
    DivBelow(x1, f, RANS_L);
    DivAtLeast(x1, f, 16);
    assert q * RANS_L >= 16 * RANS_L;
    assert q * RANS_L <= (RANS_L - 1) * RANS_L;
    assert 0 <= x1 % f < f;
  }

  /** A frequency table that fills L exactly and whose symbols fit in `uint16_t`. */
  predicate Consistent(freq: seq<u16>)
  {
    Sum(freq) == RANS_L && |freq| <= TWO_16
  }

  /**
   * What the decoder needs of a model for the round trip: the frequencies fill L, cdf is
   * their exclusive prefix sum, and every slot names the symbol whose range holds it.
   */
  predicate ValidTables(m: Model)
  {
    Decodable(m) && Consistent(m.freq) &&
    (forall s :: 0 <= s < |m.freq| ==> m.cdf[s] == Sum(m.freq[..s])) &&
    (forall slot :: 0 <= slot < RANS_L ==>
       Sum(m.freq[..m.lut[slot]]) <= slot < Sum(m.freq[..m.lut[slot]]) + m.freq[m.lut[slot]])
  }

  /** The tables rebuilt from a consistent frequency vector are valid. */
  lemma TablesValid(freq: seq<u16>)
    requires Consistent(freq)
    ensures ValidTables(Tables(RANS_L, freq))
  {
    var m := Tables(RANS_L, freq);
    TablesDecodable(freq);
    forall s | 0 <= s < |freq| ensures m.cdf[s] == Sum(freq[..s]) {
      TablesAgree(RANS_L, freq, s, 0);
    }
    forall slot | 0 <= slot < RANS_L
      ensures Sum(freq[..m.lut[slot]]) <= slot < Sum(freq[..m.lut[slot]]) + freq[m.lut[slot]]
    {
      assert m.lut[slot] == Owner(freq, slot);
    }
  }

  /** cf of a symbol with its frequency stays within L. */
  lemma SymbolRange(m: Model, s: nat)
    requires ValidTables(m) && s < |m.freq|
    ensures 0 <= m.cdf[s] && m.cdf[s] + m.freq[s] <= RANS_L
  {
    SumNonNegative(m.freq[..s]);
    SumEntryLe(m.freq, s);
  }

  /** Under valid tables the decoder step undoes the encoder step. */
  lemma ValidStepInverse(m: Model, a: nat, x1: u32)
    requires ValidTables(m) && a < |m.freq| && 1 <= m.freq[a] && x1 < m.freq[a] * SCALE
    ensures DecStep(EncStep(x1, m.freq[a], m.cdf[a]), m) == (a, x1)
  {
    var f, cf := m.freq[a], m.cdf[a];
    SymbolRange(m, a);
    StepInverse(x1, f, cf);
    var y := EncStep(x1, f, cf);
    var slot := y % RANS_L;
    var b := m.lut[slot];
    OwnerUnique(m.freq, a, slot);
    OwnerUnique(m.freq, b, slot);
    DecStepValue(y, m, a, x1);
  }

  lemma {:induction false} FixedRunInterval(syms: seq<u16>, m: Model)
    requires ValidTables(m) && FixedEncodable(syms, m)
    ensures REFILL_BELOW <= FixedEncodeRun(syms, m).0 < STATE_LIMIT
  {
    if syms != [] {
      FixedRunInterval(syms[1..], m);
      SymbolRange(m, syms[0]);
      FixedPutInterval(FixedEncodeRun(syms[1..], m).0, m.freq[syms[0]], m.cdf[syms[0]]);
    }
  }

  /**
   * One symbol: the decoder step on the state the encoder leaves gives the symbol back, and
   * the refill after it pops exactly the bytes that symbol's renormalisation pushed.
   */
  lemma FixedSymbolInverse(t: seq<u8>, st: (u32, seq<u8>), a: u16, m: Model)
    requires ValidTables(m) && a < |m.freq| && 1 <= m.freq[a]
    requires REFILL_BELOW <= st.0 < STATE_LIMIT
    ensures m.freq[a] <= RANS_L
    ensures DecStep(FixedPut(st, a, m).0, m).0 == a
    ensures Refill(t + FixedPut(st, a, m).1, DecStep(FixedPut(st, a, m).0, m).1) == Ok((st.0, t + st.1))
  {
    SymbolRange(m, a);
    var f, cf := m.freq[a], m.cdf[a];
    FixedPutInterval(st.0, f, cf);
    var r := Renorm(st.0, FixedBound(f));
    ValidStepInverse(m, a, r.0);
    RefillUndoesRenorm(t + st.1, st.0, FixedBound(f));
    assert FixedPut(st, a, m) == (EncStep(r.0, f, cf), st.1 + r.1);
    assert t + (st.1 + r.1) == (t + st.1) + r.1;
  }

  /**
   * Decoding the bytes of an encoder run, on top of any earlier bytes t, gives the symbols
   * back in order, leaves t untouched and ends in the encoder's initial state.
   */
  lemma {:induction false} FixedDecodeRun(t: seq<u8>, syms: seq<u16>, m: Model)
    requires ValidTables(m) && FixedEncodable(syms, m)
    ensures DecodeLoop(t + FixedEncodeRun(syms, m).1, FixedEncodeRun(syms, m).0, |syms|, m)
            == Ok(Decoded(syms, t, STATE_INIT))
  {
    if syms == [] {
      assert t + [] == t;
    } else {
      FixedDecodeRun(t, syms[1..], m);
      FixedRunInterval(syms[1..], m);
      FixedDecodeStep(t, syms, m);
    }
  }

  /** The induction step of FixedDecodeRun: one more symbol in front of the encoded rest. */
  lemma FixedDecodeStep(t: seq<u8>, syms: seq<u16>, m: Model)
    requires ValidTables(m) && FixedEncodable(syms, m) && syms != []
    requires REFILL_BELOW <= FixedEncodeRun(syms[1..], m).0 < STATE_LIMIT
    requires DecodeLoop(t + FixedEncodeRun(syms[1..], m).1, FixedEncodeRun(syms[1..], m).0, |syms| - 1, m)
             == Ok(Decoded(syms[1..], t, STATE_INIT))
    ensures DecodeLoop(t + FixedEncodeRun(syms, m).1, FixedEncodeRun(syms, m).0, |syms|, m)
            == Ok(Decoded(syms, t, STATE_INIT))
  {
    var prev := FixedEncodeRun(syms[1..], m);
    var cur := FixedPut(prev, syms[0], m);
    FixedSymbolInverse(t, prev, syms[0], m);
    DecodeCons(t + cur.1, cur.0, DecStep(cur.0, m).1, prev.0, t + prev.1, syms[0], syms[1..], t, m);
    assert [syms[0]] + syms[1..] == syms;
  }

  /** One more symbol in front: the step, the refill, then the rest of the loop. */
  lemma DecodeCons(stack: seq<u8>, x: u32, x1: u32, x2: u32, stack2: seq<u8>, a: u16, rest: seq<u16>,
                   t: seq<u8>, m: Model)
    requires Decodable(m) && DecStep(x, m) == (a, x1) && Refill(stack, x1) == Ok((x2, stack2))
    requires DecodeLoop(stack2, x2, |rest|, m) == Ok(Decoded(rest, t, STATE_INIT))
    ensures DecodeLoop(stack, x, |rest| + 1, m) == Ok(Decoded([a] + rest, t, STATE_INIT))
  {
  }

  /**
   * The corrected coder round-trips: under valid tables, for symbols of non-zero frequency,
   * decoding the encoding gives the symbols back.
   */
  lemma FixedRoundTrip(syms: seq<u16>, m: Model)
    requires ValidTables(m) && FixedEncodable(syms, m)
    ensures FixedDecode(FixedEncode(syms, m), |syms|, m) == Ok(syms)
  {
    var (x, out) := FixedEncodeRun(syms, m);
    FixedReadFlushed(out, x);
    FixedDecodeRun([], syms, m);
    assert [] + out == out;
  }

  /** In particular for the model build_model always produces. */
  lemma FixedRoundTripOnes(syms: seq<u16>)
    requires forall i :: 0 <= i < |syms| ==> syms[i] < ALPHABET
    ensures ValidTables(OnesModel()) && FixedEncodable(syms, OnesModel())
    ensures FixedDecode(FixedEncode(syms, OnesModel()), |syms|, OnesModel()) == Ok(syms)
  {
    FixedOnesUsable(syms);
    FixedRoundTrip(syms, OnesModel());
  }

  /** The all-ones model is valid and takes every symbol of the alphabet. */
  lemma FixedOnesUsable(syms: seq<u16>)
    requires forall i :: 0 <= i < |syms| ==> syms[i] < ALPHABET
    ensures ValidTables(OnesModel()) && FixedEncodable(syms, OnesModel())
  {
    OnesModelShape();
    TablesValid(Ones(ALPHABET));
  }

  // ---------------------------------------------------------------------------
  // Output size
  // ---------------------------------------------------------------------------

  /** Inside the state interval, renormalising against a bound of at least L pushes at most two bytes. */
  lemma FixedRenormAtMostTwo(x: u32, b: u32)
    requires x < STATE_LIMIT && b >= RANS_L
    ensures |Renorm(x, b).1| <= 2
  {
    if x >= b {
      var y := x / 256;
      if y >= b {
        assert Renorm(y / 256, b) == (y / 256, []);
      }
    }
  }

  lemma {:induction false} FixedEncodeRunLength(syms: seq<u16>, m: Model)
    requires ValidTables(m) && FixedEncodable(syms, m)
    ensures |FixedEncodeRun(syms, m).1| <= 2 * |syms|
  {
    if syms != [] {
      FixedEncodeRunLength(syms[1..], m);
      FixedRunInterval(syms[1..], m);
      FixedRenormAtMostTwo(FixedEncodeRun(syms[1..], m).0, FixedBound(m.freq[syms[0]]));
    }
  }

  /** The corrected output is the four flushed bytes plus at most two bytes per symbol. */
  lemma FixedEncodeLength(syms: seq<u16>, m: Model)
    requires ValidTables(m) && FixedEncodable(syms, m)
    ensures 4 <= |FixedEncode(syms, m)| <= 4 + 2 * |syms|
  {
    FixedEncodeRunLength(syms, m);
  }
}
