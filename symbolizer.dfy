/** Residual-to-symbol mapping with an escape side list (ansResidual.cpp, lines 13-56). */
module Symbolizer {
  import opened MachineInts
  import opened AnsConfig

  /**
   * zigzag16: `(u << 1) ^ (uint32_t)(r >> 15)` with u the uint32 image of r.
   * `r >> 15` is 0 or -1, so the xor mask is 0 or 0xFFFFFFFF, and x ^ 0xFFFFFFFF is 0xFFFFFFFF - x.
   */
  function Zigzag(r: i16): (z: u32)
    ensures z <= 65535
    ensures r >= 0 ==> z == 2 * r
    ensures r < 0 ==> z == -2 * r - 1
  {
    var shifted := ToU32(ToU32(r) * 2);
    if r < 0 then (TWO_32 - 1) - shifted else shifted
  }

  /**
   * unzigzag16: `(z >> 1) ^ (~(z & 1) + 1)` in uint32, then cast to int16.
   * `~(z & 1) + 1` is 0 for even z and 0xFFFFFFFF for odd z.
   */
  function Unzigzag(z: u32): (r: i16)
    ensures z % 2 == 0 ==> r == ToI16(z / 2)
    ensures z % 2 == 1 ==> r == ToI16(-(z / 2) - 1)
  {
    var mask := ToU32((TWO_32 - 1 - z % 2) + 1);
    var half := z / 2;
    ToI16(if mask == 0 then half else (TWO_32 - 1) - half)
  }

  lemma ZigzagInverse(r: i16)
    ensures Unzigzag(Zigzag(r)) == r
  {
  }

  /** The symbol a residual becomes: its zigzag value, or ESC_SYM from MAX_SYM upward. */
  function SymbolOf(r: i16): (s: u16)
    ensures s <= MAX_SYM
    ensures s == ESC_SYM <==> (r >= 2048 || r <= -2048)
    ensures s != ESC_SYM ==> Unzigzag(s) == r
  {
    var z := Zigzag(r);
    if z < MAX_SYM then z else ESC_SYM
  }

  predicate IsEscape(r: i16) { Zigzag(r) >= MAX_SYM }

  /** The residuals that need an escape, in scan order. */
  function Escapes(rs: seq<i16>): seq<i16>
  {
    if rs == [] then [] else (if IsEscape(rs[0]) then [rs[0]] else []) + Escapes(rs[1..])
  }

  /** Number of escape symbols in a symbol sequence. */
  function CountEsc(syms: seq<u16>): nat
  {
    if syms == [] then 0 else (if syms[0] == ESC_SYM then 1 else 0) + CountEsc(syms[1..])
  }

  function SymbolsOf(rs: seq<i16>): seq<u16>
  {
    seq(|rs|, i requires 0 <= i < |rs| => SymbolOf(rs[i]))
  }

  datatype Symbolized = Symbolized(syms: seq<u16>, esc: seq<i16>, escapes: nat)

  /** What symbolize_residuals returns. */
  function Symbolize(rs: seq<i16>): (S: Symbolized)
    ensures |S.syms| == |rs|
    ensures forall i :: 0 <= i < |rs| ==> S.syms[i] <= MAX_SYM
    ensures forall i :: 0 <= i < |rs| ==> (S.syms[i] == ESC_SYM <==> (rs[i] >= 2048 || rs[i] <= -2048))
    ensures S.esc == Escapes(rs)
    ensures S.escapes == |S.esc| == CountEsc(S.syms)
  {
    EscapesCounted(rs);
    Symbolized(SymbolsOf(rs), Escapes(rs), |Escapes(rs)|)
  }

  lemma {:induction false} EscapesCounted(rs: seq<i16>)
    ensures |Escapes(rs)| == CountEsc(SymbolsOf(rs))
  {
    if rs != [] {
      assert SymbolsOf(rs)[1..] == SymbolsOf(rs[1..]);
      EscapesCounted(rs[1..]);
    }
  }

  lemma {:induction false} EscapesAppend(a: seq<i16>, b: seq<i16>)
    ensures Escapes(a + b) == Escapes(a) + Escapes(b)
  {
    if a != [] {
      assert (a + b)[1..] == a[1..] + b;
      EscapesAppend(a[1..], b);
    } else {
      assert a + b == b;
    }
  }

  lemma {:induction false} CountEscAppend(a: seq<u16>, b: seq<u16>)
    ensures CountEsc(a + b) == CountEsc(a) + CountEsc(b)
  {
    if a != [] {
      assert (a + b)[1..] == a[1..] + b;
      CountEscAppend(a[1..], b);
    } else {
      assert a + b == b;
    }
  }

  /** At most one escape per symbol. */
  lemma {:induction false} CountEscBound(syms: seq<u16>)
    ensures CountEsc(syms) <= |syms|
  {
    if syms != [] {
      CountEscBound(syms[1..]);
    }
  }

  /** symbolize_residuals: fills `syms` by index and pushes each escaped residual. */
  method SymbolizeResiduals(residuals: seq<i16>) returns (S: Symbolized)
    ensures S == Symbolize(residuals)
  {
    var syms := new u16[|residuals|];
    var esc: seq<i16> := [];
    var escapes: nat := 0;
    for i := 0 to |residuals|
      invariant forall j :: 0 <= j < i ==> syms[j] == SymbolOf(residuals[j])
      invariant esc == Escapes(residuals[..i])
      invariant escapes == |esc|
    {
      var z := Zigzag(residuals[i]);
      EscapesAppend(residuals[..i], [residuals[i]]);
      assert residuals[..i + 1] == residuals[..i] + [residuals[i]];
      assert Escapes([residuals[i]]) == if IsEscape(residuals[i]) then [residuals[i]] else [];
      if z < MAX_SYM {
        syms[i] := z;
      } else {
        syms[i] := ESC_SYM;
        esc := esc + [residuals[i]];
        escapes := escapes + 1;
      }
    }
    assert residuals[..|residuals|] == residuals;
    assert syms[..] == SymbolsOf(residuals);
    S := Symbolized(syms[..], esc, escapes);
  }

  /** What unsymbolize_residuals returns: escapes are consumed strictly in list order. */
  function Unsymbolize(syms: seq<u16>, esc: seq<i16>): (out: seq<i16>)
    requires CountEsc(syms) <= |esc|
    ensures |out| == |syms|
  {
    if syms == [] then []
    else if syms[0] == ESC_SYM then [esc[0]] + Unsymbolize(syms[1..], esc[1..])
    else [Unzigzag(syms[0])] + Unsymbolize(syms[1..], esc)
  }

  /**
   * Output i of unsymbolize: the escape the cursor points at (the number of ESC symbols before
   * i), or the unzigzagged symbol.
   */
  lemma {:induction false} UnsymbolizeIndex(syms: seq<u16>, esc: seq<i16>, i: nat)
    requires CountEsc(syms) <= |esc| && i < |syms|
    ensures syms[i] == ESC_SYM ==> CountEsc(syms[..i]) < |esc|
    ensures Unsymbolize(syms, esc)[i]
            == if syms[i] == ESC_SYM then esc[CountEsc(syms[..i])] else Unzigzag(syms[i])
  {
    assert syms[..i + 1] + syms[i + 1..] == syms;
    CountEscAppend(syms[..i + 1], syms[i + 1..]);
    CountEscAppend(syms[..i], [syms[i]]);
    assert syms[..i + 1] == syms[..i] + [syms[i]];
    if i > 0 {
      var esc' := if syms[0] == ESC_SYM then esc[1..] else esc;
      UnsymbolizeIndex(syms[1..], esc', i - 1);
      assert syms[1..][..i - 1] == syms[..i][1..];
    }
  }

  /** unsymbolize_residuals with its escape cursor `ei`. */
  method UnsymbolizeResiduals(syms: seq<u16>, esc: seq<i16>) returns (out: seq<i16>)
    requires CountEsc(syms) <= |esc|
    ensures out == Unsymbolize(syms, esc)
  {
    var buf := new i16[|syms|];
    var ei := 0;
    for i := 0 to |syms|
      invariant ei == CountEsc(syms[..i])
      invariant forall j :: 0 <= j < i ==> buf[j] == Unsymbolize(syms, esc)[j]
    {
      UnsymbolizeIndex(syms, esc, i);
      CountEscAppend(syms[..i], [syms[i]]);
      assert syms[..i + 1] == syms[..i] + [syms[i]];
      if syms[i] == ESC_SYM {
        buf[i] := esc[ei];
        ei := ei + 1;
      } else {
        buf[i] := Unzigzag(syms[i]);
      }
    }
    out := buf[..];
  }

  /** Symbolizing and then unsymbolizing gives back every residual. */
  lemma {:induction false} SymbolizeRoundTrip(rs: seq<i16>)
    ensures CountEsc(Symbolize(rs).syms) <= |Symbolize(rs).esc|
    ensures Unsymbolize(Symbolize(rs).syms, Symbolize(rs).esc) == rs
  {
    EscapesCounted(rs);
    UnsymbolizeSymbols(rs);
  }

  lemma {:induction false} UnsymbolizeSymbols(rs: seq<i16>)
    ensures CountEsc(SymbolsOf(rs)) <= |Escapes(rs)|
    ensures Unsymbolize(SymbolsOf(rs), Escapes(rs)) == rs
  {
    EscapesCounted(rs);
    if rs != [] {
      var syms := SymbolsOf(rs);
      var tail := rs[1..];
      assert syms[1..] == SymbolsOf(tail);
      UnsymbolizeSymbols(tail);
      if IsEscape(rs[0]) {
        assert syms[0] == ESC_SYM;
        assert Escapes(rs) == [rs[0]] + Escapes(tail);
        assert Escapes(rs)[1..] == Escapes(tail);
        assert Unsymbolize(syms, Escapes(rs)) == [rs[0]] + Unsymbolize(SymbolsOf(tail), Escapes(tail));
      } else {
        assert syms[0] != ESC_SYM;
        assert Escapes(rs) == Escapes(tail);
        assert Unsymbolize(syms, Escapes(rs)) == [rs[0]] + Unsymbolize(SymbolsOf(tail), Escapes(tail));
      }
      assert [rs[0]] + tail == rs;
    }
  }
}
