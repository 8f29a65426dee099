/**
 * The static frequency model (ansResidual.cpp, lines 58-105 and 239-247): histogram,
 * normalisation to an exact sum, the exclusive prefix table `cdf` and the slot table `lut_sym`.
 */
module StaticModel {
  import opened MachineInts
  import opened AnsConfig

  /** A model as the coder uses it; `cdf` and `lut` are derived from `freq` and never stored. */
  datatype Model = Model(L: u32, freq: seq<u16>, cdf: seq<int>, lut: seq<int>)

  function Sum(s: seq<int>): int
  {
    if s == [] then 0 else s[0] + Sum(s[1..])
  }

  predicate NonNegative(s: seq<int>) { forall i :: 0 <= i < |s| ==> s[i] >= 0 }

  lemma {:induction false} SumAppend(a: seq<int>, b: seq<int>)
    ensures Sum(a + b) == Sum(a) + Sum(b)
  {
    if a == [] {
      assert a + b == b;
    } else {
      assert (a + b)[1..] == a[1..] + b;
      SumAppend(a[1..], b);
    }
  }

  lemma SumPrefixStep(a: seq<int>, k: nat)
    requires k < |a|
    ensures Sum(a[..k + 1]) == Sum(a[..k]) + a[k]
  {
    assert a[..k + 1] == a[..k] + [a[k]];
    SumAppend(a[..k], [a[k]]);
  }

  lemma {:induction false} SumNonNegative(s: seq<int>)
    requires NonNegative(s)
    ensures Sum(s) >= 0
  {
    if s != [] { SumNonNegative(s[1..]); }
  }

  /** Every prefix sum of non-negative entries is bounded by the whole sum. */
  lemma SumPrefixLe(a: seq<int>, k: nat)
    requires NonNegative(a) && k <= |a|
    ensures 0 <= Sum(a[..k]) <= Sum(a)
  {
    assert a == a[..k] + a[k..];
    SumAppend(a[..k], a[k..]);
    SumNonNegative(a[..k]);
    SumNonNegative(a[k..]);
  }

  lemma SumEntryLe(a: seq<int>, k: nat)
    requires NonNegative(a) && k < |a|
    ensures Sum(a[..k]) + a[k] <= Sum(a)
  {
    SumPrefixStep(a, k);
    SumPrefixLe(a, k + 1);
  }

  lemma {:induction false} SumUpdate(s: seq<int>, i: nat, v: int)
    requires i < |s|
    ensures Sum(s[i := v]) == Sum(s) - s[i] + v
  {
    if i > 0 {
      assert s[i := v][1..] == s[1..][i - 1 := v];
      SumUpdate(s[1..], i - 1, v);
    }
  }

  /** With every entry at least 1, the sum exceeds the length by at least s[k] - 1. */
  lemma {:induction false} SumExcess(s: seq<int>, k: nat)
    requires forall i :: 0 <= i < |s| ==> s[i] >= 1
    ensures Sum(s) >= |s|
    ensures k < |s| ==> Sum(s) >= |s| + s[k] - 1
  {
    if s != [] {
      SumExcess(s[1..], if k > 0 then k - 1 else 0);
    }
  }

  /** Entries of at least 1 that sum to the length are all exactly 1. */
  lemma AllOnesFromSum(s: seq<int>)
    requires forall i :: 0 <= i < |s| ==> s[i] >= 1
    requires Sum(s) == |s|
    ensures forall i :: 0 <= i < |s| ==> s[i] == 1
  {
    forall i | 0 <= i < |s| ensures s[i] == 1 { SumExcess(s, i); }
  }

  // ---------------------------------------------------------------------------
  // Prefix table and slot table
  // ---------------------------------------------------------------------------

  /**
   * The symbol owning a slot: the s whose range [Sum(freq[..s]), Sum(freq[..s]) + freq[s])
   * contains the slot.
   */
  function Owner(freq: seq<int>, slot: nat): (s: nat)
    requires NonNegative(freq) && slot < Sum(freq)
    ensures s < |freq|
    ensures Sum(freq[..s]) <= slot < Sum(freq[..s]) + freq[s]
  {
    if slot < freq[0] then
      assert freq[..0] == [];
      0
    else
      var r := Owner(freq[1..], slot - freq[0]);
      assert freq[..r + 1] == [freq[0]] + freq[1..][..r];
      SumAppend([freq[0]], freq[1..][..r]);
      assert freq[..r + 1 + 1] == [freq[0]] + freq[1..][..r + 1];
      SumAppend([freq[0]], freq[1..][..r + 1]);
      SumPrefixStep(freq, r + 1);
      1 + r
  }

  /** The ranges of distinct symbols do not overlap, so the owner is the only symbol whose range holds the slot. */
  lemma OwnerUnique(freq: seq<int>, s: nat, slot: nat)
    requires NonNegative(freq) && s < |freq|
    requires Sum(freq[..s]) <= slot < Sum(freq[..s]) + freq[s]
    ensures slot < Sum(freq)
    ensures Owner(freq, slot) == s
  {
    SumEntryLe(freq, s);
    var o := Owner(freq, slot);
    if o < s {
      PrefixMonotone(freq, o + 1, s);
      SumPrefixStep(freq, o);
    } else if o > s {
      PrefixMonotone(freq, s + 1, o);
      SumPrefixStep(freq, s);
    }
  }

  lemma PrefixMonotone(a: seq<int>, i: nat, j: nat)
    requires NonNegative(a) && i <= j <= |a|
    ensures Sum(a[..i]) <= Sum(a[..j])
  {
    assert a[..j] == a[..i] + a[i..j];
    SumAppend(a[..i], a[i..j]);
    SumNonNegative(a[i..j]);
  }

  function Cdf(freq: seq<int>): (cdf: seq<int>)
    ensures |cdf| == |freq|
  {
    seq(|freq|, s requires 0 <= s < |freq| => Sum(freq[..s]))
  }

  /** Slots below the table sum hold their owner; slots above it keep the zero they were resized with. */
  function Lut(L: nat, freq: seq<int>): (lut: seq<int>)
    requires NonNegative(freq)
    ensures |lut| == L
  {
    seq(L, slot requires 0 <= slot < L => if slot < Sum(freq) then ToU16(Owner(freq, slot)) else 0)
  }

  /** The model whose derived tables are the ones rebuilt from `freq`. */
  function Tables(L: u32, freq: seq<u16>): Model
  {
    Model(L, freq, Cdf(freq), Lut(L, freq))
  }

  /**
   * `cdf` is the exclusive prefix sum, and when the table fills L exactly the slot table
   * maps slot to s exactly when cdf[s] <= slot < cdf[s] + freq[s].
   */
  lemma TablesAgree(L: u32, freq: seq<u16>, s: nat, slot: nat)
    requires Sum(freq) == L && |freq| <= TWO_16
    requires s < |freq| && slot < L
    ensures Tables(L, freq).cdf[s] == Sum(freq[..s])
    ensures Tables(L, freq).lut[slot] == s <==> Tables(L, freq).cdf[s] <= slot < Tables(L, freq).cdf[s] + freq[s]
  {
    var o := Owner(freq, slot);
    if Sum(freq[..s]) <= slot < Sum(freq[..s]) + freq[s] {
      OwnerUnique(freq, s, slot);
    }
  }

  /** A table of n frequencies, all equal to 1. */
  function Ones(n: nat): (r: seq<u16>)
    ensures |r| == n
  {
    seq(n, i => 1)
  }

  /** The model every call of build_model ends with. */
  function OnesModel(): Model
  {
    Tables(RANS_L, Ones(ALPHABET))
  }

  lemma {:induction false} SumOnes(n: nat)
    ensures Sum(Ones(n)) == n
  {
    if n > 0 {
      assert Ones(n)[1..] == Ones(n - 1);
      SumOnes(n - 1);
    }
  }

  /** In the all-ones model, symbol s owns exactly slot s. */
  lemma OnesModelShape()
    ensures |OnesModel().freq| == |OnesModel().cdf| == ALPHABET && |OnesModel().lut| == RANS_L
    ensures forall s :: 0 <= s < ALPHABET ==> OnesModel().freq[s] == 1 && OnesModel().cdf[s] == s
    ensures forall slot :: 0 <= slot < RANS_L ==> OnesModel().lut[slot] == slot
    ensures Sum(Ones(ALPHABET)) == RANS_L
  {
    SumOnes(ALPHABET);
    forall s | 0 <= s < ALPHABET ensures Sum(Ones(ALPHABET)[..s]) == s {
      assert Ones(ALPHABET)[..s] == Ones(s);
      SumOnes(s);
    }
    forall slot | 0 <= slot < RANS_L ensures OnesModel().lut[slot] == slot {
      assert Ones(ALPHABET)[..slot] == Ones(slot);
      SumOnes(slot);
      OwnerUnique(Ones(ALPHABET), slot, slot);
    }
  }

  // ---------------------------------------------------------------------------
  // The imperative builders
  // ---------------------------------------------------------------------------

  lemma {:induction false} SumAtMost(s: seq<int>, bound: int)
    requires forall i :: 0 <= i < |s| ==> s[i] <= bound
    ensures Sum(s) <= |s| * bound
  {
    if s != [] { SumAtMost(s[1..], bound); }
  }

  /** Entries of a non-negative table that sums to zero are all zero. */
  lemma ZeroSumAllZero(s: seq<int>)
    requires NonNegative(s) && Sum(s) == 0
    ensures forall i :: 0 <= i < |s| ==> s[i] == 0
  {
    forall i | 0 <= i < |s| ensures s[i] == 0 {
      SumEntryLe(s, i);
      SumPrefixLe(s, i);
    }
  }

  /**
   * The rounding step `max(1, lround(count / total * L))`, taken over the exact
   * rational count * L / total with halves rounded up (the double arithmetic is not modelled).
   */
  function Quantise(count: int, total: int): (q: int)
    requires 0 <= count <= total && total > 0
    ensures 1 <= q <= RANS_L
  {
    var scaled := (2 * count * RANS_L + total) / (2 * total);
    assert scaled <= RANS_L by {
      assert 2 * count * RANS_L <= 2 * total * RANS_L;
      DivBelow(2 * count * RANS_L + total, 2 * total, RANS_L + 1);
    }
    if scaled < 1 then 1 else scaled
  }

  /** std::max_element: the first index holding the largest entry. */
  method MaxElement(a: array<int>) returns (idx: nat)
    requires a.Length > 0
    ensures idx < a.Length
    ensures forall j :: 0 <= j < a.Length ==> a[j] <= a[idx]
    ensures forall j :: 0 <= j < idx ==> a[j] < a[idx]
  {
    idx := 0;
    for j := 1 to a.Length
      invariant idx < j
      invariant forall k :: 0 <= k < j ==> a[k] <= a[idx]
      invariant forall k :: 0 <= k < idx ==> a[k] < a[idx]
    {
      if a[j] > a[idx] { idx := j; }
    }
  }

  /** std::min_element: the first index holding the smallest entry. */
  method MinElement(a: array<int>) returns (idx: nat)
    requires a.Length > 0
    ensures idx < a.Length
    ensures forall j :: 0 <= j < a.Length ==> a[idx] <= a[j]
    ensures forall j :: 0 <= j < idx ==> a[idx] < a[j]
  {
    idx := 0;
    for j := 1 to a.Length
      invariant idx < j
      invariant forall k :: 0 <= k < j ==> a[idx] <= a[k]
      invariant forall k :: 0 <= k < idx ==> a[idx] < a[k]
    {
      if a[j] < a[idx] { idx := j; }
    }
  }

  /**
   * The two correction loops of build_model: take 1 from the first largest entry while the
   * sum exceeds L, then add 1 to the first smallest entry while it is below L. With
   * ALPHABET == L entries of at least 1, the table can only end all ones.
   */
  method Normalise(freq: array<int>, sum0: int) returns (sum: int)
    requires freq.Length == ALPHABET
    requires forall j :: 0 <= j < ALPHABET ==> 1 <= freq[j] <= RANS_L
    requires sum0 == Sum(freq[..])
    modifies freq
    ensures sum == RANS_L
    ensures freq[..] == Ones(ALPHABET)
  {
    sum := sum0;
    while sum > RANS_L
      invariant forall j :: 0 <= j < ALPHABET ==> 1 <= freq[j] <= RANS_L
      invariant sum == Sum(freq[..])
      decreases sum
    {
      var idx := MaxElement(freq);
      SumAtMost(freq[..], freq[idx]);
      if freq[idx] > 1 {
        SumUpdate(freq[..], idx, freq[idx] - 1);
        freq[idx] := freq[idx] - 1;
        sum := sum - 1;
      } else {
        break;
      }
    }
    while sum < RANS_L
      invariant forall j :: 0 <= j < ALPHABET ==> freq[j] >= 1
      invariant sum == Sum(freq[..]) && sum <= RANS_L
      decreases RANS_L - sum
    {
      var idx := MinElement(freq);
      SumUpdate(freq[..], idx, freq[idx] + 1);
      freq[idx] := freq[idx] + 1;
      sum := sum + 1;
    }
    AllOnesFromSum(freq[..]);
    assert freq[..] == Ones(ALPHABET);
  }

  /**
   * The rebuild of `cdf` and `lut_sym` from a frequency table, shared by build_model and
   * load_file: `lut_sym` is resized to L zeros, then each symbol's index is written over
   * its slot range.
   */
  method BuildTables(L: u32, freq: seq<u16>) returns (m: Model)
    requires Sum(freq) <= L
    ensures m == Tables(L, freq)
  {
    var cdf := new int[|freq|];
    var c: int := 0;
    for s := 0 to |freq|
      invariant c == Sum(freq[..s])
      invariant forall j :: 0 <= j < s ==> cdf[j] == Sum(freq[..j])
    {
      cdf[s] := c;
      SumPrefixStep(freq, s);
      c := c + freq[s];
    }
    var prefix := cdf[..];
    assert prefix == Cdf(freq);
    var lut := new int[L](_ => 0);
    SumPrefixLe(freq, 0);
    for s := 0 to |freq|
      invariant Sum(freq[..s]) <= Sum(freq)
      invariant forall slot :: 0 <= slot < L ==>
        lut[slot] == if slot < Sum(freq[..s]) then ToU16(Owner(freq, slot)) else 0
    {
      SumNonNegative(freq[..s]);
      FillSlots(lut, freq, s, prefix[s]);
    }
    assert freq[..|freq|] == freq;
    assert lut[..] == Lut(L, freq);
    m := Model(L, freq, prefix, lut[..]);
  }

  /** The inner loop of the rebuild: symbol s written over its slots [start, start + f). */
  method FillSlots(lut: array<int>, freq: seq<u16>, s: nat, start: nat)
    requires s < |freq| && start == Sum(freq[..s]) && start <= Sum(freq) <= lut.Length
    requires forall slot :: 0 <= slot < lut.Length ==>
      lut[slot] == if slot < start then ToU16(Owner(freq, slot)) else 0
    modifies lut
    ensures Sum(freq[..s + 1]) <= Sum(freq)
    ensures forall slot :: 0 <= slot < lut.Length ==>
      lut[slot] == if slot < Sum(freq[..s + 1]) then ToU16(Owner(freq, slot)) else 0
  {
    var f := freq[s];
    SumEntryLe(freq, s);
    SumPrefixStep(freq, s);
    for i := 0 to f
      invariant forall slot :: 0 <= slot < lut.Length ==>
        lut[slot] == if slot < start + i then ToU16(Owner(freq, slot)) else 0
    {
      OwnerUnique(freq, s, start + i);
      lut[start + i] := ToU16(s);
    }
  }

  /**
   * build_model: histogram with wrapping uint16 counters, the empty-input seed, the rounding
   * step, the correction loops, then the tables. Whatever the histogram, the result is the
   * all-ones model.
   */
  method BuildModel(syms: seq<u16>) returns (m: Model)
    requires forall i :: 0 <= i < |syms| ==> syms[i] < ALPHABET
    ensures m == OnesModel()
  {
    var freq := new int[ALPHABET](_ => 0);
    for i := 0 to |syms|
      invariant forall s :: 0 <= s < ALPHABET ==> 0 <= freq[s] < TWO_16
    {
      freq[syms[i]] := ToU16(freq[syms[i]] + 1);
    }
    var total := 0;
    for s := 0 to ALPHABET
      invariant forall j :: 0 <= j < ALPHABET ==> 0 <= freq[j] < TWO_16
      invariant total == Sum(freq[..s])
    {
      SumPrefixStep(freq[..], s);
      total := total + freq[s];
    }
    assert freq[..ALPHABET] == freq[..];
    if total == 0 {
      ZeroSumAllZero(freq[..]);
      freq[0] := RANS_L;
      total := RANS_L;
    } else {
      forall s | 0 <= s < ALPHABET ensures freq[s] <= total {
        SumEntryLe(freq[..], s);
        SumPrefixLe(freq[..], s);
      }
    }
    var sum := 0;
    for s := 0 to ALPHABET
      invariant forall j :: 0 <= j < s ==> 1 <= freq[j] <= RANS_L
      invariant forall j :: s <= j < ALPHABET ==> 0 <= freq[j] <= total
      invariant sum == Sum(freq[..s])
    {
      freq[s] := Quantise(freq[s], total);
      SumPrefixStep(freq[..], s);
      sum := sum + freq[s];
    }
    assert freq[..ALPHABET] == freq[..];
    sum := Normalise(freq, sum);
    OnesModelShape();
    m := BuildTables(RANS_L, Ones(ALPHABET));
  }
}
