/** The 64-bit cycle counter that bsp.c keeps over the processor's 32-bit one. */
module CycleCounter {

  const WORD: nat := 0x1_0000_0000
  const DOUBLE: nat := 0x1_0000_0000_0000_0000

  class Counter {
    /** The bits of cyclecounter64; both functions add modulo 2^64, the one through a
        signed copy. */
    var cyclecounter64: nat

    ghost predicate Valid()
      reads this
    {
      cyclecounter64 < DOUBLE
    }

    constructor ()
      ensures Valid() && cyclecounter64 == 0
    {
      cyclecounter64 := 0;
    }

    /** bsp_get_cyclecounter64, interrupts being disabled around it. */
    method Get(cyccnt: nat) returns (r: nat)
      requires Valid() && cyccnt < WORD
      modifies this
      ensures Valid() && r == cyclecounter64
      ensures r % WORD == cyccnt && (r - old(cyclecounter64)) % DOUBLE < WORD
    {
      var s: int := Signed(cyclecounter64);
      var low := s % WORD;
      SignedLow(cyclecounter64);
      s := Signed((s + (cyccnt - low) % WORD) % DOUBLE);
      SignedSum(cyclecounter64, (cyccnt - low) % WORD);
      AdvancedIsOnly(cyclecounter64, cyccnt, Advanced(cyclecounter64, cyccnt));
      cyclecounter64 := s % DOUBLE;
      r := s % DOUBLE;
    }

    /** bsp_get_cyclecounter64I. */
    method GetI(cyccnt: nat) returns (r: nat)
      requires Valid() && cyccnt < WORD
      modifies this
      ensures Valid() && r == cyclecounter64
      ensures r % WORD == cyccnt && (r - old(cyclecounter64)) % DOUBLE < WORD
    {
      AdvancedIsOnly(cyclecounter64, cyccnt, Advanced(cyclecounter64, cyccnt));
      cyclecounter64 := (cyclecounter64 + (cyccnt - cyclecounter64 % WORD) % WORD) % DOUBLE;
      r := cyclecounter64;
    }
  }

  /** The bits of a 64-bit word read as a signed number. */
  function Signed(x: nat): int {
    if x < DOUBLE / 2 then x else x - DOUBLE
  }

  lemma SignedLow(x: nat)
    requires x < DOUBLE
    ensures Signed(x) % WORD == x % WORD
  {
    assert DOUBLE == WORD * WORD;
  }

  lemma SignedSum(x: nat, y: nat)
    requires x < DOUBLE && y < WORD
    ensures Signed((Signed(x) + y) % DOUBLE) % DOUBLE == (x + y) % DOUBLE
  {
  }

  /** The saved count moved on to where its low half is the processor's count. */
  function Advanced(saved: nat, cyccnt: nat): nat {
    (saved + (cyccnt - saved % WORD) % WORD) % DOUBLE
  }

  /** It is the only one with that low half less than 2^32 behind the saved one, modulo
      2^64. */
  lemma AdvancedIsOnly(saved: nat, cyccnt: nat, r: nat)
    requires saved < DOUBLE && cyccnt < WORD && r < DOUBLE
    ensures r == Advanced(saved, cyccnt) <==> r % WORD == cyccnt && (r - saved) % DOUBLE < WORD
  {
    var gap := (cyccnt - saved % WORD) % WORD;
    AdvancedLow(saved, cyccnt);
    if r % WORD == cyccnt && (r - saved) % DOUBLE < WORD {
      SameGap(saved, r, (r - saved) % DOUBLE);
    }
  }

  lemma AdvancedLow(saved: nat, cyccnt: nat)
    requires saved < DOUBLE && cyccnt < WORD
    ensures var r := Advanced(saved, cyccnt); r < DOUBLE && r % WORD == cyccnt && (r - saved) % DOUBLE < WORD
  {
    var gap := (cyccnt - saved % WORD) % WORD;
    SameLow(saved + gap);
    LowSum(saved, cyccnt);
    assert (saved + gap) % DOUBLE - saved == gap || (saved + gap) % DOUBLE - saved == gap - DOUBLE;
  }

  lemma LowSum(saved: nat, cyccnt: nat)
    requires cyccnt < WORD
    ensures (saved + (cyccnt - saved % WORD) % WORD) % WORD == cyccnt
  {
  }

  lemma SameGap(saved: nat, r: nat, gap: nat)
    requires saved < DOUBLE && r < DOUBLE && gap == (r - saved) % DOUBLE < WORD
    ensures gap == (r % WORD - saved % WORD) % WORD && r == (saved + gap) % DOUBLE
  {
    GapBack(saved, r, gap);
    SameLow(saved + gap);
    LowGap(saved, gap);
  }

  lemma GapBack(saved: nat, r: nat, gap: nat)
    requires saved < DOUBLE && r < DOUBLE && gap == (r - saved) % DOUBLE
    ensures r == (saved + gap) % DOUBLE
  {
    assert r == saved + gap || r == saved + gap - DOUBLE;
  }

  lemma SameLow(last: nat)
    ensures last % DOUBLE % WORD == last % WORD
  {
    assert last % DOUBLE == last - DOUBLE * (last / DOUBLE);
    assert DOUBLE == WORD * WORD;
  }

  lemma LowGap(last: nat, gap: nat)
    ensures ((last + gap) % WORD - last % WORD) % WORD == gap % WORD
  {
  }

  /** A multiple of 2^64 is invisible, a smaller multiple of 2^32 is not. */
  lemma Visible(x: nat, a: nat, b: nat)
    requires b < WORD
    ensures (x + WORD * b + DOUBLE * a) % DOUBLE == x % DOUBLE <==> b == 0
  {
    assert (x + WORD * b + DOUBLE * a) % DOUBLE == (x + WORD * b) % DOUBLE;
  }

  lemma GapParts(gap: nat)
    ensures gap == gap % WORD + WORD * (gap / WORD % WORD) + DOUBLE * (gap / WORD / WORD)
  {
  }

  /** The saved count moved on is right again, modulo 2^64, exactly when the cycles passed
      are fewer than 2^32, or that many above a multiple of 2^64. */
  lemma TrueCount(last: nat, gap: nat)
    ensures Advanced(last % DOUBLE, (last + gap) % WORD) == (last + gap) % DOUBLE <==> gap / WORD % WORD == 0
    ensures gap < WORD ==> gap / WORD % WORD == 0
  {
    AdvancedBy(last, gap);
    GapParts(gap);
    Visible(last + gap % WORD, gap / WORD / WORD, gap / WORD % WORD);
  }

  lemma AdvancedBy(last: nat, gap: nat)
    ensures Advanced(last % DOUBLE, (last + gap) % WORD) == (last + gap % WORD) % DOUBLE
  {
    SameLow(last);
    LowGap(last, gap);
    SumLow(last, gap % WORD);
  }

  lemma SumLow(x: nat, y: nat)
    ensures (x % DOUBLE + y) % DOUBLE == (x + y) % DOUBLE
  {
  }

  // ----------------------------------------------------------------- runs

  /** What calls at the given times return, whichever of the two functions is called. */
  function Readings(saved: nat, times: seq<nat>): (rs: seq<nat>)
    ensures |rs| == |times|
    decreases |times|
  {
    if times == [] then []
    else
      var r := Advanced(saved, times[0] % WORD);
      [r] + Readings(r, times[1..])
  }

  /** Calls follow each other in less than 2^32 cycles. */
  predicate Frequent(last: nat, times: seq<nat>)
    decreases |times|
  {
    times == [] || (last <= times[0] < last + WORD && Frequent(times[0], times[1..]))
  }

  lemma {:induction false} ReadingsAreTrue(last: nat, times: seq<nat>, k: nat)
    requires Frequent(last, times) && k < |times|
    ensures Readings(last % DOUBLE, times)[k] == times[k] % DOUBLE
    decreases |times|
  {
    TrueCount(last, times[0] - last);
    if k > 0 {
      ReadingsAreTrue(times[0], times[1..], k - 1);
    }
  }

  method Reading(c: Counter, cyccnt: nat, plain: bool) returns (r: nat)
    requires c.Valid() && cyccnt < WORD
    modifies c
    ensures c.Valid() && r == c.cyclecounter64 == Advanced(old(c.cyclecounter64), cyccnt)
  {
    ghost var saved := c.cyclecounter64;
    if plain {
      r := c.Get(cyccnt);
    } else {
      r := c.GetI(cyccnt);
    }
    AdvancedIsOnly(saved, cyccnt, r);
  }

  /** The two functions called in any order. */
  method Mixed(c: Counter, times: seq<nat>, plain: seq<bool>) returns (rs: seq<nat>)
    requires c.Valid() && |plain| == |times|
    modifies c
    ensures c.Valid() && rs == Readings(old(c.cyclecounter64), times)
  {
    rs := [];
    var i := 0;
    ghost var all := Readings(c.cyclecounter64, times);
    assert times[0..] == times;
    while i < |times|
      invariant 0 <= i <= |times| && c.Valid()
      invariant rs + Readings(c.cyclecounter64, times[i..]) == all
    {
      var r;
      ReadingsStep(c.cyclecounter64, times[i..], rs);
      assert times[i..][1..] == times[i + 1..];
      r := Reading(c, times[i] % WORD, plain[i]);
      rs, i := rs + [r], i + 1;
    }
    assert rs + [] == rs;
  }

  lemma ReadingsStep(saved: nat, times: seq<nat>, rs: seq<nat>)
    requires times != []
    ensures var r := Advanced(saved, times[0] % WORD);
      rs + Readings(saved, times) == (rs + [r]) + Readings(r, times[1..])
  {
  }
}