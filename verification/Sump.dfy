/** The SUMP logic analyser of hydrabus_sump.c: the sample ring, its read-back and the
    decoding of the capture sizes. */
module Sump {
  import opened Bytes

  const STATES_LEN: nat := 8192

  // ------------------------------------------------------------- the ring

  function NextSlot(index: nat): nat {
    if index == STATES_LEN - 1 then 0 else index + 1
  }

  /** Slots are left downwards, the lowest one for the highest. */
  function PrevSlot(index: nat): nat {
    if index == 0 then STATES_LEN - 1 else index - 1
  }

  function Back(index: nat, n: nat): nat
    decreases n
  {
    if n == 0 then index else Back(PrevSlot(index), n - 1)
  }

  /** Going down from a slot, the ring holds the last n samples of a history, or all of
      them when it is shorter. */
  predicate HoldsLast<T(==)>(ring: seq<T>, index: nat, history: seq<T>, n: nat)
    requires |ring| == STATES_LEN && index < STATES_LEN
    decreases n
  {
    n == 0 || history == [] ||
    (ring[PrevSlot(index)] == history[|history| - 1]
     && HoldsLast(ring, PrevSlot(index), history[..|history| - 1], n - 1))
  }

  /** Samples in the order of read-back. */
  function ReadBack<T>(ring: seq<T>, index: nat, n: nat): (out: seq<T>)
    requires |ring| == STATES_LEN && index < STATES_LEN
    ensures |out| == n
    decreases n
  {
    if n == 0 then [] else [ring[PrevSlot(index)]] + ReadBack(ring, PrevSlot(index), n - 1)
  }

  /** The last n samples of a history, newest first. */
  function NewestFirst<T>(history: seq<T>, n: nat): (out: seq<T>)
    requires n <= |history|
    ensures |out| == n
    decreases n
  {
    if n == 0 then [] else [history[|history| - 1]] + NewestFirst(history[..|history| - 1], n - 1)
  }

  lemma {:induction false} NewestAt<T>(history: seq<T>, n: nat, i: nat)
    requires i < n <= |history|
    ensures NewestFirst(history, n)[i] == history[|history| - 1 - i]
    decreases n
  {
    if i > 0 {
      NewestAt(history[..|history| - 1], n - 1, i - 1);
    }
  }

  lemma {:induction false} HeldIsRead<T>(ring: seq<T>, index: nat, history: seq<T>, n: nat)
    requires |ring| == STATES_LEN && index < STATES_LEN && n <= |history|
    requires HoldsLast(ring, index, history, n)
    ensures ReadBack(ring, index, n) == NewestFirst(history, n)
    decreases n
  {
    if n > 0 {
      HeldIsRead(ring, PrevSlot(index), history[..|history| - 1], n - 1);
    }
  }

  lemma {:induction false} HoldsFewer<T>(ring: seq<T>, index: nat, history: seq<T>, n: nat, m: nat)
    requires |ring| == STATES_LEN && index < STATES_LEN && HoldsLast(ring, index, history, n) && m <= n
    ensures HoldsLast(ring, index, history, m)
    decreases n
  {
    if m > 0 && history != [] {
      HoldsFewer(ring, PrevSlot(index), history[..|history| - 1], n - 1, m - 1);
    }
  }

  /** How many steps down lead from one slot to another, one at least. */
  function Steps(index: nat, at: nat): int {
    if index > at then index - at else index - at + STATES_LEN
  }

  /** A store leaves alone what is held in fewer steps than lead to it. */
  lemma {:induction false} StoreKeeps<T>(ring: seq<T>, index: nat, history: seq<T>, n: nat, at: nat, x: T)
    requires |ring| == STATES_LEN && index < STATES_LEN && at < STATES_LEN && n < Steps(index, at)
    requires HoldsLast(ring, index, history, n)
    ensures HoldsLast(ring[at := x], index, history, n)
    decreases n
  {
    if n > 0 && history != [] {
      StoreKeeps(ring, PrevSlot(index), history[..|history| - 1], n - 1, at, x);
    }
  }

  /** A sample stored at the index and then passed joins the history, and what the ring
      held stays, up to its size. */
  lemma Pushed<T>(ring: seq<T>, index: nat, history: seq<T>, n: nat, x: T)
    requires |ring| == STATES_LEN && index < STATES_LEN && n < STATES_LEN
    requires HoldsLast(ring, index, history, n)
    ensures HoldsLast(ring[index := x], NextSlot(index), history + [x], n + 1)
  {
    StoreKeeps(ring, index, history, n, index, x);
    assert (history + [x])[..|history|] == history;
  }

  lemma {:induction false} BackIndex(index: nat, n: nat)
    requires index < STATES_LEN && n <= STATES_LEN
    ensures Back(index, n) == if n <= index then index - n else index + STATES_LEN - n
    decreases n
  {
    if n > 0 {
      BackIndex(PrevSlot(index), n - 1);
    }
  }

  lemma {:induction false} ReadBackAt<T>(ring: seq<T>, index: nat, n: nat, i: nat)
    requires |ring| == STATES_LEN && index < STATES_LEN && i < n
    ensures Back(index, i + 1) < STATES_LEN
    ensures ReadBack(ring, index, n)[i] == ring[Back(index, i + 1)]
    decreases n
  {
    if i > 0 {
      ReadBackAt(ring, PrevSlot(index), n - 1, i - 1);
    }
  }

  // ---------------------------------------------------------- the capture

  /** The slots and the index of the next sample. */
  datatype Ring<T> = Ring(slots: seq<T>, index: nat)

  predicate IsRing<T>(r: Ring<T>) {
    |r.slots| == STATES_LEN && r.index < STATES_LEN
  }

  function Stored<T>(r: Ring<T>, x: T): (r1: Ring<T>)
    requires IsRing(r)
    ensures IsRing(r1)
  {
    Ring(r.slots[r.index := x], r.index)
  }

  function Passed<T>(r: Ring<T>): (r1: Ring<T>)
    requires IsRing(r)
    ensures IsRing(r1)
  {
    Ring(r.slots, NextSlot(r.index))
  }

  /** Samples stored one behind the other. */
  function Pushes<T>(r: Ring<T>, samples: seq<T>): (r1: Ring<T>)
    requires IsRing(r)
    ensures IsRing(r1)
  {
    if samples == [] then r
    else Passed(Stored(Pushes(r, samples[..|samples| - 1]), samples[|samples| - 1]))
  }

  /** A sample triggers when it agrees with the trigger value in the masked bits. */
  predicate Matches(x: bv16, value: bv32, mask: bv32) {
    ((x as bv32) ^ value) & mask == 0
  }

  /** That is: under the mask it is the trigger value. */
  lemma MatchesMasked(x: bv16, value: bv32, mask: bv32)
    ensures Matches(x, value, mask) <==> Agrees(x, value, mask)
  {
    if Matches(x, value, mask) {
      MaskedMatch(x, value, mask);
    } else {
      MaskedDiffer(x, value, mask);
    }
  }

  lemma MaskedMatch(x: bv16, value: bv32, mask: bv32)
    requires ((x as bv32) ^ value) & mask == 0
    ensures (x as bv32) & mask == value & mask
  {
  }

  lemma MaskedDiffer(x: bv16, value: bv32, mask: bv32)
    requires ((x as bv32) ^ value) & mask != 0
    ensures (x as bv32) & mask != value & mask
  {
  }

  function Trigger(value: bv32, mask: bv32): bv16 -> bool {
    x => Matches(x, value, mask)
  }

  predicate NoHit<T>(samples: seq<T>, hit: T -> bool) {
    samples == [] || (!hit(samples[|samples| - 1]) && NoHit(samples[..|samples| - 1], hit))
  }

  /** The sample at m is the first hit, and as many follow it as the delay counts off; the
      hit itself is dropped. */
  predicate Capture<T>(stream: seq<T>, m: nat, delay: nat, hit: T -> bool) {
    m + 1 + delay <= |stream| && hit(stream[m]) && NoHit(stream[..m], hit)
  }

  /** The sample at m is the first that is the trigger value under the mask. */
  ghost predicate FirstMatch(stream: seq<bv16>, m: nat, value: bv32, mask: bv32) {
    m < |stream| && Agrees(stream[m], value, mask) && forall k :: 0 <= k < m ==> !Agrees(stream[k], value, mask)
  }

  predicate Agrees(x: bv16, value: bv32, mask: bv32) {
    (x as bv32) & mask == value & mask
  }

  lemma CaptureMatches(stream: seq<bv16>, m: nat, delay: nat, value: bv32, mask: bv32)
    requires Capture(stream, m, delay, Trigger(value, mask))
    ensures FirstMatch(stream, m, value, mask)
  {
    MatchesMasked(stream[m], value, mask);
    forall k | 0 <= k < m ensures !Agrees(stream[k], value, mask) {
      NoEarlierHit(stream[..m], k, Trigger(value, mask));
      MatchesMasked(stream[k], value, mask);
    }
  }

  /** The ring when the trigger is met at m: the sample there is stored and not passed. */
  function Waited<T>(r: Ring<T>, stream: seq<T>, m: nat): (r1: Ring<T>)
    requires IsRing(r) && m < |stream|
    ensures IsRing(r1)
  {
    Stored(Pushes(r, stream[..m]), stream[m])
  }

  /** And after the delay samples behind it. */
  function Captured<T>(r: Ring<T>, stream: seq<T>, m: nat, delay: nat): (r1: Ring<T>)
    requires IsRing(r) && m + 1 + delay <= |stream|
    ensures IsRing(r1)
  {
    Pushes(Waited(r, stream, m), stream[m + 1..m + 1 + delay])
  }

  function Retained<T>(stream: seq<T>, m: nat, delay: nat): (h: seq<T>)
    requires m + 1 + delay <= |stream|
    ensures |h| == m + delay
  {
    stream[..m] + stream[m + 1..m + 1 + delay]
  }

  /** How many of the retained samples the ring can give back. */
  function Capacity(delay: nat): nat {
    if delay > 0 then STATES_LEN else STATES_LEN - 1
  }

  /** Every sample pushed joins the history that the ring holds, up to its size. */
  lemma {:induction false} PushesHold<T>(r: Ring<T>, history: seq<T>, samples: seq<T>)
    requires IsRing(r) && HoldsLast(r.slots, r.index, history, STATES_LEN - 1)
    ensures var r1 := Pushes(r, samples); HoldsLast(r1.slots, r1.index, history + samples, Capacity(|samples|))
    decreases |samples|
  {
    if samples == [] {
      assert history + samples == history;
    } else {
      var n := |samples| - 1;
      PushesHold(r, history, samples[..n]);
      var r1 := Pushes(r, samples[..n]);
      HoldsFewer(r1.slots, r1.index, history + samples[..n], Capacity(n), STATES_LEN - 1);
      Pushed(r1.slots, r1.index, history + samples[..n], STATES_LEN - 1, samples[n]);
      LastJoins(history, samples);
    }
  }

  lemma LastJoins<T>(history: seq<T>, samples: seq<T>)
    requires samples != []
    ensures history + samples[..|samples| - 1] + [samples[|samples| - 1]] == history + samples
  {
  }

  /** So after a capture the ring holds the retained samples, as many as fit, and without a
      delay the match is still in the slot of the oldest. */
  lemma CapturedHolds<T>(r: Ring<T>, stream: seq<T>, m: nat, delay: nat)
    requires IsRing(r) && m + 1 + delay <= |stream|
    ensures var c := Captured(r, stream, m, delay);
      && HoldsLast(c.slots, c.index, Retained(stream, m, delay), Capacity(delay))
      && (delay == 0 ==> c.slots[c.index] == stream[m])
  {
    var r1 := Pushes(r, stream[..m]);
    PushesHold(r, [], stream[..m]);
    assert [] + stream[..m] == stream[..m];
    HoldsFewer(r1.slots, r1.index, stream[..m], Capacity(m), STATES_LEN - 1);
    StoreKeeps(r1.slots, r1.index, stream[..m], STATES_LEN - 1, r1.index, stream[m]);
    PushesHold(Waited(r, stream, m), stream[..m], stream[m + 1..m + 1 + delay]);
  }

  /** One sample on the wire. The format strings end at their first zero byte, so the
      padding of the protocol is never sent. */
  function Sent(x: bv16, channels: nat): seq<byte> {
    var low, high: byte := (x & 0xff) as int, (x >> 8) as int;
    if channels == 1 then [low] else if channels == 2 then [high] else if channels == 3 then [low, high] else []
  }

  /** Of a sample of two bytes the low one goes out for the first channel group, the high
      one for the second, and both in this order for the two. */
  lemma SentBytes(low: bv8, high: bv8)
    ensures var x := ((high as bv16) << 8) | (low as bv16);
      && Sent(x, 1) == [low as int] && Sent(x, 2) == [high as int] && Sent(x, 3) == [low as int, high as int]
  {
    LowByteOf(low, high);
    HighByteOf(low, high);
  }

  lemma LowByteOf(low: bv8, high: bv8)
    ensures (((high as bv16) << 8) | (low as bv16)) & 0xff == low as bv16
  {
  }

  lemma HighByteOf(low: bv8, high: bv8)
    ensures (((high as bv16) << 8) | (low as bv16)) >> 8 == high as bv16
  {
  }

  function Encoder(channels: nat): bv16 -> seq<byte> {
    x => Sent(x, channels)
  }

  function SentAll<T>(xs: seq<T>, sent: T -> seq<byte>): seq<byte> {
    if xs == [] then [] else sent(xs[0]) + SentAll(xs[1..], sent)
  }

  lemma ReadStep<T>(ring: seq<T>, index: nat, n: nat, sent: T -> seq<byte>, out: seq<byte>)
    requires |ring| == STATES_LEN && index < STATES_LEN && n > 0
    ensures out + SentAll(ReadBack(ring, index, n), sent)
      == (out + sent(ring[PrevSlot(index)])) + SentAll(ReadBack(ring, PrevSlot(index), n - 1), sent)
  {
    var rest := ReadBack(ring, index, n);
    assert rest[1..] == ReadBack(ring, PrevSlot(index), n - 1);
    JoinSent(out, sent(rest[0]), SentAll(rest[1..], sent));
  }

  lemma JoinSent(a: seq<byte>, b: seq<byte>, c: seq<byte>)
    ensures a + (b + c) == (a + b) + c
  {
  }

  lemma NextHit<T>(stream: seq<T>, m: nat, last: nat, hit: T -> bool)
    requires m <= last < |stream| && hit(stream[last]) && !hit(stream[m]) && NoHit(stream[..m], hit)
    ensures m < last && NoHit(stream[..m + 1], hit) && stream[..m + 1] == stream[..m] + [stream[m]]
  {
    assert stream[..m + 1][..m] == stream[..m];
  }

  lemma OneMore<T>(r: Ring<T>, samples: seq<T>, i: nat)
    requires IsRing(r) && i < |samples|
    ensures Pushes(r, samples[..i + 1]) == Passed(Stored(Pushes(r, samples[..i]), samples[i]))
  {
    assert samples[..i + 1][..i] == samples[..i];
  }

  class Analyzer {
    const buffer: array<bv16>
    var index: nat
    var trigger_value: bv32
    var trigger_mask: bv32
    var delay_count: nat
    var read_count: nat
    var channels: nat

    ghost predicate Valid()
      reads this
    {
      buffer.Length == STATES_LEN && index < STATES_LEN
    }

    constructor ()
      ensures Valid() && fresh(buffer) && index == 0
    {
      buffer := new bv16[STATES_LEN](_ => 0);
      index, trigger_value, trigger_mask, delay_count, read_count, channels := 0, 0, 0, 0, 0, 0;
    }

    ghost function Now(): (r: Ring<bv16>)
      reads this, buffer
    {
      Ring(buffer[..], index)
    }

    method Advance()
      requires Valid()
      modifies this`index
      ensures Valid() && Now() == Passed(old(Now()))
    {
      index := (index + 1) % STATES_LEN;
    }

    /** The loop that waits for the trigger. */
    method WaitTrigger(stream: seq<bv16>, ghost last: nat) returns (m: nat)
      requires Valid() && last < |stream| && Trigger(trigger_value, trigger_mask)(stream[last])
      modifies this`index, buffer
      ensures Valid() && m <= last && Capture(stream, m, 0, Trigger(trigger_value, trigger_mask))
      ensures Now() == Waited(old(Now()), stream, m)
    {
      m := 0;
      var hit := Trigger(trigger_value, trigger_mask);
      while true
        invariant Valid() && 0 <= m <= last && NoHit(stream[..m], hit)
        invariant Now() == Pushes(old(Now()), stream[..m])
        decreases last - m
      {
        buffer[index] := stream[m];
        assert Now() == Waited(old(Now()), stream, m);
        if hit(stream[m]) {
          break;
        }
        NextHit(stream, m, last, hit);
        OneMore(old(Now()), stream, m);
        Advance();
        m := m + 1;
      }
    }

    /** The loop that counts off the delay. */
    method CountDelay(samples: seq<bv16>)
      requires Valid()
      modifies this`index, buffer
      ensures Valid() && Now() == Pushes(old(Now()), samples)
    {
      var left := |samples|;
      var i := 0;
      while left > 0
        invariant Valid() && 0 <= i <= |samples| && left == |samples| - i
        invariant Now() == Pushes(old(Now()), samples[..i])
        decreases left
      {
        OneMore(old(Now()), samples, i);
        buffer[index] := samples[i];
        assert Now() == Stored(Pushes(old(Now()), samples[..i]), samples[i]);
        Advance();
        left, i := left - 1, i + 1;
      }
      assert samples[..i] == samples;
    }

    method GetSamples(stream: seq<bv16>, ghost last: nat) returns (m: nat)
      requires Valid() && last + 1 + delay_count <= |stream| && Trigger(trigger_value, trigger_mask)(stream[last])
      modifies this`index, buffer
      ensures Valid() && Capture(stream, m, delay_count, Trigger(trigger_value, trigger_mask))
      ensures FirstMatch(stream, m, trigger_value, trigger_mask)
      ensures Now() == Captured(old(Now()), stream, m, delay_count)
    {
      m := WaitTrigger(stream, last);
      CaptureMatches(stream, m, 0, trigger_value, trigger_mask);
      CountDelay(stream[m + 1..m + 1 + delay_count]);
    }

    method ReadOut() returns (out: seq<byte>)
      requires Valid()
      modifies this`index, this`read_count
      ensures Valid() && read_count == 0
      ensures out == SentAll(ReadBack(buffer[..], old(index), old(read_count)), Encoder(channels))
    {
      out := [];
      ghost var ring := buffer[..];
      var sent := Encoder(channels);
      ghost var all := SentAll(ReadBack(ring, index, read_count), sent);
      while read_count > 0
        invariant Valid() && buffer[..] == ring
        invariant out + SentAll(ReadBack(ring, index, read_count), sent) == all
        decreases read_count
      {
        ReadStep(ring, index, read_count, sent, out);
        index := if index == 0 then STATES_LEN - 1 else index - 1;
        out := out + sent(buffer[index]);
        read_count := read_count - 1;
      }
    }

    /** SUMP_RUN: a capture from slot zero on, and its read-back. */
    method Run(stream: seq<bv16>, ghost last: nat) returns (out: seq<byte>, ghost m: nat)
      requires Valid() && last + 1 + delay_count <= |stream| && Trigger(trigger_value, trigger_mask)(stream[last])
      modifies this`index, this`read_count, buffer
      ensures Valid() && Capture(stream, m, delay_count, Trigger(trigger_value, trigger_mask))
      ensures FirstMatch(stream, m, trigger_value, trigger_mask)
      ensures var c := Captured(Ring(old(buffer[..]), 0), stream, m, delay_count);
        buffer[..] == c.slots && out == SentAll(ReadBack(c.slots, c.index, old(read_count)), Encoder(channels))
    {
      index := 0;
      m := GetSamples(stream, last);
      out := ReadOut();
    }

    /** SUMP_CNT. */
    method SetCounts(p: seq<byte>)
      requires |p| == 4
      modifies this`delay_count, this`read_count
      ensures delay_count == 4 * (p[2] as nat + 0x100 * (p[3] as nat))
      ensures read_count == 4 * (p[0] as nat + 0x100 * (p[1] as nat) + 1)
    {
      delay_count := p[3];
      delay_count := delay_count * 0x100;
      delay_count := delay_count + p[2];
      delay_count := delay_count * 4;
      read_count := p[1];
      read_count := read_count * 0x100;
      read_count := read_count + p[0];
      read_count := read_count + 1;
      read_count := read_count * 4;
    }
  }

  /** Read-back of n samples after a capture is the retained ones, newest first. */
  predicate ReadsBack<T(==)>(r: Ring<T>, stream: seq<T>, m: nat, delay: nat, n: nat)
    requires IsRing(r) && m + 1 + delay <= |stream| && n <= m + delay
  {
    var c := Captured(r, stream, m, delay);
    ReadBack(c.slots, c.index, n) == NewestFirst(Retained(stream, m, delay), n)
  }

  /** It is, up to the samples retained and the capacity of the ring. */
  lemma NewestComeBack<T>(r: Ring<T>, stream: seq<T>, m: nat, delay: nat, n: nat)
    requires IsRing(r) && m + 1 + delay <= |stream| && n <= m + delay && n <= Capacity(delay)
    ensures ReadsBack(r, stream, m, delay, n)
  {
    var c := Captured(r, stream, m, delay);
    CapturedHolds(r, stream, m, delay);
    HoldsFewer(c.slots, c.index, Retained(stream, m, delay), Capacity(delay), n);
    HeldIsRead(c.slots, c.index, Retained(stream, m, delay), n);
  }

  // --------------------------------------------- beyond what the ring holds

  /** With no delay the slot of the oldest sample holds the match, which was never
      retained: reading that far meets it among samples that do not match. */
  lemma MatchReadBack<T>(r: Ring<T>, stream: seq<T>, m: nat, hit: T -> bool, n: nat)
    requires IsRing(r) && Capture(stream, m, 0, hit) && STATES_LEN <= n <= m
    ensures !ReadsBack(r, stream, m, 0, n)
  {
    var c := Captured(r, stream, m, 0);
    CapturedHolds(r, stream, m, 0);
    NoEarlierHit(stream[..m], m - STATES_LEN, hit);
    OldestDiffers(c.slots, c.index, stream, m, n, STATES_LEN);
  }

  lemma OldestDiffers<T>(ring: seq<T>, index: nat, stream: seq<T>, m: nat, n: nat, size: nat)
    requires |ring| == STATES_LEN && index < STATES_LEN && size == STATES_LEN <= n <= m < |stream|
    requires ring[index] != stream[..m][m - size]
    ensures ReadBack(ring, index, n) != NewestFirst(Retained(stream, m, 0), n)
  {
    OldestRead(ring, index, n, size);
    OldestRetained(stream, m, n, size);
  }

  lemma OldestRead<T>(ring: seq<T>, index: nat, n: nat, size: nat)
    requires |ring| == STATES_LEN && index < STATES_LEN && size == STATES_LEN <= n
    ensures ReadBack(ring, index, n)[size - 1] == ring[index]
  {
    ReadBackAt(ring, index, n, size - 1);
    BackIndex(index, size);
  }

  lemma OldestRetained<T>(stream: seq<T>, m: nat, n: nat, size: nat)
    requires 1 <= size <= n <= m < |stream|
    ensures NewestFirst(Retained(stream, m, 0), n)[size - 1] == stream[..m][m - size]
  {
    NewestAt(Retained(stream, m, 0), n, size - 1);
    RetainedFront(stream, m, 0, m - size);
  }

  lemma RetainedFront<T>(stream: seq<T>, m: nat, delay: nat, k: nat)
    requires m + 1 + delay <= |stream| && k < m
    ensures Retained(stream, m, delay)[k] == stream[k]
  {
  }

  lemma {:induction false} NoEarlierHit<T>(samples: seq<T>, k: nat, hit: T -> bool)
    requires NoHit(samples, hit) && k < |samples|
    ensures !hit(samples[k])
    decreases |samples|
  {
    if k < |samples| - 1 {
      NoEarlierHit(samples[..|samples| - 1], k, hit);
    }
  }

  /** Past the size of the ring read-back repeats itself. */
  lemma ReadBackRepeats<T>(ring: seq<T>, index: nat, n: nat, i: nat)
    requires |ring| == STATES_LEN && index < STATES_LEN && i + STATES_LEN < n
    ensures ReadBack(ring, index, n)[i + STATES_LEN] == ReadBack(ring, index, n)[i]
  {
    ReadBackAt(ring, index, n, i);
    ReadBackAt(ring, index, n, i + STATES_LEN);
    BackTwice(index, STATES_LEN, i + 1);
    BackIndex(index, STATES_LEN);
  }

  lemma {:induction false} BackTwice(index: nat, n: nat, k: nat)
    ensures Back(Back(index, n), k) == Back(index, n + k)
    decreases n
  {
    if n > 0 {
      BackTwice(PrevSlot(index), n - 1, k);
    }
  }

  /** So more than the ring holds is newest first only for a signal that repeats too. */
  lemma TooManyRead<T>(ring: seq<T>, index: nat, history: seq<T>, n: nat, i: nat)
    requires |ring| == STATES_LEN && index < STATES_LEN && i + STATES_LEN < n <= |history|
    requires ReadBack(ring, index, n) == NewestFirst(history, n)
    ensures history[|history| - 1 - i] == history[|history| - 1 - i - STATES_LEN]
  {
    ReadBackRepeats(ring, index, n, i);
    NewestAt(history, n, i);
    NewestAt(history, n, i + STATES_LEN);
  }

  function Repeat<T>(x: T, n: nat): (s: seq<T>)
    ensures |s| == n && forall k :: 0 <= k < n ==> s[k] == x
  {
    seq(n, _ => x)
  }

  /** A stream that is captured at m: one value, but the match and the last sample. */
  function Marked<T>(x: T, y: T, m: nat, delay: nat): (s: seq<T>)
    ensures |s| == m + 1 + delay
  {
    if delay == 0 then Repeat(x, m) + [y] else Repeat(x, m) + [y] + Repeat(x, delay - 1) + [y]
  }

  lemma {:induction false} NoneHits<T>(x: T, n: nat, hit: T -> bool)
    requires n > 0 ==> !hit(x)
    ensures NoHit(Repeat(x, n), hit)
    decreases n
  {
    if n > 0 {
      NoneHits(x, n - 1, hit);
      assert Repeat(x, n)[..n - 1] == Repeat(x, n - 1);
    }
  }

  lemma MarkedIsCaptured<T>(x: T, y: T, m: nat, delay: nat, hit: T -> bool)
    requires hit(y) && (m > 0 ==> !hit(x))
    ensures Capture(Marked(x, y, m, delay), m, delay, hit)
  {
    assert Marked(x, y, m, delay)[..m] == Repeat(x, m);
    NoneHits(x, m, hit);
  }

  lemma MarkedRetained<T>(x: T, y: T, m: nat, delay: nat)
    requires delay > 0
    ensures Retained(Marked(x, y, m, delay), m, delay) == Repeat(x, m + delay - 1) + [y]
  {
    var s := Marked(x, y, m, delay);
    assert s[..m] == Repeat(x, m);
    assert s[m + 1..m + 1 + delay] == Repeat(x, delay - 1) + [y];
  }

  lemma MarkedIsMisread<T>(r: Ring<T>, x: T, y: T, m: nat, delay: nat, hit: T -> bool, n: nat)
    requires IsRing(r) && hit(y) && x != y && (m > 0 ==> !hit(x)) && Capacity(delay) < n <= m + delay
    ensures !ReadsBack(r, Marked(x, y, m, delay), m, delay, n)
  {
    var s := Marked(x, y, m, delay);
    MarkedIsCaptured(x, y, m, delay, hit);
    if delay == 0 {
      MatchReadBack(r, s, m, hit, n);
    } else {
      MarkedRetained(x, y, m, delay);
      var c, h := Captured(r, s, m, delay), Retained(s, m, delay);
      assert h[|h| - 1] == y && h[|h| - 1 - STATES_LEN] == x;
      if ReadsBack(r, s, m, delay, n) {
        TooManyRead(c.slots, c.index, h, n, 0);
        assert false;
      }
    }
  }

  /** For a place of the match, a delay and a number of samples to read that were retained:
      read-back is the retained samples, newest first, for every stream captured there
      exactly when the number is within the capacity of the ring. */
  lemma ReadsBackExactly<T(!new)>(r: Ring<T>, m: nat, delay: nat, n: nat, hit: T -> bool, x: T, y: T)
    requires IsRing(r) && n <= m + delay && hit(y) && x != y && (m > 0 ==> !hit(x))
    ensures (forall stream: seq<T> | Capture(stream, m, delay, hit) :: ReadsBack(r, stream, m, delay, n))
      <==> n <= Capacity(delay)
  {
    if n <= Capacity(delay) {
      forall stream: seq<T> | Capture(stream, m, delay, hit) ensures ReadsBack(r, stream, m, delay, n) {
        NewestComeBack(r, stream, m, delay, n);
      }
    } else {
      MarkedIsCaptured(x, y, m, delay, hit);
      MarkedIsMisread(r, x, y, m, delay, hit, n);
    }
  }
}
