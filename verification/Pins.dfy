/** The bit-banging layer of hydrabus_mode_jtag.c: three output pins, one input pin,
    and whatever circuit hangs on them. */
module Pins {
  import opened Bits
  import opened Words

  /** TMS and TDI as they stand at a rising edge of TCK. */
  datatype Pulse = Pulse(tms: bool, tdi: bool)

  /** Any circuit: what the two edges of TCK do to its state, and the TDO level. */
  datatype Env<!S> = Env(rise: (S, Pulse) -> S, fall: S -> S, tdo: S -> bool)

  /** The state after one full TCK pulse. */
  function Pulsed<S>(e: Env<S>, s: S, p: Pulse): S {
    e.fall(e.rise(s, p))
  }

  /** The TDO level between the two edges of a pulse. */
  function Seen<S>(e: Env<S>, s: S, p: Pulse): bool {
    e.tdo(e.rise(s, p))
  }

  /** The state after a train of pulses, and the TDO levels seen meanwhile. */
  function Drive<S>(e: Env<S>, s: S, ps: seq<Pulse>): S
    decreases ps
  {
    if ps == [] then s else Drive(e, Pulsed(e, s, ps[0]), ps[1..])
  }

  function Sampled<S>(e: Env<S>, s: S, ps: seq<Pulse>): (bits: seq<bool>)
    ensures |bits| == |ps|
    decreases ps
  {
    if ps == [] then [] else [Seen(e, s, ps[0])] + Sampled(e, Pulsed(e, s, ps[0]), ps[1..])
  }

  /** The same for n equal pulses. */
  function After<S>(e: Env<S>, s: S, p: Pulse, n: nat): S
    decreases n
  {
    if n == 0 then s else Pulsed(e, After(e, s, p, n - 1), p)
  }

  function Reads<S>(e: Env<S>, s: S, p: Pulse, n: nat): (bits: seq<bool>)
    ensures |bits| == n
    decreases n
  {
    if n == 0 then [] else Reads(e, s, p, n - 1) + [Seen(e, After(e, s, p, n - 1), p)]
  }

  lemma {:induction false} AfterSplit<S>(e: Env<S>, s: S, p: Pulse, a: nat, b: nat)
    ensures After(e, After(e, s, p, a), p, b) == After(e, s, p, a + b)
    decreases b
  {
    if b > 0 {
      AfterSplit(e, s, p, a, b - 1);
    }
  }

  /** What holds of a state and goes from each pulse to the next holds after any number. */
  lemma {:induction false} AfterKeeps<S(!new)>(e: Env<S>, s: S, p: Pulse, inv: (nat, S) -> bool, n: nat)
    requires inv(0, s) && forall k: nat, t: S :: inv(k, t) ==> inv(k + 1, Pulsed(e, t, p))
    ensures inv(n, After(e, s, p, n))
    decreases n
  {
    if n > 0 {
      AfterKeeps(e, s, p, inv, n - 1);
    }
  }

  /** The j-th level read is the one seen after j pulses. */
  lemma {:induction false} ReadsAt<S>(e: Env<S>, s: S, p: Pulse, n: nat, j: nat)
    requires j < n
    ensures Reads(e, s, p, n)[j] == Seen(e, After(e, s, p, j), p)
    decreases n
  {
    if j < n - 1 {
      ReadsAt(e, s, p, n - 1, j);
    }
  }

  lemma ReadsFrom<S>(e: Env<S>, s: S, p: Pulse, m: nat, n: nat, j: nat)
    requires j < n
    ensures Reads(e, After(e, s, p, m), p, n)[j] == Seen(e, After(e, s, p, m + j), p)
  {
    ReadsAt(e, After(e, s, p, m), p, n, j);
    AfterSplit(e, s, p, m, j);
  }

  lemma {:induction false} DriveConcat<S>(e: Env<S>, s: S, ps: seq<Pulse>, qs: seq<Pulse>)
    ensures Drive(e, s, ps + qs) == Drive(e, Drive(e, s, ps), qs)
    ensures Sampled(e, s, ps + qs) == Sampled(e, s, ps) + Sampled(e, Drive(e, s, ps), qs)
    decreases ps
  {
    if ps == [] {
      assert ps + qs == qs;
    } else {
      var b, t := Seen(e, s, ps[0]), Pulsed(e, s, ps[0]);
      DriveConcat(e, t, ps[1..], qs);
      assert (ps + qs)[1..] == ps[1..] + qs;
      JoinBits(b, Sampled(e, t, ps[1..]), Sampled(e, Drive(e, s, ps), qs));
    }
  }

  lemma JoinBits(b: bool, x: seq<bool>, y: seq<bool>)
    ensures [b] + (x + y) == ([b] + x) + y
  {
  }

  /** The word received, turned around in MSB-first mode. */
  function Received(bits: seq<bool>, msbFirst: bool): bv32 {
    if msbFirst then ReverseU32(WordOf(bits)) else WordOf(bits)
  }

  /** Bit by bit: the bit received j-th is bit j of the word, MSB first bit 31 - j. */
  lemma ReceivedBit(bits: seq<bool>, msbFirst: bool, j: nat)
    requires |bits| == WORD && j < WORD
    ensures BitAt(Received(bits, msbFirst), if msbFirst then 31 - j else j) <==> bits[j]
  {
    if msbFirst {
      ReversedWordBit(bits, 31 - j);
    } else {
      WordBit(bits, j);
    }
  }

  /** The state after n words read with TDI low, and the n-th word's bits. */
  function AfterWords<S>(e: Env<S>, s: S, n: nat): S {
    After(e, s, Pulse(false, false), WORD * n)
  }

  function WordBits<S>(e: Env<S>, s: S, n: nat): (bits: seq<bool>)
    ensures |bits| == WORD
  {
    Reads(e, AfterWords(e, s, n), Pulse(false, false), WORD)
  }

  lemma NextWord<S>(e: Env<S>, s: S, n: nat, size: nat)
    requires size == WORD
    ensures After(e, AfterWords(e, s, n), Pulse(false, false), size) == AfterWords(e, s, n + 1)
  {
    AfterSplit(e, s, Pulse(false, false), WORD * n, size);
  }

  lemma WordBitAt<S>(e: Env<S>, s: S, n: nat, j: nat)
    requires j < WORD
    ensures WordBits(e, s, n)[j] == Seen(e, After(e, s, Pulse(false, false), WORD * n + j), Pulse(false, false))
  {
    ReadsFrom(e, s, Pulse(false, false), WORD * n, WORD, j);
  }

  lemma LevelsAreBits<S>(e: Env<S>, s: S, p: Pulse, levels: seq<bool>, msbFirst: bool)
    requires levels == Reads(e, s, p, WORD)
    ensures forall j: nat :: j < WORD ==>
      BitAt(Received(levels, msbFirst), if msbFirst then 31 - j else j) == Seen(e, After(e, s, p, j), p)
  {
    forall j: nat | j < WORD
      ensures BitAt(Received(levels, msbFirst), if msbFirst then 31 - j else j) == Seen(e, After(e, s, p, j), p)
    {
      ReadsAt(e, s, p, WORD, j);
      ReceivedBit(levels, msbFirst, j);
    }
  }

  method PutBit(value0: bv32, bit: bool, i: nat, ghost received: seq<bool>) returns (value: bv32)
    requires i == |received| < WORD && value0 == WordOf(received)
    ensures value == WordOf(received + [bit])
  {
    WordOfSnoc(received, bit, i);
    value := WithBit(value0, bit, i);
  }

  class Master<S(==)> {
    var tck: bool
    var tms: bool
    var tdi: bool
    var board: S                   // the circuit on the pins
    const env: Env<S>
    const msbFirst: bool
    ghost var edges: seq<Pulse>    // every rising edge of TCK so far

    /** After jtag_pin_init: all outputs low. */
    constructor (board: S, env: Env<S>, msbFirst: bool)
      ensures this.board == board && this.env == env && this.msbFirst == msbFirst
      ensures !tck && !tms && !tdi && edges == []
    {
      tck, tms, tdi := false, false, false;
      this.board, this.env, this.msbFirst := board, env, msbFirst;
      edges := [];
    }

    /** A rising edge, unless TCK is high already. */
    method ClkHigh()
      modifies this
      ensures tck && tms == old(tms) && tdi == old(tdi)
      ensures board == if old(tck) then old(board) else env.rise(old(board), Pulse(tms, tdi))
      ensures edges == if old(tck) then old(edges) else old(edges) + [Pulse(tms, tdi)]
    {
      if !tck {
        board := env.rise(board, Pulse(tms, tdi));
        edges := edges + [Pulse(tms, tdi)];
      }
      tck := true;
    }

    /** A falling edge, unless TCK is low already. */
    method ClkLow()
      modifies this
      ensures !tck && tms == old(tms) && tdi == old(tdi)
      ensures board == (if old(tck) then env.fall(old(board)) else old(board)) && edges == old(edges)
    {
      if tck {
        board := env.fall(board);
      }
      tck := false;
    }

    method ReadBit() returns (bit: bool)
      ensures bit == env.tdo(board)
    {
      bit := env.tdo(board);
    }

    /** A pulse; when TCK is high already only its falling edge is left. */
    method SendBit(tdi: bool, tms: bool)
      modifies this
      ensures !tck && this.tms == tms && this.tdi == tdi
      ensures board == if old(tck) then env.fall(old(board)) else Pulsed(env, old(board), Pulse(tms, tdi))
      ensures edges == if old(tck) then old(edges) else old(edges) + [Pulse(tms, tdi)]
    {
      this.tms := tms;
      this.tdi := tdi;
      ClkHigh();
      ClkLow();
    }

    /** Samples TDO after the rising edge and before the falling edge. */
    method ReadBitClock() returns (bit: bool)
      modifies this
      ensures !tck && tms == old(tms) && tdi == old(tdi)
      ensures bit == if old(tck) then env.tdo(old(board)) else Seen(env, old(board), Pulse(tms, tdi))
      ensures board == if old(tck) then env.fall(old(board)) else Pulsed(env, old(board), Pulse(tms, tdi))
      ensures edges == if old(tck) then old(edges) else old(edges) + [Pulse(tms, tdi)]
    {
      ClkHigh();
      bit := ReadBit();
      ClkLow();
    }

    /** 32 reads, the first bit lowest; in MSB-first mode the word is turned around. */
    method ReadU32() returns (value: bv32)
      modifies this
      requires !tck
      ensures !tck && tms == old(tms) && tdi == old(tdi)
      ensures board == After(env, old(board), Pulse(tms, tdi), WORD)
      ensures value == Received(Reads(env, old(board), Pulse(tms, tdi), WORD), msbFirst)
      ensures forall j: nat :: j < WORD ==>
        BitAt(value, if msbFirst then 31 - j else j)
          == Seen(env, After(env, old(board), Pulse(tms, tdi), j), Pulse(tms, tdi))
    {
      ghost var s, p := board, Pulse(tms, tdi);
      value := 0;
      var i := 0;
      while i < WORD
        invariant 0 <= i <= WORD && !tck && tms == old(tms) && tdi == old(tdi)
        invariant board == After(env, s, p, i)
        invariant value == WordOf(Reads(env, s, p, i))
      {
        var bit := ReadBitClock();
        value := PutBit(value, bit, i, Reads(env, s, p, i));
        i := i + 1;
      }
      ghost var levels := Reads(env, s, p, WORD);
      if msbFirst {
        value := ReverseU32(value);
      }
      LevelsAreBits(env, s, p, levels, msbFirst);
    }
  }
}
