/** The TAP_SHIFT command of the OpenOCD mode in hydrabus_mode_jtag.c, for any circuit
    on the pins. */
module TapShift {
  import opened Bits
  import opened Bytes
  import opened Pins

  const CMD_OCD_TAP_SHIFT: byte := 0x05

  /** Bit k of a byte. */
  predicate BitOf(b: nat, k: nat)
    decreases k
  {
    if k == 0 then b % 2 == 1 else BitOf(b / 2, k - 1)
  }

  /** The n pulses that one byte of TDI and one byte of TMS stand for, lowest bit first. */
  function Group(tdi: nat, tms: nat, n: nat): (ps: seq<Pulse>)
    ensures |ps| == n
    decreases n
  {
    if n == 0 then [] else [Pulse(tms % 2 == 1, tdi % 2 == 1)] + Group(tdi / 2, tms / 2, n - 1)
  }

  /** How many bytes hold n bits. */
  function BytesFor(n: nat): nat {
    if n == 0 then 0 else 1 + BytesFor(n - Min(8, n))
  }

  lemma {:induction false} BytesForIs(n: nat)
    ensures BytesFor(n) == (n + 7) / 8
    decreases n
  {
    if n > 0 {
      BytesForIs(n - Min(8, n));
    }
  }

  /** The n pulses of a whole buffer of (TDI, TMS) byte pairs. */
  function Pulses(n: nat, buf: seq<byte>): (ps: seq<Pulse>)
    requires |buf| == 2 * BytesFor(n)
    ensures |ps| == n
    decreases n
  {
    if n == 0 then []
    else Group(buf[0], buf[1], Min(8, n)) + Pulses(n - Min(8, n), buf[2..])
  }

  /** The answer: eight levels a byte, lowest bit first, a short last group moved to
      the top of its byte. */
  function Pack(bits: seq<bool>): (bytes: seq<byte>)
    ensures |bytes| == BytesFor(|bits|)
    decreases |bits|
  {
    if bits == [] then []
    else
      var g := Min(8, |bits|);
      [PackGroup(bits[..g])] + Pack(bits[g..])
  }

  function PackGroup(bits: seq<bool>): byte
    requires |bits| <= 8
  {
    GroupFits(bits);
    Partial(bits)
  }

  lemma {:induction false} Pow2Sum(a: nat, b: nat)
    ensures Pow2(a) * Pow2(b) == Pow2(a + b)
    decreases a
  {
    if a > 0 {
      Pow2Sum(a - 1, b);
    }
  }

  lemma GroupFits(bits: seq<bool>)
    requires |bits| <= 8
    ensures FromBits(bits) * Pow2(8 - |bits|) < 256
  {
    FromBitsSnoc(bits, false);
    Pow2Sum(|bits|, 8 - |bits|);
    assert Pow2(8) == 256;
    MulLess(FromBits(bits), Pow2(|bits|), Pow2(8 - |bits|));
  }

  lemma MulLess(a: nat, b: nat, c: nat)
    requires a < b && c > 0
    ensures a * c < b * c
  {
  }

  /** tdo after the levels in done: they sit at the top of the byte. */
  function Partial(done: seq<bool>): nat
    requires |done| <= 8
  {
    FromBits(done) * Pow2(8 - |done|)
  }

  /** One more level received: `tdo = (bit << 7) | (tdo >> 1)`. */
  lemma TdoStep(done: seq<bool>, bit: bool)
    requires |done| < 8
    ensures Partial(done + [bit]) == Bit(bit) * 128 + Partial(done) / 2
  {
    FromBitsSnoc(done, bit);
    Pow2Sum(|done|, 7 - |done|);
    Pow2Seven();
    TdoArithmetic(FromBits(done), bit, Pow2(|done|), Pow2(7 - |done|), FromBits(done + [bit]), Pow2(8 - |done|));
  }

  lemma Pow2Seven()
    ensures Pow2(7) == 128
  {
  }

  lemma TdoArithmetic(f: nat, bit: bool, q: nat, r: nat, g: nat, h: nat)
    requires q * r == 128 && g == f + Bit(bit) * q && h == 2 * r
    ensures g * r == Bit(bit) * 128 + (f * h) / 2
  {
    assert f * h == 2 * (f * r);
    if bit {
      assert (f + q) * r == f * r + q * r;
    }
  }

  // ---------------------------------------- pulses from either level of TCK

  /** A train of pulses that starts with TCK high loses its first rising edge: what is left
      of it is one falling edge, with TDO seen before it. */
  function DriveFrom<S>(e: Env<S>, high: bool, b: S, ps: seq<Pulse>): S {
    if high && ps != [] then Drive(e, e.fall(b), ps[1..]) else Drive(e, b, ps)
  }

  function LevelsFrom<S>(e: Env<S>, high: bool, b: S, ps: seq<Pulse>): (bits: seq<bool>)
    ensures |bits| == |ps|
  {
    if high && ps != [] then [e.tdo(b)] + Sampled(e, e.fall(b), ps[1..]) else Sampled(e, b, ps)
  }

  function EdgesFrom(high: bool, ps: seq<Pulse>): seq<Pulse> {
    if high && ps != [] then ps[1..] else ps
  }

  /** One pulse is lost exactly then. */
  lemma AllDriven(high: bool, es: seq<Pulse>, ps: seq<Pulse>)
    ensures es + EdgesFrom(high, ps) == es + ps <==> !high || ps == []
    ensures |EdgesFrom(high, ps)| == |ps| - if high && ps != [] then 1 else 0
  {
    assert |es + EdgesFrom(high, ps)| == |es| + |EdgesFrom(high, ps)|;
  }

  /** Where the pulses rest lead from a level of TCK, a board, edges and levels done. */
  datatype Outcome<S> = Outcome(high: bool, board: S, levels: seq<bool>, edges: seq<Pulse>)

  function Final<S>(e: Env<S>, high: bool, b: S, es: seq<Pulse>, done: seq<bool>, rest: seq<Pulse>): Outcome<S> {
    Outcome(high && rest == [], DriveFrom(e, high, b, rest), done + LevelsFrom(e, high, b, rest),
            es + EdgesFrom(high, rest))
  }

  lemma FinalStep<S>(e: Env<S>, high: bool, b: S, es: seq<Pulse>, done: seq<bool>, ps: seq<Pulse>, rest: seq<Pulse>)
    ensures var o := Final(e, high, b, es, done, ps);
      Final(e, o.high, o.board, o.edges, o.levels, rest) == Final(e, high, b, es, done, ps + rest)
  {
    if ps == [] {
      assert ps + rest == rest && es + [] == es && done + [] == done;
    } else if high {
      assert (ps + rest)[1..] == ps[1..] + rest;
      DriveConcat(e, e.fall(b), ps[1..], rest);
      JoinThree(done, [e.tdo(b)], Sampled(e, e.fall(b), ps[1..]), Sampled(e, Drive(e, e.fall(b), ps[1..]), rest));
      JoinTwo(es, ps[1..], rest);
    } else {
      DriveConcat(e, b, ps, rest);
      JoinTwo(done, Sampled(e, b, ps), Sampled(e, Drive(e, b, ps), rest));
      JoinTwo(es, ps, rest);
    }
  }

  lemma JoinTwo<T>(a: seq<T>, b: seq<T>, c: seq<T>)
    ensures a + (b + c) == (a + b) + c
  {
  }

  lemma JoinThree<T>(a: seq<T>, b: seq<T>, c: seq<T>, d: seq<T>)
    ensures a + (b + (c + d)) == (a + (b + c)) + d
  {
  }

  /** TCK, the board and the edges after a train of pulses. */
  function Driven<S>(e: Env<S>, high: bool, b: S, es: seq<Pulse>, ps: seq<Pulse>): (bool, S, seq<Pulse>) {
    (high && ps == [], DriveFrom(e, high, b, ps), es + EdgesFrom(high, ps))
  }

  lemma FinalAll<S>(e: Env<S>, high: bool, b: S, es: seq<Pulse>, ps: seq<Pulse>, o: Outcome<S>)
    requires o == Final(e, high, b, es, [], ps)
    ensures (o.high, o.board, o.edges) == Driven(e, high, b, es, ps) && o.levels == LevelsFrom(e, high, b, ps)
  {
    assert [] + LevelsFrom(e, high, b, ps) == LevelsFrom(e, high, b, ps);
  }

  lemma FinalNone<S>(e: Env<S>, high: bool, b: S, es: seq<Pulse>, done: seq<bool>)
    ensures Final(e, high, b, es, done, []) == Outcome(high, b, done, es)
  {
    assert done + [] == done && es + [] == es;
  }

  /** One pulse, or what is left of it. */
  lemma FinalOne<S>(e: Env<S>, high: bool, b: S, es: seq<Pulse>, done: seq<bool>, p: Pulse)
    ensures Final(e, high, b, es, done, [p])
      == if high then Outcome(false, e.fall(b), done + [e.tdo(b)], es)
         else Outcome(false, Pulsed(e, b, p), done + [Seen(e, b, p)], es + [p])
  {
    assert [p][1..] == [];
    assert Drive(e, b, [p]) == Pulsed(e, b, p) && Sampled(e, b, [p]) == [Seen(e, b, p)];
    assert [e.tdo(b)] + [] == [e.tdo(b)] && es + [] == es;
  }

  lemma GroupStep<S>(e: Env<S>, high: bool, b: S, es: seq<Pulse>, done: seq<bool>, tdi: nat, tms: nat, n: nat)
    requires n > 0
    ensures var o := Final(e, high, b, es, done, [Pulse(tms % 2 == 1, tdi % 2 == 1)]);
      Final(e, o.high, o.board, o.edges, o.levels, Group(tdi / 2, tms / 2, n - 1))
        == Final(e, high, b, es, done, Group(tdi, tms, n))
  {
    FinalStep(e, high, b, es, done, [Pulse(tms % 2 == 1, tdi % 2 == 1)], Group(tdi / 2, tms / 2, n - 1));
  }

  // ----------------------------------------------------------- the command

  /** One turn of the loop: the pins are set, TCK is pulsed and TDO enters at the top. */
  method ShiftBit<S>(m: Master<S>, tdi: nat, tms: nat, left: nat, tdo0: byte, ghost done0: seq<bool>)
      returns (tdo: byte, ghost done: seq<bool>)
    requires left > 0 && |done0| < 8 && tdo0 == Partial(done0)
    modifies m
    ensures |done| == |done0| + 1 && tdo == Partial(done)
    ensures Final(m.env, m.tck, m.board, m.edges, done, Group(tdi / 2, tms / 2, left - 1))
      == old(Final(m.env, m.tck, m.board, m.edges, done0, Group(tdi, tms, left)))
  {
    GroupStep(m.env, m.tck, m.board, m.edges, done0, tdi, tms, left);
    FinalOne(m.env, m.tck, m.board, m.edges, done0, Pulse(tms % 2 == 1, tdi % 2 == 1));
    m.tms := tms % 2 == 1;
    m.tdi := tdi % 2 == 1;
    var bit := m.ReadBitClock();
    TdoStep(done0, bit);
    GroupFits(done0 + [bit]);
    tdo := Bit(bit) * 128 + tdo0 / 2;
    done := done0 + [bit];
  }

  /** The loop over the bits of a byte pair. */
  method ShiftBits<S>(m: Master<S>, tdi0: nat, tms0: nat, num_bits: nat) returns (tdo: byte, ghost done: seq<bool>)
    requires num_bits <= 8
    modifies m
    ensures |done| == num_bits && tdo == Partial(done)
    ensures Final(m.env, m.tck, m.board, m.edges, done, [])
      == old(Final(m.env, m.tck, m.board, m.edges, [], Group(tdi0, tms0, num_bits)))
  {
    var tdi: nat, tms: nat, left: nat := tdi0, tms0, num_bits;
    tdo, done := 0, [];
    while left > 0
      invariant left + |done| == num_bits && tdo == Partial(done)
      invariant Final(m.env, m.tck, m.board, m.edges, done, Group(tdi, tms, left))
        == old(Final(m.env, m.tck, m.board, m.edges, [], Group(tdi0, tms0, num_bits)))
    {
      tdo, done := ShiftBit(m, tdi, tms, left, tdo, done);
      tdi, tms, left := tdi / 2, tms / 2, left - 1;
    }
  }

  method OcdShiftU8<S>(m: Master<S>, tdi: byte, tms: byte, num_bits: nat) returns (tdo: byte)
    requires num_bits <= 8
    modifies m
    ensures (m.tck, m.board, m.edges)
      == Driven(m.env, old(m.tck), old(m.board), old(m.edges), Group(tdi, tms, num_bits))
    ensures tdo == PackGroup(LevelsFrom(m.env, old(m.tck), old(m.board), Group(tdi, tms, num_bits)))
  {
    ghost var ps := Group(tdi, tms, num_bits);
    FinalAll(m.env, m.tck, m.board, m.edges, ps, Final(m.env, m.tck, m.board, m.edges, [], ps));
    ghost var done;
    tdo, done := ShiftBits(m, tdi, tms, num_bits);
    FinalNone(m.env, m.tck, m.board, m.edges, done);
  }

  method Ceil8(n: nat) returns (k: nat)
    ensures k == BytesFor(n) && 8 * k <= n + 7
  {
    k := (n + 7) / 8;
    BytesForIs(n);
  }

  /** The command: two count bytes and the pairs come from the host; the answer repeats
      the header. All pulses are driven unless TCK was left high before them. */
  method Run<S>(m: Master<S>, sbuf: array<byte>, input: seq<byte>) returns (output: seq<byte>, consumed: nat)
    requires sbuf.Length == 65536 + 128 && |input| >= 2
    requires |input| >= 2 + 2 * BytesFor(256 * (input[0] as nat) + input[1] as nat)
    modifies m, sbuf
    ensures consumed == 2 + 2 * BytesFor(256 * (input[0] as nat) + input[1] as nat)
    ensures var n := 256 * (input[0] as nat) + input[1] as nat;
      var pulses := Pulses(n, input[2..consumed]);
      && (m.tck, m.board, m.edges) == Driven(m.env, old(m.tck), old(m.board), old(m.edges), pulses)
      && (m.edges == old(m.edges) + pulses <==> !old(m.tck) || n == 0)
      && output == [CMD_OCD_TAP_SHIFT, input[0], input[1]]
        + Pack(LevelsFrom(m.env, old(m.tck), old(m.board), pulses))
  {
    var hi: nat, lo: nat := input[0], input[1];
    var num_sequences := hi * 256 + lo;
    var pairs := Ceil8(num_sequences);
    consumed := 2 + 2 * pairs;
    ChnRead(sbuf, input[2..consumed]);
    AllDriven(m.tck, m.edges, Pulses(num_sequences, input[2..consumed]));
    var answer := ShiftAll(m, sbuf[..consumed - 2], num_sequences);
    output := [CMD_OCD_TAP_SHIFT, input[0], input[1]] + answer;
  }

  /** The loop over the byte pairs. */
  method ShiftPairs<S>(m: Master<S>, buffer: seq<byte>, n0: nat) returns (answer: seq<byte>, ghost done: seq<bool>)
    requires |buffer| == 2 * BytesFor(n0)
    modifies m
    ensures answer == Pack(done)
    ensures Final(m.env, m.tck, m.board, m.edges, done, [])
      == old(Final(m.env, m.tck, m.board, m.edges, [], Pulses(n0, buffer)))
  {
    var n: nat, i: nat := n0, 0;
    ghost var g: nat := 0;
    answer, done := [], [];
    assert buffer[0..] == buffer;
    while n > 0
      invariant i == 2 * g && Holds(buffer, i, n)
      invariant n > 0 ==> |done| == 8 * g
      invariant Final(m.env, m.tck, m.board, m.edges, done, Pulses(n, buffer[i..]))
        == old(Final(m.env, m.tck, m.board, m.edges, [], Pulses(n0, buffer)))
      invariant answer == Pack(done)
    {
      answer, n, done := ShiftPair(m, buffer, i, n, answer, done, g);
      i, g := i + 2, g + 1;
    }
  }

  /** One turn of it. */
  method ShiftPair<S>(m: Master<S>, buffer: seq<byte>, i: nat, n0: nat, answer0: seq<byte>,
                      ghost done0: seq<bool>, ghost g: nat)
      returns (answer: seq<byte>, n: nat, ghost done: seq<bool>)
    requires n0 > 0 && Holds(buffer, i, n0) && |done0| == 8 * g && answer0 == Pack(done0)
    modifies m
    ensures n == n0 - Min(8, n0) && Holds(buffer, i + 2, n) && answer == Pack(done)
    ensures n > 0 ==> |done| == 8 * (g + 1)
    ensures Final(m.env, m.tck, m.board, m.edges, done, Pulses(n, buffer[i + 2..]))
      == old(Final(m.env, m.tck, m.board, m.edges, done0, Pulses(n0, buffer[i..])))
  {
    var bits := if n0 > 8 then 8 else n0;
    ghost var levels;
    var values;
    values, levels := ShiftByte(m, buffer, i, n0, bits, done0);
    PackSnoc(done0, levels, g);
    answer := answer0 + [values];
    done := done0 + levels;
    n := n0 - bits;
  }

  method ShiftAll<S>(m: Master<S>, buffer: seq<byte>, n0: nat) returns (answer: seq<byte>)
    requires |buffer| == 2 * BytesFor(n0)
    modifies m
    ensures (m.tck, m.board, m.edges) == Driven(m.env, old(m.tck), old(m.board), old(m.edges), Pulses(n0, buffer))
    ensures answer == Pack(LevelsFrom(m.env, old(m.tck), old(m.board), Pulses(n0, buffer)))
  {
    ghost var ps := Pulses(n0, buffer);
    FinalAll(m.env, m.tck, m.board, m.edges, ps, Final(m.env, m.tck, m.board, m.edges, [], ps));
    ghost var done;
    answer, done := ShiftPairs(m, buffer, n0);
    FinalNone(m.env, m.tck, m.board, m.edges, done);
  }

  /** From index i on, the buffer holds the byte pairs for n pulses. */
  predicate Holds(buffer: seq<byte>, i: nat, n: nat) {
    i <= |buffer| && |buffer| - i == 2 * BytesFor(n)
  }

  /** The shift of one byte pair inside the loop. */
  method ShiftByte<S>(m: Master<S>, buffer: seq<byte>, i: nat, n: nat, bits: nat, ghost done: seq<bool>)
      returns (values: byte, ghost levels: seq<bool>)
    requires n > 0 && bits == Min(8, n) && Holds(buffer, i, n)
    modifies m
    ensures |levels| == bits && values == PackGroup(levels) && Holds(buffer, i + 2, n - bits)
    ensures Final(m.env, m.tck, m.board, m.edges, done + levels, Pulses(n - bits, buffer[i + 2..]))
      == old(Final(m.env, m.tck, m.board, m.edges, done, Pulses(n, buffer[i..])))
  {
    ByteStep(m.env, m.tck, m.board, m.edges, done, n, buffer, i);
    levels := LevelsFrom(m.env, m.tck, m.board, Group(buffer[i], buffer[i + 1], bits));
    values := OcdShiftU8(m, buffer[i], buffer[i + 1], bits);
  }

  lemma ByteStep<S>(e: Env<S>, high: bool, b: S, es: seq<Pulse>, done: seq<bool>, n: nat, buffer: seq<byte>, i: nat)
    requires n > 0 && i <= |buffer| && |buffer[i..]| == 2 * BytesFor(n)
    ensures i + 2 <= |buffer| && |buffer[i + 2..]| == 2 * BytesFor(n - Min(8, n))
    ensures var o := Final(e, high, b, es, done, Group(buffer[i], buffer[i + 1], Min(8, n)));
      Final(e, o.high, o.board, o.edges, o.levels, Pulses(n - Min(8, n), buffer[i + 2..]))
        == Final(e, high, b, es, done, Pulses(n, buffer[i..]))
  {
    assert buffer[i..][2..] == buffer[i + 2..];
    FinalStep(e, high, b, es, done, Group(buffer[i], buffer[i + 1], Min(8, n)), Pulses(n - Min(8, n), buffer[i + 2..]));
  }

  lemma {:induction false} PackSnoc(done: seq<bool>, levels: seq<bool>, g: nat)
    requires |done| == 8 * g && 0 < |levels| <= 8
    ensures Pack(done + levels) == Pack(done) + [PackGroup(levels)]
    decreases g
  {
    if g == 0 {
      assert done + levels == levels && levels[..|levels|] == levels;
    } else {
      PackSnoc(done[8..], levels, g - 1);
      FrontOfSum(done, levels);
    }
  }

  lemma FrontOfSum(done: seq<bool>, levels: seq<bool>)
    requires |done| >= 8
    ensures (done + levels)[..8] == done[..8] && (done + levels)[8..] == done[8..] + levels
  {
  }

  /** The blocking read of the payload into the shared buffer. */
  method ChnRead(buf: array<byte>, bytes: seq<byte>)
    requires |bytes| <= buf.Length
    modifies buf
    ensures buf[..|bytes|] == bytes
  {
    Copy(buf, 0, bytes);
    assert buf[..|bytes|] == bytes;
  }

  // -------------------------------------------- what the pulses and bytes mean

  /** Pulse 8 * g + k takes TDI from bit k of byte 2 * g and TMS from the byte after. */
  lemma {:induction false} PulseAt(n: nat, buf: seq<byte>, g: nat, k: nat)
    requires |buf| == 2 * BytesFor(n) && k < 8 && 8 * g + k < n
    ensures 2 * g + 1 < |buf|
    ensures Pulses(n, buf)[8 * g + k] == Pulse(BitOf(buf[2 * g + 1], k), BitOf(buf[2 * g], k))
    decreases g
  {
    if g == 0 {
      GroupAt(buf[0], buf[1], Min(8, n), k);
    } else {
      PulseAt(n - 8, buf[2..], g - 1, k);
    }
  }

  lemma {:induction false} GroupAt(tdi: nat, tms: nat, n: nat, k: nat)
    requires k < n
    ensures Group(tdi, tms, n)[k] == Pulse(BitOf(tms, k), BitOf(tdi, k))
    decreases n
  {
    if k > 0 {
      GroupAt(tdi / 2, tms / 2, n - 1, k - 1);
    }
  }

  /** Level 8 * g + k comes back in bit k of byte g; in a short last group of r levels,
      in bit 8 - r + k. */
  lemma {:induction false} LevelAt(bits: seq<bool>, g: nat, k: nat)
    requires k < 8 && 8 * g + k < |bits|
    ensures var r := Min(8, |bits| - 8 * g);
      g < |Pack(bits)| && BitOf(Pack(bits)[g], 8 - r + k) == bits[8 * g + k]
    decreases g
  {
    var m := Min(8, |bits|);
    if g == 0 {
      ScaledBit(FromBits(bits[..m]), 8 - m, k);
      FromBitsAt(bits[..m], k);
    } else {
      LevelAt(bits[8..], g - 1, k);
      assert Pack(bits)[g] == Pack(bits[8..])[g - 1];
    }
  }

  lemma {:induction false} ScaledBit(v: nat, j: nat, k: nat)
    ensures BitOf(v * Pow2(j), j + k) == BitOf(v, k)
    decreases j
  {
    if j > 0 {
      assert v * Pow2(j) == 2 * (v * Pow2(j - 1));
      ScaledBit(v, j - 1, k);
    } else {
      assert v * Pow2(0) == v;
    }
  }

  lemma {:induction false} FromBitsAt(s: seq<bool>, k: nat)
    requires k < |s|
    ensures BitOf(FromBits(s), k) == s[k]
    decreases k
  {
    FromBitsHalves(s);
    if k > 0 {
      FromBitsAt(s[1..], k - 1);
    }
  }

  lemma FromBitsHalves(s: seq<bool>)
    requires s != []
    ensures FromBits(s) % 2 == Bit(s[0]) && FromBits(s) / 2 == FromBits(s[1..])
  {
  }
}
