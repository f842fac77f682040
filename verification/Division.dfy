/** Reflected polynomial division over any register that can be added to, moved down
    by one bit and asked for its low bit. Keeping the register abstract keeps the
    proofs about division apart from the arithmetic of machine words. */
module Division {
  import opened Bytes

  datatype Field<!R> = Field(
    plus: (R, R) -> R,
    down: R -> R,
    low: R -> bool,
    bit: bool -> R,       // the register with only its low bit given
    poly: R)

  /** One step of the division. */
  function Step<R>(f: Field<R>, x: R): R {
    if f.low(x) then f.plus(f.down(x), f.poly) else f.down(x)
  }

  function StepN<R>(f: Field<R>, x: R, n: nat): R
    decreases n, x
  {
    if n == 0 then x else StepN(f, Step(f, x), n - 1)
  }

  /** Message bits enter the register r one by one, each followed by a step. */
  function Divide<R>(f: Field<R>, r: R, bits: seq<bool>): R
    decreases |bits|
  {
    if bits == [] then r else Divide(f, Step(f, f.plus(r, f.bit(bits[0]))), bits[1..])
  }

  function LowBits<R>(f: Field<R>, b: R, n: nat): (bits: seq<bool>)
    ensures |bits| == n
    decreases n, b
  {
    if n == 0 then [] else [f.low(b)] + LowBits(f, f.down(b), n - 1)
  }

  function Down<R>(f: Field<R>, x: R, n: nat): R
    decreases n, x
  {
    if n == 0 then x else Down(f, f.down(x), n - 1)
  }

  /** Registers with the same n low bits. */
  predicate SameLow<R>(f: Field<R>, x: R, y: R, n: nat)
    decreases n
  {
    n == 0 || (f.low(x) == f.low(y) && SameLow(f, f.down(x), f.down(y), n - 1))
  }

  lemma {:induction false} SameLowBits<R>(f: Field<R>, x: R, y: R, n: nat)
    requires SameLow(f, x, y, n)
    ensures LowBits(f, x, n) == LowBits(f, y, n)
    decreases n
  {
    if n > 0 {
      SameLowBits(f, f.down(x), f.down(y), n - 1);
    }
  }

  /** The laws that the division rests on. */
  ghost predicate DownAdds<R(!new)>(f: Field<R>) {
    forall x, y :: f.down(f.plus(x, y)) == f.plus(f.down(x), f.down(y))
  }

  ghost predicate LowAdds<R(!new)>(f: Field<R>) {
    forall x, y :: f.low(f.plus(x, y)) == (f.low(x) != f.low(y))
  }

  ghost predicate BitsAreLow<R(!new)>(f: Field<R>) {
    && (forall x, b :: f.down(f.plus(x, f.bit(b))) == f.down(x))
    && (forall b :: f.low(f.bit(b)) == b)
  }

  ghost predicate PolyMoves<R(!new)>(f: Field<R>) {
    forall x, y :: f.plus(f.plus(x, f.poly), y) == f.plus(f.plus(x, y), f.poly)
  }

  ghost predicate Lawful<R(!new)>(f: Field<R>) {
    DownAdds(f) && LowAdds(f) && BitsAreLow(f) && PolyMoves(f)
  }

  /** Message bits that have not reached the low end yet just move down. */
  lemma Peel<R(!new)>(f: Field<R>, r: R, b: R)
    requires Lawful(f)
    ensures Step(f, f.plus(r, b)) == f.plus(Step(f, f.plus(r, f.bit(f.low(b)))), f.down(b))
  {
  }

  /** Adding n message bits at once and stepping n times is dividing them in one by one. */
  lemma {:induction false} PeelN<R(!new)>(f: Field<R>, r: R, b: R, n: nat)
    requires Lawful(f)
    ensures StepN(f, f.plus(r, b), n) == f.plus(Divide(f, r, LowBits(f, b, n)), Down(f, b, n))
    decreases n
  {
    if n > 0 {
      Peel(f, r, b);
      PeelN(f, Step(f, f.plus(r, f.bit(f.low(b)))), f.down(b), n - 1);
      assert LowBits(f, b, n)[1..] == LowBits(f, f.down(b), n - 1);
    }
  }

  lemma {:induction false} DivideConcat<R>(f: Field<R>, r: R, a: seq<bool>, b: seq<bool>)
    ensures Divide(f, r, a + b) == Divide(f, Divide(f, r, a), b)
    decreases |a|
  {
    if a == [] {
      assert a + b == b;
    } else {
      assert (a + b)[1..] == a[1..] + b;
      DivideConcat(f, Step(f, f.plus(r, f.bit(a[0]))), a[1..], b);
    }
  }

  lemma StepEight<R>(f: Field<R>, x: R)
    ensures StepN(f, x, 8)
      == Step(f, Step(f, Step(f, Step(f, Step(f, Step(f, Step(f, Step(f, x))))))))
  {
    var x2 := Step(f, Step(f, x));
    var x4 := Step(f, Step(f, x2));
    var x6 := Step(f, Step(f, x4));
    assert StepN(f, x, 8) == StepN(f, x2, 6);
    assert StepN(f, x2, 6) == StepN(f, x4, 4);
    assert StepN(f, x4, 4) == StepN(f, x6, 2);
    assert StepN(f, x6, 2) == StepN(f, Step(f, x6), 1);
    assert StepN(f, Step(f, x6), 1) == StepN(f, Step(f, Step(f, x6)), 0);
  }

  // ------------------------------------------------------ whole messages

  /** The bits of a byte string, given the bits of a byte. */
  function Message(bits: byte -> seq<bool>, bytes: seq<byte>): seq<bool> {
    if bytes == [] then [] else bits(bytes[0]) + Message(bits, bytes[1..])
  }

  /** The register after a byte string, started from r. */
  function Raw<R>(f: Field<R>, bits: byte -> seq<bool>, r: R, bytes: seq<byte>): R {
    Divide(f, r, Message(bits, bytes))
  }

  lemma {:induction false} MessageConcat(bits: byte -> seq<bool>, a: seq<byte>, b: seq<byte>)
    ensures Message(bits, a + b) == Message(bits, a) + Message(bits, b)
  {
    if a == [] {
      assert a + b == b;
    } else {
      assert (a + b)[1..] == a[1..] + b;
      MessageConcat(bits, a[1..], b);
    }
  }

  lemma RawConcat<R>(f: Field<R>, bits: byte -> seq<bool>, r: R, a: seq<byte>, b: seq<byte>)
    ensures Raw(f, bits, r, a + b) == Raw(f, bits, Raw(f, bits, r, a), b)
  {
    MessageConcat(bits, a, b);
    DivideConcat(f, r, Message(bits, a), Message(bits, b));
  }

  lemma RawByte<R>(f: Field<R>, bits: byte -> seq<bool>, r: R, b: byte)
    ensures Raw(f, bits, r, [b]) == Divide(f, r, bits(b))
  {
    assert [b][1..] == [] && bits(b) + [] == bits(b);
    assert Message(bits, [b]) == bits(b) + Message(bits, []);
  }

  /** A checksum complements the register before and after. */
  function Checksum<R>(f: Field<R>, bits: byte -> seq<bool>, not: R -> R, crc: R, bytes: seq<byte>): R {
    not(Raw(f, bits, not(crc), bytes))
  }

  lemma ChecksumConcat<R(!new)>(f: Field<R>, bits: byte -> seq<bool>, not: R -> R, crc: R, a: seq<byte>, b: seq<byte>)
    requires forall x :: not(not(x)) == x
    ensures Checksum(f, bits, not, Checksum(f, bits, not, crc, a), b) == Checksum(f, bits, not, crc, a + b)
  {
    RawConcat(f, bits, not(crc), a, b);
  }

  /** A register followed through one more byte, and through four. */
  lemma OneByte<R>(f: Field<R>, bits: byte -> seq<bool>, r: R, bytes: seq<byte>, w: R, b: byte)
    requires Raw(f, bits, r, bytes) == w
    ensures Raw(f, bits, r, bytes + [b]) == Raw(f, bits, w, [b])
  {
    RawConcat(f, bits, r, bytes, [b]);
  }

  /** Feeding a register its own low byte four times. */
  lemma Drain<R(!new)>(f: Field<R>, bits: byte -> seq<bool>, low: R -> byte, next: R -> R, r: R, bytes: seq<byte>, w: R)
    requires w == Raw(f, bits, r, bytes)
    requires forall x :: Raw(f, bits, x, [low(x)]) == next(x)
    ensures Raw(f, bits, r, bytes + [low(w), low(next(w)), low(next(next(w))), low(next(next(next(w))))])
      == next(next(next(next(w))))
  {
    var w1 := next(w);
    var w2 := next(w1);
    var w3 := next(w2);
    OneByte(f, bits, r, bytes, w, low(w));
    OneByte(f, bits, r, bytes + [low(w)], w1, low(w1));
    OneByte(f, bits, r, bytes + [low(w)] + [low(w1)], w2, low(w2));
    OneByte(f, bits, r, bytes + [low(w)] + [low(w1)] + [low(w2)], w3, low(w3));
    assert bytes + [low(w)] + [low(w1)] + [low(w2)] + [low(w3)] == bytes + [low(w), low(w1), low(w2), low(w3)];
  }

  /** The bytewise loop `while (size--) crc = step(crc, *p++)`. */
  method Fold<R>(f: Field<R>, bits: byte -> seq<bool>, step: (R, byte) -> R, r0: R, buf: seq<byte>) returns (r: R)
    requires forall x: R, b: byte :: step(x, b) == Divide(f, x, bits(b))
    ensures r == Raw(f, bits, r0, buf)
  {
    r := r0;
    var i := 0;
    while i < |buf|
      invariant 0 <= i <= |buf|
      invariant r == Raw(f, bits, r0, buf[..i])
    {
      assert buf[..i] + [buf[i]] == buf[..i + 1];
      RawConcat(f, bits, r0, buf[..i], [buf[i]]);
      RawByte(f, bits, r, buf[i]);
      r := step(r, buf[i]);
      i := i + 1;
    }
    assert buf[..|buf|] == buf;
  }
}
