/** Reading an answer to reset in hydrabus_mode_smartcard.c, against the grammar of
    section 8.2 of ISO/IEC 7816-3. */
module Atr {
  import opened Bits
  import opened Bytes

  const ATR_SIZE: nat := 32
  const TS_DIRECT: byte := 0x3B
  const TS_INVERSE: byte := 0x3F
  const TS_INVERSE_RAW: byte := 0x03

  // ----------------------------------------------------------- convention

  /** A byte in inverse convention is complemented and read backwards. */
  function Inverted(b: byte): byte {
    FromBits8(ReverseU8((b as bv8) ^ 0xff))
  }

  function Convention(inverse: bool): byte -> byte {
    if inverse then Inverted else b => b
  }

  function Decode(conv: byte -> byte, raw: seq<byte>): (d: seq<byte>)
    ensures |d| == |raw|
    ensures forall k :: 0 <= k < |raw| ==> d[k] == conv(raw[k])
  {
    seq(|raw|, k requires 0 <= k < |raw| => conv(raw[k]))
  }

  /** The TS byte of an inverse card is the one that the convention makes of it, and the
      convention undoes itself. */
  lemma InverseTs()
    ensures Inverted(TS_INVERSE_RAW) == TS_INVERSE
  {
    assert ReverseU8(0x03 as bv8 ^ 0xff) == 0x3F;
  }

  lemma InvertedTwice(x: bv8)
    ensures ReverseU8(ReverseU8(x ^ 0xff) ^ 0xff) == x
  {
  }

  lemma InvertedBits(x: bv8, i: bv8)
    requires i < 8
    ensures (ReverseU8(x ^ 0xff) >> i) & 1 != (x >> (7 - i)) & 1
  {
  }

  lemma InvertedIs(b: byte)
    ensures Inverted(b) as bv8 == ReverseU8((b as bv8) ^ 0xff)
  {
    FromBits8Back(ReverseU8((b as bv8) ^ 0xff));
  }

  /** Bit i of a byte in inverse convention is the opposite of bit 7 - i on the line. */
  lemma InvertedBit(b: byte, i: bv8)
    requires i < 8
    ensures ((Inverted(b) as bv8) >> i) & 1 != ((b as bv8) >> (7 - i)) & 1
  {
    InvertedIs(b);
    InvertedBits(b as bv8, i);
  }

  // -------------------------------------------------------------- grammar

  /** What T0 or a TD byte says: how many interface bytes follow, whether the last of them
      is another TD byte, and its lower half. */
  datatype HeadByte = HeadByte(n: nat, td: bool, t: nat)
  type Head = h: HeadByte | h.td ==> 1 <= h.n witness HeadByte(0, false, 0)

  /** The interface bytes TA, TB, TC and TD that the upper half of a byte announces. */
  function Announced(y: nat): (n: nat)
    ensures n <= 4 && (y / 8 % 2 == 1 ==> n >= 1)
  {
    y % 2 + y / 2 % 2 + y / 4 % 2 + y / 8 % 2
  }

  function HeadOf(b: byte): Head {
    HeadByte(Announced(b / 16), b / 16 / 8 % 2 == 1, b % 16)
  }

  /** All the groups that are announced are there. */
  predicate Complete(head: byte -> Head, b: byte, s: seq<byte>)
    decreases |s|
  {
    var h := head(b);
    h.n <= |s| && (h.td ==> Complete(head, s[h.n - 1], s[h.n..]))
  }

  /** Interface groups: how many bytes, and the protocols that the TD bytes name. */
  datatype Groups = Groups(size: nat, ts: seq<nat>)

  function Interface(head: byte -> Head, b: byte, s: seq<byte>): Groups
    requires Complete(head, b, s)
    decreases |s|
  {
    var h := head(b);
    if !h.td then Groups(h.n, [])
    else
      var td := s[h.n - 1];
      var more := Interface(head, td, s[h.n..]);
      Groups(h.n + more.size, [head(td).t] + more.ts)
  }

  predicate AllZero(ts: seq<nat>) {
    forall k :: 0 <= k < |ts| ==> ts[k] == 0
  }

  ghost predicate Answer(d: seq<byte>) {
    d != [] && Complete(HeadOf, d[0], d[1..])
  }

  function Protocols(d: seq<byte>): seq<nat>
    requires d != [] && Complete(HeadOf, d[0], d[1..])
  {
    Interface(HeadOf, d[0], d[1..]).ts
  }

  /** The length behind TS: T0, the groups, as many historical bytes as the lower half of
      T0 says, and TCK unless every protocol named is 0. */
  function IsoLength(d: seq<byte>): nat
    requires d != [] && Complete(HeadOf, d[0], d[1..])
  {
    var g := Interface(HeadOf, d[0], d[1..]);
    1 + g.size + HeadOf(d[0]).t + if AllZero(g.ts) then 0 else 1
  }

  // ------------------------------------------------------ answers written

  /** A group as a card writes it: the lower half of its T0 or TD byte, and the interface
      bytes TA, TB and TC where it has them. */
  datatype Group = Group(low: nat, ta: seq<byte>, tb: seq<byte>, tc: seq<byte>)

  predicate ValidGroup(g: Group) {
    g.low < 16 && |g.ta| <= 1 && |g.tb| <= 1 && |g.tc| <= 1
  }

  predicate ValidGroups(gs: seq<Group>) {
    gs != [] && forall g <- gs :: ValidGroup(g)
  }

  /** Its first byte announces each of them by one bit, and another group by the top bit. */
  function FirstByte(g: Group, more: bool): byte
    requires ValidGroup(g)
  {
    g.low + 0x10 * |g.ta| + 0x20 * |g.tb| + 0x40 * |g.tc| + if more then 0x80 else 0
  }

  function Written(gs: seq<Group>): (d: seq<byte>)
    requires ValidGroups(gs)
    ensures d != []
  {
    [FirstByte(gs[0], |gs| > 1)] + ((gs[0].ta + gs[0].tb + gs[0].tc) + if |gs| > 1 then Written(gs[1..]) else [])
  }

  function Lows(gs: seq<Group>): seq<nat> {
    if gs == [] then [] else [gs[0].low] + Lows(gs[1..])
  }

  lemma FirstByteRead(g: Group, more: bool)
    requires ValidGroup(g)
    ensures HeadOf(FirstByte(g, more))
      == HeadByte(|g.ta| + |g.tb| + |g.tc| + (if more then 1 else 0), more, g.low)
  {
    var y := |g.ta| + 2 * |g.tb| + 4 * |g.tc| + if more then 8 else 0;
    assert FirstByte(g, more) == 16 * y + g.low;
    assert FirstByte(g, more) / 16 == y;
    YBits(|g.ta|, |g.tb|, |g.tc|, if more then 1 else 0);
  }

  lemma YBits(a: nat, b: nat, c: nat, d: nat)
    requires a < 2 && b < 2 && c < 2 && d < 2
    ensures var y := a + 2 * b + 4 * c + 8 * d;
      y % 2 == a && y / 2 % 2 == b && y / 4 % 2 == c && y / 8 % 2 == d
  {
  }

  /** The grammar reads back what was written, whatever follows it: as many bytes, and the
      protocols that the TD bytes name. */
  lemma {:induction false} WrittenRead(gs: seq<Group>, rest: seq<byte>)
    requires ValidGroups(gs)
    ensures var d := Written(gs) + rest;
      && Complete(HeadOf, d[0], d[1..]) && HeadOf(d[0]).t == gs[0].low
      && Interface(HeadOf, d[0], d[1..]) == Groups(|Written(gs)| - 1, Lows(gs[1..]))
    decreases |gs|
  {
    var g, more := gs[0], |gs| > 1;
    var b, front, tail := FirstByte(g, more), g.ta + g.tb + g.tc, if more then Written(gs[1..]) + rest else rest;
    FirstByteRead(g, more);
    WrittenSplits(gs, rest, b, front, tail);
    if more {
      WrittenRead(gs[1..], rest);
      OneMoreGroup(HeadOf, b, front, tail);
    } else {
      assert gs[1..] == [];
    }
  }

  lemma WrittenSplits(gs: seq<Group>, rest: seq<byte>, b: byte, front: seq<byte>, tail: seq<byte>)
    requires ValidGroups(gs) && b == FirstByte(gs[0], |gs| > 1) && front == gs[0].ta + gs[0].tb + gs[0].tc
    requires tail == if |gs| > 1 then Written(gs[1..]) + rest else rest
    ensures var d := Written(gs) + rest; d[0] == b && d[1..] == front + tail
    ensures |Written(gs)| == 1 + |front| + if |gs| > 1 then |Written(gs[1..])| else 0
  {
    Regroup(b, front, if |gs| > 1 then Written(gs[1..]) else [], rest);
  }

  lemma Regroup(b: byte, front: seq<byte>, more: seq<byte>, rest: seq<byte>)
    ensures var d := ([b] + (front + more)) + rest; d[0] == b && d[1..] == front + (more + rest)
    ensures front + ([] + rest) == front + rest
  {
    assert [] + rest == rest;
  }

  /** A group whose last interface byte is another TD byte. */
  lemma OneMoreGroup(head: byte -> Head, b: byte, front: seq<byte>, tail: seq<byte>)
    requires tail != [] && head(b).td && head(b).n == |front| + 1 && Complete(head, tail[0], tail[1..])
    ensures Complete(head, b, front + tail)
    ensures var more := Interface(head, tail[0], tail[1..]);
      Interface(head, b, front + tail) == Groups(|front| + 1 + more.size, [head(tail[0]).t] + more.ts)
  {
    GroupSplits(front, tail, front + tail);
  }

  lemma GroupSplits(front: seq<byte>, tail: seq<byte>, s: seq<byte>)
    requires tail != [] && s == front + tail
    ensures s[|front|] == tail[0] && s[|front| + 1..] == tail[1..]
  {
  }

  // --------------------------------------------------------- what is read

  /** The loop of the reader, from the byte b at index r: the index of the last interface
      byte, and whether a checksum is expected. */
  function Walk(head: byte -> Head, r: nat, b: byte, s: seq<byte>): (nat, bool)
    requires Complete(head, b, s)
    decreases |s|
  {
    var h := head(b);
    var odd := r > 2 && h.t % 2 == 1;
    if !h.td then (r + h.n, odd)
    else
      var (end, tck) := Walk(head, r + h.n, s[h.n - 1], s[h.n..]);
      (end, odd || tck)
  }

  function ReadLength(d: seq<byte>): nat
    requires d != [] && Complete(HeadOf, d[0], d[1..])
  {
    var (end, tck) := Walk(HeadOf, 1, d[0], d[1..]);
    end + HeadOf(d[0]).t + if tck then 1 else 0
  }

  predicate SomeOdd(ts: seq<nat>) {
    exists k :: 0 <= k < |ts| && ts[k] % 2 == 1
  }

  /** The protocols that count for the reader's checksum rule, n being the bytes that T0
      announces: TD1 does not when it comes directly after T0. */
  function Counted(n: nat, ts: seq<nat>): seq<nat> {
    if ts != [] && n < 2 then ts[1..] else ts
  }

  lemma OddFirst(t: nat, ts: seq<nat>)
    ensures SomeOdd([t] + ts) == (t % 2 == 1 || SomeOdd(ts))
  {
    var all := [t] + ts;
    if t % 2 == 1 {
      assert all[0] % 2 == 1;
    }
    if SomeOdd(ts) {
      var k :| 0 <= k < |ts| && ts[k] % 2 == 1;
      assert all[k + 1] % 2 == 1;
    }
  }

  /** The loop reads exactly the groups of the grammar, and past index 2 it looks at the
      parity of every protocol. */
  lemma {:induction false} WalkIsInterface(head: byte -> Head, r: nat, b: byte, s: seq<byte>)
    requires Complete(head, b, s)
    ensures Walk(head, r, b, s).0 == r + Interface(head, b, s).size
    ensures r >= 2 ==> Walk(head, r, b, s).1 == ((r > 2 && head(b).t % 2 == 1) || SomeOdd(Interface(head, b, s).ts))
    decreases |s|
  {
    var h := head(b);
    if h.td {
      var td := s[h.n - 1];
      WalkIsInterface(head, r + h.n, td, s[h.n..]);
      OddFirst(head(td).t, Interface(head, td, s[h.n..]).ts);
    }
  }

  /** The checksum rule of the reader, in terms of the protocols named. */
  lemma TckIsOdd(head: byte -> Head, b: byte, s: seq<byte>)
    requires Complete(head, b, s)
    ensures var g := Interface(head, b, s);
      Walk(head, 1, b, s) == (1 + g.size, SomeOdd(Counted(head(b).n, g.ts)))
  {
    WalkIsInterface(head, 1, b, s);
    var h := head(b);
    if h.td {
      var td := s[h.n - 1];
      WalkIsInterface(head, 1 + h.n, td, s[h.n..]);
      var rest := Interface(head, td, s[h.n..]).ts;
      OddFirst(head(td).t, rest);
      assert ([head(td).t] + rest)[1..] == rest;
    }
  }

  /** The reader consumes what the grammar says exactly when no protocol but 0 is named,
      or some protocol that counts is odd. */
  lemma LengthAgrees(d: seq<byte>)
    requires Answer(d)
    ensures ReadLength(d) == IsoLength(d)
      <==> AllZero(Protocols(d)) || SomeOdd(Counted(Announced(d[0] / 16), Protocols(d)))
  {
    TckIsOdd(HeadOf, d[0], d[1..]);
    OddIsNotZero(Announced(d[0] / 16), Protocols(d));
  }

  /** So a written answer with its historical bytes is read to its end, and one byte more
      exactly when a protocol that counts is odd. */
  lemma WrittenLength(gs: seq<Group>, rest: seq<byte>)
    requires ValidGroups(gs)
    ensures var d := Written(gs) + rest;
      var first := |gs[0].ta| + |gs[0].tb| + |gs[0].tc| + if |gs| > 1 then 1 else 0;
      && Answer(d) && ReadLength(d)
        == |Written(gs)| + gs[0].low + if SomeOdd(Counted(first, Lows(gs[1..]))) then 1 else 0
  {
    var d := Written(gs) + rest;
    WrittenRead(gs, rest);
    FirstByteRead(gs[0], |gs| > 1);
    assert d[0] == FirstByte(gs[0], |gs| > 1);
    TckIsOdd(HeadOf, d[0], d[1..]);
  }

  lemma OddIsNotZero(n: nat, ts: seq<nat>)
    ensures SomeOdd(Counted(n, ts)) ==> !AllZero(ts)
  {
    if SomeOdd(Counted(n, ts)) {
      var k :| 0 <= k < |Counted(n, ts)| && Counted(n, ts)[k] % 2 == 1;
      if Counted(n, ts) == ts {
        assert ts[k] != 0;
      } else {
        assert ts[k + 1] != 0;
      }
    }
  }

  predicate StandardTs(ts: seq<nat>) {
    forall k :: 0 <= k < |ts| ==> ts[k] in {0, 1, 15}
  }

  lemma StandardOdd(ts: seq<nat>)
    requires StandardTs(ts)
    ensures AllZero(ts) || SomeOdd(ts)
  {
    if !AllZero(ts) {
      var k :| 0 <= k < |ts| && ts[k] != 0;
      assert ts[k] % 2 == 1;
    }
  }

  /** In particular for the protocols that the standard defines, unless TD1 directly
      follows T0. */
  lemma StandardProtocols(d: seq<byte>)
    requires Answer(d) && StandardTs(Protocols(d)) && (HeadOf(d[0]).td ==> HeadOf(d[0]).n >= 2)
    ensures ReadLength(d) == IsoLength(d)
  {
    LengthAgrees(d);
    StandardOdd(Protocols(d));
  }

  /** When TD1 directly follows T0 and is the only one to name a protocol, any but T=0,
      the checksum is left in the line. */
  lemma Td1AfterT0(d: seq<byte>)
    requires Answer(d) && |Protocols(d)| == 1 && Protocols(d)[0] != 0 && HeadOf(d[0]).n == 1
    ensures ReadLength(d) + 1 == IsoLength(d)
  {
    TckIsOdd(HeadOf, d[0], d[1..]);
  }

  // ------------------------------------------------------- implementation

  datatype Outcome = NonStandard(more: nat) | Answered(inverse: bool)

  /** apply_convention over some bytes, in place. */
  method ApplyConvention(data: array<byte>, at: nat, nb_data: nat, inverse: bool)
    requires at + nb_data <= data.Length
    modifies data
    ensures forall k :: 0 <= k < data.Length ==>
      data[k] == if at <= k < at + nb_data then Convention(inverse)(old(data[k])) else old(data[k])
  {
    if inverse {
      var i := 0;
      while i < nb_data
        invariant 0 <= i <= nb_data
        invariant forall k :: 0 <= k < data.Length ==>
          data[k] == if at <= k < at + i then Convention(inverse)(old(data[k])) else old(data[k])
      {
        var x := (data[at + i] as bv8) ^ 0xff;
        data[at + i] := FromBits8(ReverseU8(x));
        i := i + 1;
      }
    }
  }

  /** One byte from the card, put in place and converted. */
  method ReadByte(atr: array<byte>, at: nat, raw: byte, inverse: bool)
    requires at < atr.Length
    modifies atr
    ensures atr[..] == old(atr[..])[at := Convention(inverse)(raw)]
  {
    atr[at] := raw;
    ghost var mid := atr[..];
    ApplyConvention(atr, at, 1, inverse);
    assert mid[at] == raw;
  }

  /** The bytes behind TS, up to an index, are those of the card. */
  predicate Filled(atr: seq<byte>, d: seq<byte>, r: nat) {
    1 <= r <= |atr| && r - 1 <= |d| && atr[1..r] == d[..r - 1]
  }

  lemma FilledMore(atr: seq<byte>, d: seq<byte>, r: nat)
    requires Filled(atr, d, r) && r < |atr| && r - 1 < |d|
    ensures Filled(atr[r := d[r - 1]], d, r + 1)
  {
    var atr1 := atr[r := d[r - 1]];
    assert atr1[1..r + 1] == atr[1..r] + [d[r - 1]];
  }

  method ReadUpTo(atr: array<byte>, r0: nat, last: nat, raw: seq<byte>, inverse: bool) returns (r: nat)
    requires Filled(atr[..], Decode(Convention(inverse), raw), r0) && r0 <= last + 1 <= atr.Length && last <= |raw|
    modifies atr
    ensures r == last + 1 && Filled(atr[..], Decode(Convention(inverse), raw), r) && atr[0] == old(atr[0])
  {
    ghost var d := Decode(Convention(inverse), raw);
    r := r0;
    while r <= last
      invariant r0 <= r <= last + 1 && Filled(atr[..], d, r) && atr[0] == old(atr[0])
    {
      FilledMore(atr[..], d, r);
      ghost var before := atr[..];
      ReadByte(atr, r, raw[r - 1], inverse);
      assert atr[0] == before[r := d[r - 1]][0];
      r := r + 1;
    }
  }

  function Low(y: nat, n: nat): nat
    decreases n, y
  {
    if n == 0 then 0 else y % 2 + Low(y / 2, n - 1)
  }

  lemma AnnouncedIsLow(y: nat)
    ensures Announced(y) == Low(y, 4)
  {
    assert y / 2 / 2 == y / 4 && y / 4 / 2 == y / 8;
    assert Low(y / 8, 1) == y / 8 % 2;
    assert Low(y / 4, 2) == y / 4 % 2 + Low(y / 8, 1);
    assert Low(y / 2, 3) == y / 2 % 2 + Low(y / 4, 2);
  }

  /** The loop over the upper four bits. */
  method CountAnnounced(b: byte) returns (n: nat)
    ensures n == Announced(b / 16)
  {
    var i: nat, y: nat := 0, b / 16;
    n := 0;
    AnnouncedIsLow(y);
    ghost var left: nat := 4;
    while i < 4
      invariant 0 <= i <= 4 && left == 4 - i && n + Low(y, left) == Announced(b / 16)
    {
      n, y, i, left := n + y % 2, y / 2, i + 1, left - 1;
    }
  }

  lemma TopBit(b: nat)
    ensures b / 128 % 2 == b / 16 / 8 % 2
  {
    assert b / 16 / 8 == b / 128;
  }

  lemma LowHalf(b: nat)
    ensures b % 16 % 2 == b % 2
  {
  }

  /** What the loop computes from T0 or a TD byte is its head. */
  method ReadHead(b: byte, ghost head: byte -> Head) returns (n: nat, more_td: bool, odd: bool)
    requires head == HeadOf
    ensures n == head(b).n && more_td == head(b).td && odd == (head(b).t % 2 == 1)
  {
    n := CountAnnounced(b);
    TopBit(b);
    LowHalf(b);
    more_td := b / 128 % 2 == 1;
    odd := b % 2 == 1;
  }

  /** What is still to come when the loop has read up to an index. */
  function Ahead(head: byte -> Head, more: bool, size: nat, checksum: bool, b: byte, s: seq<byte>): (nat, bool)
    requires more ==> Complete(head, b, s)
  {
    if more then Or(checksum, Walk(head, size, b, s)) else (size, checksum)
  }

  /** One group of interface bytes. */
  method ReadGroup(atr: array<byte>, r0: nat, checksum0: bool, raw: seq<byte>, inverse: bool, ghost head: byte -> Head,
                   ghost d: seq<byte>)
      returns (atr_size: nat, more_td: bool, checksum: bool)
    requires d == Decode(Convention(inverse), raw) && head == HeadOf
    requires 1 <= r0 <= |d| && Filled(atr[..], d, r0 + 1)
    requires Complete(head, atr[r0], d[r0..]) && Walk(head, r0, atr[r0], d[r0..]).0 < atr.Length
    modifies atr
    ensures r0 <= atr_size <= |raw| && Filled(atr[..], d, atr_size + 1)
    ensures atr[0] == old(atr[0]) && (more_td ==> r0 < atr_size)
    ensures more_td ==> Complete(head, atr[atr_size], d[atr_size..])
    ensures Ahead(head, more_td, atr_size, checksum, atr[atr_size], d[atr_size..])
      == Or(checksum0, Walk(head, r0, old(atr[r0]), d[r0..]))
  {
    var b := atr[r0];
    var n, odd;
    n, more_td, odd := ReadHead(b, head);
    WalkEnd(head, r0, b, d[r0..]);
    atr_size := r0 + n;
    checksum := checksum0 || (r0 > 2 && odd);
    var r := ReadUpTo(atr, r0 + 1, atr_size, raw, inverse);
    GroupDone(head, atr[..], d, r0, b, checksum0, head(b));
  }

  /** What the next group starts from. */
  lemma GroupDone(head: byte -> Head, atr: seq<byte>, d: seq<byte>, r0: nat, b: byte, checksum0: bool, h: Head)
    requires h == head(b) && 1 <= r0 <= |d| && r0 + h.n < |atr| && Complete(head, b, d[r0..])
    requires Filled(atr, d, r0 + h.n + 1)
    ensures r0 + h.n <= |d| && (h.td ==> Complete(head, atr[r0 + h.n], d[r0 + h.n..]))
    ensures Ahead(head, h.td, r0 + h.n, checksum0 || (r0 > 2 && h.t % 2 == 1), atr[r0 + h.n], d[r0 + h.n..])
      == Or(checksum0, Walk(head, r0, b, d[r0..]))
  {
    GroupStep(head, r0, b, d, checksum0);
    if h.td {
      LastRead(atr, d, r0 + h.n);
    }
  }

  /** The loop over the interface groups: the index of the last byte read, and whether a
      checksum is expected. */
  method ReadGroups(atr: array<byte>, raw: seq<byte>, inverse: bool) returns (atr_size: nat, checksum: bool)
    requires Filled(atr[..], Decode(Convention(inverse), raw), 2) && raw != []
    requires var d := Decode(Convention(inverse), raw);
      Complete(HeadOf, d[0], d[1..]) && Walk(HeadOf, 1, d[0], d[1..]).0 < atr.Length
    modifies atr
    ensures var d := Decode(Convention(inverse), raw);
      (atr_size, checksum) == Walk(HeadOf, 1, d[0], d[1..]) && 1 <= atr_size <= |d| && Filled(atr[..], d, atr_size + 1)
    ensures atr[0] == old(atr[0])
  {
    ghost var d := Decode(Convention(inverse), raw);
    ghost var head: byte -> Head := HeadOf;
    ghost var goal := Walk(head, 1, d[0], d[1..]);
    var more_td := true;
    atr_size, checksum := 1, false;
    assert atr[1] == atr[1..2][0] == d[..1][0];
    while more_td
      invariant 1 <= atr_size <= |d| && Filled(atr[..], d, atr_size + 1) && atr[0] == old(atr[0])
      invariant more_td ==> Complete(head, atr[atr_size], d[atr_size..])
      invariant Ahead(head, more_td, atr_size, checksum, atr[atr_size], d[atr_size..]) == goal
      decreases |d| - atr_size, more_td
    {
      atr_size, more_td, checksum := ReadGroup(atr, atr_size, checksum, raw, inverse, head, d);
    }
  }

  function Or(checksum: bool, w: (nat, bool)): (nat, bool) {
    (w.0, checksum || w.1)
  }

  lemma {:induction false} WalkEnd(head: byte -> Head, r: nat, b: byte, s: seq<byte>)
    requires Complete(head, b, s)
    ensures r + head(b).n <= Walk(head, r, b, s).0
    decreases |s|
  {
    var h := head(b);
    if h.td {
      WalkEnd(head, r + h.n, s[h.n - 1], s[h.n..]);
    }
  }

  /** The byte read last is the one the grammar looks at next. */
  lemma LastRead(atr: seq<byte>, d: seq<byte>, r: nat)
    requires 1 <= r < |atr| && Filled(atr, d, r + 1)
    ensures atr[r] == d[r - 1]
  {
    assert atr[r] == atr[1..r + 1][r - 1];
  }

  lemma GroupStep(head: byte -> Head, r: nat, b: byte, d: seq<byte>, checksum: bool)
    requires r <= |d| && Complete(head, b, d[r..])
    ensures var h := head(b);
      && r + h.n <= |d| && r + h.n <= Walk(head, r, b, d[r..]).0
      && (h.td ==> Complete(head, d[r + h.n - 1], d[r + h.n..]))
    ensures var h := head(b);
      var checksum1 := checksum || (r > 2 && h.t % 2 == 1);
      Or(checksum, Walk(head, r, b, d[r..]))
        == if h.td then Or(checksum1, Walk(head, r + h.n, d[r + h.n - 1], d[r + h.n..])) else (r + h.n, checksum1)
  {
    var h := head(b);
    WalkEnd(head, r, b, d[r..]);
    assert d[r..][h.n..] == d[r + h.n..];
    assert h.td ==> d[r..][h.n - 1] == d[r + h.n - 1];
  }

  /** Where TS is: a first byte of zero is skipped. */
  function TsAt(raw: seq<byte>): nat {
    if raw != [] && raw[0] == 0 then 1 else 0
  }

  predicate Standard(ts: byte) {
    ts == TS_INVERSE_RAW || ts == TS_DIRECT
  }

  /** What the card sends behind TS, in its convention. */
  function Behind(raw: seq<byte>): seq<byte>
    requires TsAt(raw) < |raw|
  {
    Decode(Convention(raw[TsAt(raw)] == TS_INVERSE_RAW), raw[TsAt(raw) + 1..])
  }

  /** The card sends as much as the reader waits for, and it fits the buffer. */
  predicate Sends(raw: seq<byte>) {
    TsAt(raw) < |raw| && (Standard(raw[TsAt(raw)]) ==>
      var d := Behind(raw);
      d != [] && Complete(HeadOf, d[0], d[1..]) && ReadLength(d) <= |d| && ReadLength(d) < ATR_SIZE)
  }

  /** The bytes behind the groups: historical ones and a checksum. */
  method ReadTail(atr: array<byte>, atr_size: nat, checksum: bool, raw: seq<byte>, inverse: bool) returns (n: nat)
    requires Filled(atr[..], Decode(Convention(inverse), raw), atr_size + 1) && raw != [] && 1 <= atr_size
    requires var k := Convention(inverse)(raw[0]) % 16 + if checksum then 1 else 0;
      atr_size + k <= |raw| && atr_size + k < atr.Length
    modifies atr
    ensures n == atr_size + 1 + Convention(inverse)(raw[0]) % 16 + if checksum then 1 else 0
    ensures Filled(atr[..], Decode(Convention(inverse), raw), n) && atr[0] == old(atr[0])
  {
    ghost var d := Decode(Convention(inverse), raw);
    assert atr[1] == atr[1..atr_size + 1][0] == d[..atr_size][0] == d[0];
    var k := atr[1] % 16;
    n := ReadUpTo(atr, atr_size + 1, atr_size + k, raw, inverse);
    if checksum {
      n := ReadUpTo(atr, n, n, raw, inverse);
    }
  }

  method ReadBehindTs(atr: array<byte>, raw: seq<byte>, inverse: bool) returns (n: nat)
    requires atr.Length == ATR_SIZE && raw != []
    requires var d := Decode(Convention(inverse), raw);
      Complete(HeadOf, d[0], d[1..]) && ReadLength(d) <= |d| && ReadLength(d) < ATR_SIZE
    modifies atr
    ensures var d := Decode(Convention(inverse), raw); n == 1 + ReadLength(d) && Filled(atr[..], d, n)
    ensures atr[0] == old(atr[0])
  {
    ghost var d := Decode(Convention(inverse), raw);
    var r := ReadUpTo(atr, 1, 1, raw, inverse);
    var atr_size, checksum := ReadGroups(atr, raw, inverse);
    n := ReadTail(atr, atr_size, checksum, raw, inverse);
  }

  /** smartcard_get_atr: the buffer holds TS and as many bytes behind it as the rules of
      the reader say, of which the first n are shown. After a non-standard TS up to eight
      more bytes are taken as they come, and the last of them is not shown. */
  method GetAtr(raw: seq<byte>) returns (outcome: Outcome, atr: array<byte>, n: nat)
    requires Sends(raw)
    ensures n <= ATR_SIZE == atr.Length
    ensures var ts := raw[TsAt(raw)];
      if Standard(ts) then
        outcome == Answered(ts == TS_INVERSE_RAW) && n == 1 + ReadLength(Behind(raw))
        && atr[..n] == [if ts == TS_INVERSE_RAW then TS_INVERSE else TS_DIRECT] + Behind(raw)[..n - 1]
      else
        outcome == NonStandard(n) && n == Min(8, |raw| - TsAt(raw) - 1)
        && atr[..1 + n] == raw[TsAt(raw)..TsAt(raw) + 1 + n]
  {
    atr := new byte[ATR_SIZE](_ => 0);
    var at := if raw[0] == 0 then 1 else 0;
    atr[0] := raw[at];
    match atr[0] {
      case 0x03 =>
        atr[0] := TS_INVERSE;
        n := ReadAnswer(atr, raw[at + 1..], true);
        outcome := Answered(true);
      case 0x3B =>
        n := ReadAnswer(atr, raw[at + 1..], false);
        outcome := Answered(false);
      case _ =>
        n := ReadEight(atr, raw, at);
        outcome := NonStandard(n);
    }
  }

  method ReadEight(atr: array<byte>, raw: seq<byte>, at: nat) returns (n: nat)
    requires atr.Length == ATR_SIZE && at < |raw| && atr[0] == raw[at]
    modifies atr
    ensures n == Min(8, |raw| - at - 1) && atr[..1 + n] == raw[at..at + 1 + n]
  {
    n := if |raw| - at - 1 < 8 then |raw| - at - 1 else 8;
    Copy(atr, 1, raw[at + 1..at + 1 + n]);
    assert atr[..1 + n] == atr[..1] + atr[1..1 + n];
    assert raw[at..at + 1 + n] == [raw[at]] + raw[at + 1..at + 1 + n];
  }

  method ReadAnswer(atr: array<byte>, raw: seq<byte>, inverse: bool) returns (n: nat)
    requires atr.Length == ATR_SIZE && raw != []
    requires var d := Decode(Convention(inverse), raw);
      Complete(HeadOf, d[0], d[1..]) && ReadLength(d) <= |d| && ReadLength(d) < ATR_SIZE
    modifies atr
    ensures var d := Decode(Convention(inverse), raw);
      n == 1 + ReadLength(d) && n <= ATR_SIZE && atr[..n] == [old(atr[0])] + d[..n - 1]
  {
    n := ReadBehindTs(atr, raw, inverse);
    assert atr[..n] == [atr[0]] + atr[1..n];
  }
}