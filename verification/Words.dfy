/** 32-bit words as the firmware receives them, bit by bit, and reverse_u32 of common.c. */
module Words {
  import opened Bits
  import opened Registers

  function ReverseU32(v: bv32): bv32 {
    var v1 := ((v & 0x55555555) << 1) | ((v & 0xAAAAAAAA) >> 1);
    var v2 := ((v1 & 0x33333333) << 2) | ((v1 & 0xCCCCCCCC) >> 2);
    var v3 := ((v2 & 0x0F0F0F0F) << 4) | ((v2 & 0xF0F0F0F0) >> 4);
    var v4 := ((v3 & 0x00FF00FF) << 8) | ((v3 & 0xFF00FF00) >> 8);
    (v4 << 16) | (v4 >> 16)
  }

  /** Reversal treats every bit of a word on its own ... */
  lemma ReverseU32Or(v: bv32, w: bv32)
    ensures ReverseU32(v | w) == ReverseU32(v) | ReverseU32(w)
  {
  }

  lemma ReverseU32Twice(v: bv32)
    ensures ReverseU32(ReverseU32(v)) == v
  {
  }

  /** ... and sends bit i to bit 31 - i; the two facts determine it. */
  lemma ReverseU32Bit(i: bv32)
    requires i < 32
    ensures ReverseU32(1 << i) == 0x80000000 >> i
  {
  }

  // -------------------------------------------------- words as runs of bits

  predicate AllOnes(s: seq<bool>) {
    forall k :: 0 <= k < |s| ==> s[k]
  }

  function Or32(x: bv32, y: bv32): bv32 {
    x | y
  }

  function Up(w: bv32): bv32 {
    w << 1
  }

  function Down(w: bv32): bv32 {
    w >> 1
  }

  function Word32(): Register<bv32> {
    Register(0, Or32, Up, Down, One)
  }

  function WordOf(s: seq<bool>): bv32 {
    Build(Word32(), s)
  }

  lemma UpOr(x: bv32, y: bv32)
    ensures Up(Or32(x, y)) == Or32(Up(x), Up(y))
  {
  }

  lemma UpsAdd()
    ensures UpAdds(Word32())
  {
    forall x, y ensures Up(Or32(x, y)) == Or32(Up(x), Up(y)) {
      UpOr(x, y);
    }
  }

  lemma OrOr(x: bv32, y: bv32, z: bv32)
    ensures x | (y | z) == (x | y) | z
  {
  }

  lemma OrsGroup()
    ensures OrGroups(Word32())
  {
    forall x, y, z ensures Or32(x, Or32(y, z)) == Or32(Or32(x, y), z) {
      OrOr(x, y, z);
    }
  }

  lemma OrZero(x: bv32)
    ensures Or32(x, 0) == x && Or32(0, x) == x && Up(0) == 0
  {
  }

  lemma ZeroLaws()
    ensures RightZero(Word32()) && LeftZero(Word32())
  {
    forall x ensures Or32(x, 0) == x && Or32(0, x) == x {
      OrZero(x);
    }
    OrZero(0);
  }

  predicate Within(w: bv32, m: bv32) {
    w | m == m
  }

  lemma WithinStep(w: bv32, m: bv32, b: bool)
    requires Within(w, m)
    ensures Within(Or32(One(b), Up(w)), Or32(One(true), Up(m)))
  {
    WithinUp(w, m, One(b));
  }

  lemma WithinUp(w: bv32, m: bv32, o: bv32)
    requires w | m == m && o | 1 == 1
    ensures (o | (w << 1)) | (1 | (m << 1)) == 1 | (m << 1)
  {
  }

  lemma WithinZero(w: bv32)
    ensures Within(0, w)
  {
  }

  lemma FitsOnes(s: seq<bool>, k: nat)
    requires |s| <= k
    ensures Within(WordOf(s), WordOf(Repeated(true, k)))
  {
    forall w, m, b | Within(w, m) ensures Within(Or32(One(b), Up(w)), Or32(One(true), Up(m))) {
      WithinStep(w, m, b);
    }
    forall x ensures Within(0, x) {
      WithinZero(x);
    }
    BuildWithin(Word32(), Within, s, k);
  }

  const WORD: nat := 32

  /** Fewer bits than a word has leave its top bit free. */
  lemma TopFree(s: seq<bool>)
    requires |s| < WORD
    ensures WordOf(s) & 0x80000000 == 0
  {
    FitsOnes(s, 31);
    OnesWords();
    NoTop(WordOf(s));
  }

  lemma NoTop(w: bv32)
    requires Within(w, 0x7FFFFFFF)
    ensures w & 0x80000000 == 0
  {
  }

  lemma OnesWords()
    ensures WordOf(Repeated(true, 31)) == 0x7FFFFFFF && WordOf(Repeated(true, 32)) == 0xFFFFFFFF
  {
    FourOnes(0, 0);
    FourOnes(4, 0xF);
    FourOnes(8, 0xFF);
    FourOnes(12, 0xFFF);
    FourOnes(16, 0xFFFF);
    FourOnes(20, 0xFFFFF);
    FourOnes(24, 0xFFFFFF);
    FourOnes(28, 0xFFFFFFF);
  }

  lemma FourOnes(n: nat, w: bv32)
    requires WordOf(Repeated(true, n)) == w
    ensures WordOf(Repeated(true, n + 3)) == (w << 3) | 7
    ensures WordOf(Repeated(true, n + 4)) == (w << 4) | 0xF
  {
    OneMoreOne(n);
    OneMoreOne(n + 1);
    OneMoreOne(n + 2);
    OneMoreOne(n + 3);
    UpFour(w);
  }

  lemma OneMoreOne(n: nat)
    ensures WordOf(Repeated(true, n + 1)) == Or32(One(true), Up(WordOf(Repeated(true, n))))
  {
    assert Repeated(true, n + 1)[1..] == Repeated(true, n);
  }

  lemma UpFour(w: bv32)
    ensures Or32(1, Up(Or32(1, Up(Or32(1, Up(w)))))) == (w << 3) | 7
    ensures Or32(1, Up(Or32(1, Up(Or32(1, Up(Or32(1, Up(w)))))))) == (w << 4) | 0xF
  {
  }

  lemma DropBit(w: bv32, b: bool)
    requires w & 0x80000000 == 0
    ensures Down(Or32(One(b), Up(w))) == w
  {
  }

  lemma LowIsFirst(w: bv32, b: bool)
    ensures Odd(Or32(One(b), Up(w))) <==> b
  {
  }

  lemma DropsFirst(u: seq<bool>)
    requires 0 < |u| <= WORD
    ensures Dropped(Word32(), u) && (Odd(WordOf(u)) <==> u[0])
  {
    TopFree(u[1..]);
    DropBit(WordOf(u[1..]), u[0]);
    LowIsFirst(WordOf(u[1..]), u[0]);
  }

  lemma DropsLow()
    ensures LowDrops(Word32(), WORD)
  {
    forall u: seq<bool> | 0 < |u| <= WORD ensures Dropped(Word32(), u) {
      DropsFirst(u);
    }
  }

  lemma ReverseUp(w: bv32)
    ensures ReverseU32(w << 1) == ReverseU32(w) >> 1
  {
  }

  lemma ReverseOne(b: bool)
    ensures ReverseU32(One(b)) == if b then 0x80000000 else 0
  {
  }

  lemma ReverseAddsSwapped(x: bv32, y: bv32)
    ensures ReverseU32(Or32(x, y)) == Or32(ReverseU32(y), ReverseU32(x))
  {
    ReverseU32Or(x, y);
    OrSwap(ReverseU32(x), ReverseU32(y));
  }

  lemma OrSwap(x: bv32, y: bv32)
    ensures x | y == y | x
  {
  }

  lemma MovedFour(b: bool, n: nat, w: bv32)
    requires Moved(Word32(), b, n) == w
    ensures Moved(Word32(), b, n + 3) == w << 3 && Moved(Word32(), b, n + 4) == w << 4
  {
    var f := Word32();
    assert Moved(f, b, n + 1) == Up(w);
    assert Moved(f, b, n + 2) == Up(Up(w));
    assert Moved(f, b, n + 3) == Up(Up(Up(w)));
    assert Moved(f, b, n + 4) == Up(Up(Up(Up(w))));
    UpsShift(w);
  }

  lemma UpsShift(w: bv32)
    ensures Up(Up(Up(w))) == w << 3 && Up(Up(Up(Up(w)))) == w << 4
  {
  }

  lemma TopMoved()
    ensures Moved(Word32(), true, WORD - 1) == 0x80000000
    ensures Moved(Word32(), false, WORD - 1) == 0
  {
    MovedFour(true, 0, 1);
    MovedFour(true, 4, 0x10);
    MovedFour(true, 8, 0x100);
    MovedFour(true, 12, 0x1000);
    MovedFour(true, 16, 0x10000);
    MovedFour(true, 20, 0x100000);
    MovedFour(true, 24, 0x1000000);
    MovedFour(true, 28, 0x10000000);
    MovedFour(false, 0, 0);
    MovedFour(false, 4, 0);
    MovedFour(false, 8, 0);
    MovedFour(false, 12, 0);
    MovedFour(false, 16, 0);
    MovedFour(false, 20, 0);
    MovedFour(false, 24, 0);
    MovedFour(false, 28, 0);
  }

  lemma ReverseLaws()
    ensures ReverseAdds(Word32(), ReverseU32) && ReverseMoves(Word32(), ReverseU32, WORD)
  {
    forall x, y ensures ReverseU32(Or32(x, y)) == Or32(ReverseU32(y), ReverseU32(x)) {
      ReverseAddsSwapped(x, y);
    }
    forall x ensures ReverseU32(Up(x)) == Down(ReverseU32(x)) {
      ReverseUp(x);
    }
    forall b ensures ReverseU32(One(b)) == Moved(Word32(), b, WORD - 1) {
      ReverseOne(b);
      TopMoved();
    }
  }

  lemma PutsTop()
    ensures TopPut(Word32(), WORD)
  {
    Lawful();
    SnocsFrom(Word32());
    SnocsTop(Word32(), WORD);
  }

  lemma Lawful()
    ensures OrLaws(Word32()) && LeftZero(Word32())
  {
    UpsAdd();
    OrsGroup();
    ZeroLaws();
  }

  lemma Turns()
    ensures TurnsAround(Word32(), ReverseU32, WORD)
  {
    ReverseLaws();
    TurnsFrom(Word32(), ReverseU32, WORD);
  }

  /** A bit shifted to its place, as jtag_read_u32 does it. */
  lemma {:induction false} MovedIsShift(b: bool, i: nat)
    requires i < WORD
    ensures Moved(Word32(), b, i) == One(b) << i
    decreases i
  {
    if i == 0 {
      NoShift(One(b));
    } else {
      MovedIsShift(b, i - 1);
      ShiftStep(b, i);
    }
  }

  lemma NoShift(w: bv32)
    ensures w << 0 == w
  {
  }

  lemma ShiftStep(b: bool, i: nat)
    requires 0 < i < WORD
    ensures One(b) << i == Up(One(b) << (i - 1))
  {
    if b {
      OneShifted(i);
    } else {
      ZeroShifted(i);
    }
  }

  lemma ZeroShifted(i: nat)
    requires 0 < i < WORD
    ensures (0 as bv32) << i == Up((0 as bv32) << (i - 1))
  {
  }

  lemma OneShifted(i: nat)
    requires 0 < i < WORD
    ensures (1 as bv32) << i == Up((1 as bv32) << (i - 1))
  {
    if i < 16 {
      OneShiftedFirst(i);
    } else if i < 24 {
      OneShiftedThird(i);
    } else {
      OneShiftedLast(i);
    }
  }

  lemma OneShiftedFirst(i: nat)
    requires 0 < i < 16
    ensures (1 as bv32) << i == Up((1 as bv32) << (i - 1))
  {
  }

  lemma OneShiftedThird(i: nat)
    requires 16 <= i < 24
    ensures (1 as bv32) << i == Up((1 as bv32) << (i - 1))
  {
    assert i == 16 || i == 17 || i == 18 || i == 19 || i == 20 || i == 21 || i == 22 || i == 23;
  }

  lemma OneShiftedLast(i: nat)
    requires 24 <= i < WORD
    ensures (1 as bv32) << i == Up((1 as bv32) << (i - 1))
  {
    assert i == 24 || i == 25 || i == 26 || i == 27 || i == 28 || i == 29 || i == 30 || i == 31;
  }

  /** `value |= b << i`. */
  function WithBit(w: bv32, b: bool, i: nat): bv32
    requires i < WORD
  {
    Or32(w, One(b) << i)
  }

  lemma WithMoved(w: bv32, b: bool, i: nat)
    requires i < WORD
    ensures WithBit(w, b, i) == Or32(w, Moved(Word32(), b, i))
  {
    MovedIsShift(b, i);
  }

  /** It puts one more bit on top of those received. */
  lemma WordOfSnoc(s: seq<bool>, b: bool, i: nat)
    requires i == |s| < WORD
    ensures WordOf(s + [b]) == WithBit(WordOf(s), b, i)
  {
    Lawful();
    SnocsFrom(Word32());
    BuildSnoc(Word32(), s, b);
    WithMoved(WordOf(s), b, i);
  }

  // --------------------------------------------------- the bits of a word

  lemma BitAtStep(w: bv32, j: nat)
    ensures BitAt(w, j) <==> if j == 0 then Odd(w) else BitAt(Down(w), j - 1)
  {
  }

  /** Bit j of a word received is the bit received j-th. */
  lemma {:induction false} WordBit(s: seq<bool>, j: nat)
    requires j < |s| <= WORD
    ensures BitAt(WordOf(s), j) <==> s[j]
    decreases j
  {
    DropsFirst(s);
    assert Dropped(Word32(), s);
    BitAtStep(WordOf(s), j);
    if j > 0 {
      WordBit(s[1..], j - 1);
    }
  }

  lemma {:induction false} ReversedAt<T>(s: seq<T>, k: nat)
    requires k < |s|
    ensures Reversed(s)[k] == s[|s| - 1 - k]
    decreases |s|
  {
    if k < |s| - 1 {
      ReversedAt(s[1..], k);
    }
  }

  /** And after reverse_u32 it is the one received j-th from the last. */
  lemma ReversedWordBit(s: seq<bool>, j: nat)
    requires |s| == WORD && j < WORD
    ensures BitAt(ReverseU32(WordOf(s)), j) <==> s[31 - j]
  {
    ReverseWord(s);
    ReversedAt(s, j);
    WordBit(Reversed(s), j);
  }

  /** The masks and shifts of reverse_u32 turn the bits of a word around. */
  lemma ReverseWord(s: seq<bool>)
    requires |s| == WORD
    ensures ReverseU32(WordOf(s)) == WordOf(Reversed(s))
  {
    DropsLow();
    PutsTop();
    Turns();
    ZeroWord();
    ReverseBuild(Word32(), ReverseU32, s, WORD);
    assert Padded(s, WORD) == Reversed(s);
  }

  lemma ZeroWord()
    ensures ReverseU32(0) == 0 == Build(Word32(), Repeated(false, WORD))
  {
    Lawful();
    BuildZeros(Word32(), WORD);
    ReverseOne(false);
  }

  /** The two tests of the IDCODE scan on a received word. */
  lemma WordTests(s: seq<bool>)
    requires |s| == WORD
    ensures Odd(WordOf(s)) <==> s[0]
    ensures WordOf(s) == 0xFFFFFFFF <==> AllOnes(s)
  {
    LowIsFirst(WordOf(s[1..]), s[0]);
    OnesWords();
    if WordOf(s) == 0xFFFFFFFF {
      WordsDiffer(s, Repeated(true, WORD));
      RepeatedOnes(WORD);
    }
    if AllOnes(s) {
      OnesRepeat(s);
    }
  }

  lemma {:induction false} RepeatedOnes(n: nat)
    ensures AllOnes(Repeated(true, n))
  {
    if n > 0 {
      RepeatedOnes(n - 1);
    }
  }

  lemma {:induction false} OnesRepeat(s: seq<bool>)
    requires AllOnes(s)
    ensures s == Repeated(true, |s|)
  {
    if s != [] {
      OnesRepeat(s[1..]);
      assert s == [s[0]] + s[1..];
    }
  }

  lemma WordsDiffer(s: seq<bool>, t: seq<bool>)
    requires |s| == |t| <= WORD && WordOf(s) == WordOf(t)
    ensures s == t
  {
    DropsLow();
    forall u: seq<bool> | 0 < |u| <= WORD
      ensures Odd(Build(Word32(), u)) == u[0] && Word32().down(Build(Word32(), u)) == Build(Word32(), u[1..])
    {
      DropsFirst(u);
    }
    SameBits(Word32(), Odd, s, t, WORD);
  }
}
