/** The table-driven CRC-32 of hex2dfu.c against the division that defines it
    (section 8 of RFC 1952). */
module Crc32 {
  import opened Bits
  import opened Bytes
  import opened Division

  /** crc32_tab, sixteen entries a row. */
  const CRC32_TAB: seq<seq<bv32>> := [
    [ 0x00000000, 0x77073096, 0xee0e612c, 0x990951ba, 0x076dc419, 0x706af48f, 0xe963a535, 0x9e6495a3,
      0x0edb8832, 0x79dcb8a4, 0xe0d5e91e, 0x97d2d988, 0x09b64c2b, 0x7eb17cbd, 0xe7b82d07, 0x90bf1d91 ],
    [ 0x1db71064, 0x6ab020f2, 0xf3b97148, 0x84be41de, 0x1adad47d, 0x6ddde4eb, 0xf4d4b551, 0x83d385c7,
      0x136c9856, 0x646ba8c0, 0xfd62f97a, 0x8a65c9ec, 0x14015c4f, 0x63066cd9, 0xfa0f3d63, 0x8d080df5 ],
    [ 0x3b6e20c8, 0x4c69105e, 0xd56041e4, 0xa2677172, 0x3c03e4d1, 0x4b04d447, 0xd20d85fd, 0xa50ab56b,
      0x35b5a8fa, 0x42b2986c, 0xdbbbc9d6, 0xacbcf940, 0x32d86ce3, 0x45df5c75, 0xdcd60dcf, 0xabd13d59 ],
    [ 0x26d930ac, 0x51de003a, 0xc8d75180, 0xbfd06116, 0x21b4f4b5, 0x56b3c423, 0xcfba9599, 0xb8bda50f,
      0x2802b89e, 0x5f058808, 0xc60cd9b2, 0xb10be924, 0x2f6f7c87, 0x58684c11, 0xc1611dab, 0xb6662d3d ],
    [ 0x76dc4190, 0x01db7106, 0x98d220bc, 0xefd5102a, 0x71b18589, 0x06b6b51f, 0x9fbfe4a5, 0xe8b8d433,
      0x7807c9a2, 0x0f00f934, 0x9609a88e, 0xe10e9818, 0x7f6a0dbb, 0x086d3d2d, 0x91646c97, 0xe6635c01 ],
    [ 0x6b6b51f4, 0x1c6c6162, 0x856530d8, 0xf262004e, 0x6c0695ed, 0x1b01a57b, 0x8208f4c1, 0xf50fc457,
      0x65b0d9c6, 0x12b7e950, 0x8bbeb8ea, 0xfcb9887c, 0x62dd1ddf, 0x15da2d49, 0x8cd37cf3, 0xfbd44c65 ],
    [ 0x4db26158, 0x3ab551ce, 0xa3bc0074, 0xd4bb30e2, 0x4adfa541, 0x3dd895d7, 0xa4d1c46d, 0xd3d6f4fb,
      0x4369e96a, 0x346ed9fc, 0xad678846, 0xda60b8d0, 0x44042d73, 0x33031de5, 0xaa0a4c5f, 0xdd0d7cc9 ],
    [ 0x5005713c, 0x270241aa, 0xbe0b1010, 0xc90c2086, 0x5768b525, 0x206f85b3, 0xb966d409, 0xce61e49f,
      0x5edef90e, 0x29d9c998, 0xb0d09822, 0xc7d7a8b4, 0x59b33d17, 0x2eb40d81, 0xb7bd5c3b, 0xc0ba6cad ],
    [ 0xedb88320, 0x9abfb3b6, 0x03b6e20c, 0x74b1d29a, 0xead54739, 0x9dd277af, 0x04db2615, 0x73dc1683,
      0xe3630b12, 0x94643b84, 0x0d6d6a3e, 0x7a6a5aa8, 0xe40ecf0b, 0x9309ff9d, 0x0a00ae27, 0x7d079eb1 ],
    [ 0xf00f9344, 0x8708a3d2, 0x1e01f268, 0x6906c2fe, 0xf762575d, 0x806567cb, 0x196c3671, 0x6e6b06e7,
      0xfed41b76, 0x89d32be0, 0x10da7a5a, 0x67dd4acc, 0xf9b9df6f, 0x8ebeeff9, 0x17b7be43, 0x60b08ed5 ],
    [ 0xd6d6a3e8, 0xa1d1937e, 0x38d8c2c4, 0x4fdff252, 0xd1bb67f1, 0xa6bc5767, 0x3fb506dd, 0x48b2364b,
      0xd80d2bda, 0xaf0a1b4c, 0x36034af6, 0x41047a60, 0xdf60efc3, 0xa867df55, 0x316e8eef, 0x4669be79 ],
    [ 0xcb61b38c, 0xbc66831a, 0x256fd2a0, 0x5268e236, 0xcc0c7795, 0xbb0b4703, 0x220216b9, 0x5505262f,
      0xc5ba3bbe, 0xb2bd0b28, 0x2bb45a92, 0x5cb36a04, 0xc2d7ffa7, 0xb5d0cf31, 0x2cd99e8b, 0x5bdeae1d ],
    [ 0x9b64c2b0, 0xec63f226, 0x756aa39c, 0x026d930a, 0x9c0906a9, 0xeb0e363f, 0x72076785, 0x05005713,
      0x95bf4a82, 0xe2b87a14, 0x7bb12bae, 0x0cb61b38, 0x92d28e9b, 0xe5d5be0d, 0x7cdcefb7, 0x0bdbdf21 ],
    [ 0x86d3d2d4, 0xf1d4e242, 0x68ddb3f8, 0x1fda836e, 0x81be16cd, 0xf6b9265b, 0x6fb077e1, 0x18b74777,
      0x88085ae6, 0xff0f6a70, 0x66063bca, 0x11010b5c, 0x8f659eff, 0xf862ae69, 0x616bffd3, 0x166ccf45 ],
    [ 0xa00ae278, 0xd70dd2ee, 0x4e048354, 0x3903b3c2, 0xa7672661, 0xd06016f7, 0x4969474d, 0x3e6e77db,
      0xaed16a4a, 0xd9d65adc, 0x40df0b66, 0x37d83bf0, 0xa9bcae53, 0xdebb9ec5, 0x47b2cf7f, 0x30b5ffe9 ],
    [ 0xbdbdf21c, 0xcabac28a, 0x53b39330, 0x24b4a3a6, 0xbad03605, 0xcdd70693, 0x54de5729, 0x23d967bf,
      0xb3667a2e, 0xc4614ab8, 0x5d681b02, 0x2a6f2b94, 0xb40bbe37, 0xc30c8ea1, 0x5a05df1b, 0x2d02ef8d ]
  ]

  // -------------------------------------------------------- the definition

  function Xor(x: bv32, y: bv32): bv32 {
    x ^ y
  }

  function Half(x: bv32): bv32 {
    x >> 1
  }

  /** 32-bit words with exclusive or, divided by 0xEDB88320. */
  function Words(): Field<bv32> {
    Field(Xor, Half, Odd, One, 0xEDB88320)
  }

  function Word(b: byte): bv32 {
    (b as bv8) as bv32
  }

  /** A byte enters lowest bit first. */
  function ByteBits(b: byte): seq<bool> {
    LowBits(Words(), Word(b), 8)
  }

  function Not(x: bv32): bv32 {
    !x
  }

  /** The register is complemented on both sides of the division. */
  function CrcOf(crc: bv32, bytes: seq<byte>): bv32 {
    Checksum(Words(), ByteBits, Not, crc, bytes)
  }

  // ------------------------------------------------------------- the table

  function Step1(x: bv32): bv32 {
    if x & 1 == 1 then (x >> 1) ^ 0xEDB88320 else x >> 1
  }

  function Step8(x: bv32): bv32 {
    Step1(Step1(Step1(Step1(Step1(Step1(Step1(Step1(x))))))))
  }

  lemma StepIsStep1(x: bv32)
    ensures Step(Words(), x) == Step1(x)
  {
  }

  lemma StepNIsStep8(x: bv32)
    ensures StepN(Words(), x, 8) == Step8(x)
  {
    StepEight(Words(), x);
    var x1 := Step1(x);
    var x2 := Step1(x1);
    var x3 := Step1(x2);
    var x4 := Step1(x3);
    var x5 := Step1(x4);
    var x6 := Step1(x5);
    StepIsStep1(x);
    StepIsStep1(x1);
    StepIsStep1(x2);
    StepIsStep1(x3);
    StepIsStep1(x4);
    StepIsStep1(x5);
    StepIsStep1(x6);
    StepIsStep1(Step1(x6));
  }

  predicate RowHolds(h: nat, top: bv32, i: bv8) {
    && h < |CRC32_TAB| && i as int < |CRC32_TAB[h]|
    && CRC32_TAB[h][i as int] == Step8(top | i as bv32)
  }

  lemma Row0(i: bv8)
    requires i < 16
    ensures RowHolds(0, 0x0, i)
  {
  }

  lemma Row1(i: bv8)
    requires i < 16
    ensures RowHolds(1, 0x10, i)
  {
  }

  lemma Row2(i: bv8)
    requires i < 16
    ensures RowHolds(2, 0x20, i)
  {
  }

  lemma Row3(i: bv8)
    requires i < 16
    ensures RowHolds(3, 0x30, i)
  {
  }

  lemma Row4(i: bv8)
    requires i < 16
    ensures RowHolds(4, 0x40, i)
  {
  }

  lemma Row5(i: bv8)
    requires i < 16
    ensures RowHolds(5, 0x50, i)
  {
  }

  lemma Row6(i: bv8)
    requires i < 16
    ensures RowHolds(6, 0x60, i)
  {
  }

  lemma Row7(i: bv8)
    requires i < 16
    ensures RowHolds(7, 0x70, i)
  {
  }

  lemma Row8(i: bv8)
    requires i < 16
    ensures RowHolds(8, 0x80, i)
  {
  }

  lemma Row9(i: bv8)
    requires i < 16
    ensures RowHolds(9, 0x90, i)
  {
  }

  lemma Row10(i: bv8)
    requires i < 16
    ensures RowHolds(10, 0xa0, i)
  {
  }

  lemma Row11(i: bv8)
    requires i < 16
    ensures RowHolds(11, 0xb0, i)
  {
  }

  lemma Row12(i: bv8)
    requires i < 16
    ensures RowHolds(12, 0xc0, i)
  {
  }

  lemma Row13(i: bv8)
    requires i < 16
    ensures RowHolds(13, 0xd0, i)
  {
  }

  lemma Row14(i: bv8)
    requires i < 16
    ensures RowHolds(14, 0xe0, i)
  {
  }

  lemma Row15(i: bv8)
    requires i < 16
    ensures RowHolds(15, 0xf0, i)
  {
  }

  /** Every table entry is eight steps of the division on its index. */
  lemma TableEntry(i: bv8)
    ensures (i >> 4) as int < |CRC32_TAB| && (i & 0xF) as int < |CRC32_TAB[(i >> 4) as int]|
    ensures CRC32_TAB[(i >> 4) as int][(i & 0xF) as int] == Step8(i as bv32)
  {
    var h, l := i >> 4, i & 0xF;
    assert ((h as bv32) << 4) | l as bv32 == i as bv32;
    if h == 0 {
      Row0(l);
    } else if h == 1 {
      Row1(l);
    } else if h == 2 {
      Row2(l);
    } else if h == 3 {
      Row3(l);
    } else if h == 4 {
      Row4(l);
    } else if h == 5 {
      Row5(l);
    } else if h == 6 {
      Row6(l);
    } else if h == 7 {
      Row7(l);
    } else if h == 8 {
      Row8(l);
    } else if h == 9 {
      Row9(l);
    } else if h == 10 {
      Row10(l);
    } else if h == 11 {
      Row11(l);
    } else if h == 12 {
      Row12(l);
    } else if h == 13 {
      Row13(l);
    } else if h == 14 {
      Row14(l);
    } else if h == 15 {
      Row15(l);
    }
  }

  function Entry(i: bv8): bv32 {
    TableEntry(i);
    CRC32_TAB[(i >> 4) as int][(i & 0xF) as int]
  }

  // ------------------------------------------ eight bits at a time

  lemma XorShift(x: bv32, y: bv32)
    ensures (x ^ y) >> 1 == (x >> 1) ^ (y >> 1)
    ensures ((x ^ y) & 1 == 1) <==> ((x & 1 == 1) != (y & 1 == 1))
  {
  }

  lemma XorMove(x: bv32, y: bv32, p: bv32)
    ensures (x ^ p) ^ y == (x ^ y) ^ p
  {
  }

  lemma XorBit(x: bv32)
    ensures (x ^ 1) >> 1 == x >> 1 && (x ^ 0) >> 1 == x >> 1
  {
  }

  lemma WordsDownAdd()
    ensures DownAdds(Words())
  {
    forall x, y ensures Half(Xor(x, y)) == Xor(Half(x), Half(y)) {
      XorShift(x, y);
    }
  }

  lemma WordsLowAdd()
    ensures LowAdds(Words())
  {
    forall x, y ensures Odd(Xor(x, y)) == (Odd(x) != Odd(y)) {
      XorShift(x, y);
    }
  }

  lemma WordsBitsLow()
    ensures BitsAreLow(Words())
  {
    forall x, b ensures Half(Xor(x, One(b))) == Half(x) {
      XorBit(x);
    }
  }

  lemma WordsPolyMoves()
    ensures PolyMoves(Words())
  {
    forall x, y ensures Xor(Xor(x, 0xEDB88320), y) == Xor(Xor(x, y), 0xEDB88320) {
      XorMove(x, y, 0xEDB88320);
    }
  }

  lemma WordsLawful()
    ensures Lawful(Words())
  {
    WordsDownAdd();
    WordsLowAdd();
    WordsBitsLow();
    WordsPolyMoves();
  }

  lemma Down8(b: bv32)
    ensures Down(Words(), b, 8) == b >> 8
  {
    DownFour(b, 4);
    DownFour((b >> 2) >> 2, 0);
    ShiftSums(b);
  }

  lemma DownFour(b: bv32, n: nat)
    ensures Down(Words(), b, n + 4) == Down(Words(), (b >> 2) >> 2, n)
  {
    HalfTwice(b, n + 2);
    HalfTwice(b >> 2, n);
  }

  lemma HalfTwice(b: bv32, n: nat)
    ensures Down(Words(), b, n + 2) == Down(Words(), b >> 2, n)
  {
    HalfOfHalf(b);
    assert Down(Words(), b, n + 2) == Down(Words(), Half(b), n + 1);
  }

  lemma HalfOfHalf(b: bv32)
    ensures Half(Half(b)) == b >> 2
  {
  }

  lemma ShiftSums(b: bv32)
    ensures (((b >> 2) >> 2) >> 2) >> 2 == b >> 8
  {
  }

  lemma SmallWord(b: bv8)
    ensures (b as bv32) >> 8 == 0
  {
  }

  lemma XorZero(x: bv32)
    ensures x ^ 0 == x && 0 ^ x == x
  {
  }

  /** Dividing a whole byte in is eight steps on the register with the byte added. */
  lemma DivideByte(r: bv32, b: byte)
    ensures Divide(Words(), r, ByteBits(b)) == StepN(Words(), Xor(r, Word(b)), 8)
  {
    WordsLawful();
    PeelN(Words(), r, Word(b), 8);
    Down8(Word(b));
    SmallWord(b as bv8);
    XorZero(Divide(Words(), r, ByteBits(b)));
  }

  /** What eight steps do to a register: the low byte decides, the rest moves down. */
  lemma EightStepsSplit(x: bv32)
    ensures StepN(Words(), x, 8) == Xor(Divide(Words(), 0, LowBits(Words(), x, 8)), x >> 8)
  {
    WordsLawful();
    PeelN(Words(), 0, x, 8);
    Down8(x);
    XorZero(x);
  }

  lemma LowByteBits(x: bv32)
    ensures LowBits(Words(), x, 8) == LowBits(Words(), x & 0xFF, 8)
  {
    SameLowByte(x);
    SameLowBits(Words(), x, x & 0xFF, 8);
  }

  lemma SameLowByte(x: bv32)
    ensures SameLow(Words(), x, x & 0xFF, 8)
  {
    assert LowOnes(0xFF, 8);
    MaskedLow(x, 0xFF, 8);
  }

  predicate LowOnes(m: bv32, n: nat)
    decreases n
  {
    n == 0 || (Odd(m) && LowOnes(Half(m), n - 1))
  }

  lemma {:induction false} MaskedLow(x: bv32, m: bv32, n: nat)
    requires LowOnes(m, n)
    ensures SameLow(Words(), x, x & m, n)
    decreases n
  {
    if n > 0 {
      AndHalf(x, m);
      MaskedLow(Half(x), Half(m), n - 1);
    }
  }

  lemma AndHalf(x: bv32, m: bv32)
    ensures Half(x & m) == Half(x) & Half(m)
    ensures Odd(m) ==> Odd(x & m) == Odd(x)
  {
  }

  lemma EntryIsEightSteps(i: bv8)
    ensures Entry(i) == StepN(Words(), i as bv32, 8)
  {
    TableEntry(i);
    StepNIsStep8(i as bv32);
  }

  lemma ByteOfWord(x: bv32)
    ensures ((x & 0xFF) as bv8) as bv32 == x & 0xFF && (x & 0xFF) >> 8 == 0
  {
  }

  lemma Compose(e: bv32, s: bv32, d: bv32, h: bv32)
    requires e == Xor(d, 0) && s == Xor(d, h)
    ensures Xor(e, h) == s
  {
    XorZero(d);
  }

  /** One table look-up is eight steps of the division. */
  lemma TableStep(x: bv32)
    ensures Xor(Entry((x & 0xFF) as bv8), x >> 8) == StepN(Words(), x, 8)
  {
    var low := x & 0xFF;
    EightStepsSplit(x);
    EightStepsSplit(low);
    LowByteBits(x);
    ByteOfWord(x);
    EntryIsEightSteps(low as bv8);
    Compose(Entry(low as bv8), StepN(Words(), x, 8), Divide(Words(), 0, LowBits(Words(), x, 8)), x >> 8);
  }

  // ------------------------------------------------------------- the loop

  /** The body of the loop: `crc32_tab[(crc ^ *p) & 0xFF] ^ (crc >> 8)`. */
  function TableByte(crc: bv32, b: byte): bv32 {
    Xor(Entry((Xor(crc, Word(b)) & 0xFF) as bv8), crc >> 8)
  }

  lemma ByteShifts(crc: bv32, b: bv8)
    ensures (crc ^ (b as bv32)) >> 8 == crc >> 8
  {
  }

  /** The loop body divides one byte in. */
  lemma TableByteDivides(crc: bv32, b: byte)
    ensures TableByte(crc, b) == Divide(Words(), crc, ByteBits(b))
  {
    TableByteSteps(crc, b, Xor(crc, Word(b)));
    DivideByte(crc, b);
  }

  lemma TableByteSteps(crc: bv32, b: byte, y: bv32)
    requires y == Xor(crc, Word(b))
    ensures TableByte(crc, b) == StepN(Words(), y, 8)
  {
    ByteShifts(crc, b as bv8);
    TableStep(y);
  }

  lemma TableDivides()
    ensures forall x: bv32, b: byte :: TableByte(x, b) == Divide(Words(), x, ByteBits(b))
  {
    forall x: bv32, b: byte ensures TableByte(x, b) == Divide(Words(), x, ByteBits(b)) {
      TableByteDivides(x, b);
    }
  }

  /** The table-driven loop computes the division, whatever the seed and the buffer. */
  method Crc32(crc0: bv32, buf: seq<byte>) returns (r: bv32)
    ensures r == CrcOf(crc0, buf)
  {
    TableDivides();
    NotTwice(crc0);
    var crc := Fold(Words(), ByteBits, TableByte, crc0 ^ 0xFFFFFFFF, buf);
    NotTwice(crc);
    r := crc ^ 0xFFFFFFFF;
  }

  lemma NotTwice(x: bv32)
    ensures x ^ 0xFFFFFFFF == Not(x) && Not(Not(x)) == x
  {
  }

  /** A checksum continues: the checksum of a concatenation is the checksum of its
      second part seeded with that of the first. */
  lemma CrcConcat(crc: bv32, a: seq<byte>, b: seq<byte>)
    ensures CrcOf(CrcOf(crc, a), b) == CrcOf(crc, a + b)
  {
    forall x ensures Not(Not(x)) == x {
      NotTwice(x);
    }
    ChecksumConcat(Words(), ByteBits, Not, crc, a, b);
  }

  /** A published value: the checksum of the letter a. */
  lemma CheckValue()
    ensures CrcOf(0, [0x61]) == 0xE8B7BE43
  {
    OneByteCrc(0, 0x61);
    LetterEntry(0x61);
  }

  lemma OneByteCrc(crc: bv32, b: byte)
    ensures CrcOf(crc, [b]) == Not(TableByte(Not(crc), b))
  {
    RawByte(Words(), ByteBits, Not(crc), b);
    TableByteDivides(Not(crc), b);
  }

  lemma LetterEntry(b: byte)
    requires b == 0x61
    ensures Not(TableByte(Not(0), b)) == 0xE8B7BE43
  {
    assert (Xor(Not(0), Word(b)) & 0xFF) as bv8 == 0x9E;
    assert CRC32_TAB[9][14] == 0x17b7be43;
  }

  // ------------------------------------------------------------ the residue

  /** The register left by the loop, before the final complement. */
  function Register(crc: bv32, bytes: seq<byte>): bv32 {
    Raw(Words(), ByteBits, Not(crc), bytes)
  }

  function LowByte(w: bv32): byte {
    FromBits8((w & 0xFF) as bv8)
  }

  function Shr8(w: bv32): bv32 {
    w >> 8
  }

  /** The four bytes of a word, lowest first. */
  function WordBytes(w: bv32): (s: seq<byte>)
    ensures |s| == 4
  {
    [LowByte(w), LowByte(w >> 8), LowByte(w >> 16), LowByte(w >> 24)]
  }

  lemma ByteRound(x: bv8)
    ensures FromBits8(x) as bv8 == x
  {
  }

  lemma WordOfByte(x: bv8, b: byte)
    requires b as bv8 == x
    ensures Word(b) == x as bv32
  {
  }

  lemma WordOfLowByte(w: bv32)
    ensures Word(LowByte(w)) == w & 0xFF
  {
    ByteRound((w & 0xFF) as bv8);
    WordOfByte((w & 0xFF) as bv8, LowByte(w));
    ByteOfWord(w);
  }

  lemma CancelBits(w: bv32)
    ensures (w ^ (w & 0xFF)) & 0xFF == 0
  {
  }

  lemma EntryZero()
    ensures Entry(0) == 0
  {
    TableEntry(0);
  }

  /** One register byte fed back into the register clears it away. */
  lemma FeedBack(w: bv32)
    ensures Raw(Words(), ByteBits, w, [LowByte(w)]) == Shr8(w)
  {
    RawByte(Words(), ByteBits, w, LowByte(w));
    TableByteDivides(w, LowByte(w));
    FeedBackTable(w);
  }

  lemma FeedBackTable(w: bv32)
    ensures TableByte(w, LowByte(w)) == w >> 8
  {
    WordOfLowByte(w);
    CancelBits(w);
    EntryZero();
    XorZero(w >> 8);
  }

  /** Running the loop on over the register's own bytes, lowest first, leaves the
      register zero. */
  lemma Residue(crc: bv32, bytes: seq<byte>)
    ensures Register(crc, bytes + WordBytes(Register(crc, bytes))) == 0
  {
    forall x ensures Raw(Words(), ByteBits, x, [LowByte(x)]) == Shr8(x) {
      FeedBack(x);
    }
    Drain(Words(), ByteBits, LowByte, Shr8, Not(crc), bytes, Register(crc, bytes));
    Shifts(Register(crc, bytes));
  }

  lemma Shifts(w: bv32)
    ensures Shr8(Shr8(w)) == w >> 16 && Shr8(Shr8(Shr8(w))) == w >> 24 && Shr8(Shr8(Shr8(Shr8(w)))) == 0
  {
  }
}
