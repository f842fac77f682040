/** What well-formed Intel HEX files mean to the loader of hex2dfu.c, and what the
    memory of a file is. */
module IhexText {
  import opened Bytes
  import opened Ihex
  import opened Memory

  // ------------------------------------------------------------- memory

  /** The length returned is the highest extent: an upper bound that some chunk meets. */
  lemma {:induction false} ExtentIsHighest(cs: seq<Chunk>, start: nat)
    requires forall k :: 0 <= k < |cs| ==> start <= cs[k].pos
    ensures forall k :: 0 <= k < |cs| ==> ExtentOf(start, cs[k]) <= Extent(cs, start)
    ensures Extent(cs, start) == 0 || exists k :: 0 <= k < |cs| && ExtentOf(start, cs[k]) == Extent(cs, start)
    decreases |cs|
  {
    if cs != [] {
      var before := cs[..|cs| - 1];
      ExtentIsHighest(before, start);
      if Extent(cs, start) == Extent(before, start) != 0 {
        var k :| 0 <= k < |before| && ExtentOf(start, before[k]) == Extent(before, start);
        assert cs[k] == before[k];
      }
    }
  }

  /** The buffer grows for the first time exactly when the image passes 128 kB. */
  lemma {:induction false} FirstGrowth(cs: seq<Chunk>, start: nat)
    ensures Allocation(cs, start) >= 131072
    ensures Allocation(cs, start) == 131072 <==> Extent(cs, start) <= 131072
    decreases |cs|
  {
    if cs != [] {
      FirstGrowth(cs[..|cs| - 1], start);
    }
  }

  // -------------------------------------------------------- writing files

  datatype Entry =
    | DataEntry(address: nat, bytes: seq<byte>)
    | LinearEntry(high: nat)
    | OtherEntry(kind: byte, address: nat, bytes: seq<byte>)
    | Remark(text: seq<byte>)

  datatype Eol = Lf | CrLf | Missing

  function EolText(e: Eol): seq<byte> {
    match e
    case Lf => [10]
    case CrLf => [13, 10]
    case Missing => []
  }

  /** Two digits a byte, each in either letter case. */
  predicate Spells(digits: seq<byte>, bytes: seq<byte>) {
    |digits| == 2 * |bytes| && forall k :: 0 <= k < |bytes| ==> SpelledAt(digits, k, bytes[k])
  }

  predicate SpelledAt(digits: seq<byte>, k: nat, b: byte)
    requires 2 * k + 1 < |digits|
  {
    Digit(digits[2 * k]) == b / 16 && Digit(digits[2 * k + 1]) == b % 16
  }

  /** The usual spelling. */
  function Hex(bytes: seq<byte>): (text: seq<byte>)
    ensures |text| == 2 * |bytes|
  {
    if bytes == [] then [] else [HexDigit(bytes[0] / 16), HexDigit(bytes[0] % 16)] + Hex(bytes[1..])
  }

  /** The checksum byte makes the sum of a record a multiple of 256. */
  function WithChecksum(bytes: seq<byte>): (r: seq<byte>)
    ensures |r| == |bytes| + 1
  {
    bytes + [(256 - Sum(bytes) % 256) % 256]
  }

  function DataBody(kind: byte, address: nat, bytes: seq<byte>): (body: seq<byte>)
    requires address < 0x1_0000 && |bytes| <= 255
    ensures |body| == 4 + |bytes|
  {
    [|bytes|, address / 256, address % 256, kind] + bytes
  }

  predicate Encodable(e: Entry) {
    match e
    case DataEntry(address, bytes) => address < 0x1_0000 && |bytes| <= 255
    case LinearEntry(high) => high < 0x1_0000
    case OtherEntry(kind, address, bytes) => kind >= 2 && kind != 4 && address < 0x1_0000 && |bytes| <= 255
    case Remark(text) => 10 !in text
  }

  function Body(e: Entry): (body: seq<byte>)
    requires Encodable(e)
  {
    match e
    case DataEntry(address, bytes) => DataBody(0, address, bytes)
    case LinearEntry(high) => [2, 0, 0, 4, high / 256, high % 256]
    case OtherEntry(kind, address, bytes) => DataBody(kind, address, bytes)
    case Remark(_) => []
  }

  /** The lines that fgets makes of a line: 511 characters at a time. */
  function Fragments(line: seq<byte>): (fs: seq<seq<byte>>)
    ensures fs != [] && |fs[0]| == Min(|line|, LINE_SIZE - 1) && forall f <- fs :: |f| < LINE_SIZE
    decreases |line|
  {
    if |line| < LINE_SIZE then [line] else [line[..LINE_SIZE - 1]] + Fragments(line[LINE_SIZE - 1..])
  }

  /** A fragment that does not look like a record. */
  predicate IsComment(f: seq<byte>) {
    f == [] || f[0] != 58
  }

  /** A record line with any bytes, the checksum byte being the last of them. */
  function RecordLine(digits: seq<byte>, eol: Eol): (l: seq<byte>)
    ensures |l| == 1 + |digits| + |EolText(eol)|
  {
    [58] + digits + EolText(eol)
  }

  /** How many bytes of a record the line buffer takes, and how many of them are summed. */
  const MAX_BYTES: nat := 255
  const MAX_SUMMED: nat := 254

  /** A line of a file: an entry, its spelling and its end. */
  datatype Written = Written(entry: Entry, digits: seq<byte>, eol: Eol)

  function LineText(w: Written): seq<byte> {
    if w.entry.Remark? then w.entry.text + EolText(w.eol) else RecordLine(w.digits, w.eol)
  }

  /** Written with the right checksum and properly ended. Up to 249 data bytes nothing more
      is asked; 250 and 251 fill the line buffer, and the checksum must then be one that
      does not matter. A remark must not look like a record, also where it is cut. */
  predicate Wf(w: Written) {
    && Encodable(w.entry) && !w.eol.Missing?
    && if w.entry.Remark? then forall f <- Fragments(LineText(w)) :: IsComment(f)
       else Spells(w.digits, WithChecksum(Body(w.entry))) && Survives(Body(w.entry))
  }

  predicate Survives(body: seq<byte>) {
    |body| <= MAX_BYTES && (|body| >= MAX_SUMMED ==> Sum(body[..MAX_SUMMED]) % 256 == 0)
  }

  predicate AllWf(ws: seq<Written>) {
    forall w <- ws :: Wf(w)
  }

  const END_BODY: seq<byte> := [0, 0, 0, 1]

  function Lines(ws: seq<Written>): (ls: seq<seq<byte>>)
    ensures Short(ls)
  {
    if ws == [] then [] else Fragments(LineText(ws[0])) + Lines(ws[1..])
  }

  /** What an entry says: data at its absolute address. */
  function ChunkOf(e: Entry, base: nat): seq<Chunk> {
    if e.DataEntry? then [Chunk(base + e.address, e.bytes)] else []
  }

  function BaseAfter(e: Entry, base: nat): nat {
    if e.LinearEntry? then e.high * 0x1_0000 else base
  }

  function ChunksOf(ws: seq<Written>, base: nat): seq<Chunk> {
    if ws == [] then [] else ChunkOf(ws[0].entry, base) + ChunksOf(ws[1..], BaseAfter(ws[0].entry, base))
  }

  function LastBase(ws: seq<Written>, base: nat): nat {
    if ws == [] then base else LastBase(ws[1..], BaseAfter(ws[0].entry, base))
  }

  /** The raw buffer after some lines: only the first fragment of each can be a record. */
  function RawLeft(ws: seq<Written>, raw: seq<byte>): (r: seq<byte>)
    requires |raw| == RAW_SIZE
    ensures |r| == RAW_SIZE
    decreases |ws|
  {
    if ws == [] then raw else RawLeft(ws[1..], RawAfter(raw, Fragments(LineText(ws[0]))[0]))
  }

  // ------------------------------------------------------ reading them back

  lemma {:induction false} HexSpells(bytes: seq<byte>)
    ensures Spells(Hex(bytes), bytes)
    decreases |bytes|
  {
    if bytes != [] {
      HexSpells(bytes[1..]);
      var text, more := Hex(bytes), Hex(bytes[1..]);
      forall k | 0 <= k < |bytes| ensures SpelledAt(text, k, bytes[k]) {
        if k > 0 {
          assert SpelledAt(more, k - 1, bytes[1..][k - 1]);
          assert text[2 * k] == more[2 * (k - 1)] && text[2 * k + 1] == more[2 * (k - 1) + 1];
        }
      }
    }
  }

  /** Decoding inverts every spelling of the front of a record, up to a character that is
      no digit or to the end of the text. */
  lemma {:induction false} HexRoundTrip(digits: seq<byte>, bytes: seq<byte>, tail: seq<byte>)
    requires Spells(digits, bytes) && (tail == [] || Digit(tail[0]) == 16)
    ensures Decoded(digits + tail) == bytes
    decreases |bytes|
  {
    var text := digits + tail;
    if bytes == [] {
      assert text == tail;
    } else {
      assert SpelledAt(digits, 0, bytes[0]);
      SpellsRest(digits, bytes);
      HexRoundTrip(digits[2..], bytes[1..], tail);
      assert text[2..] == digits[2..] + tail;
      assert text[0] == digits[0] && text[1] == digits[1];
    }
  }

  lemma SpellsRest(digits: seq<byte>, bytes: seq<byte>)
    requires Spells(digits, bytes) && bytes != []
    ensures Spells(digits[2..], bytes[1..])
  {
    forall k | 0 <= k < |bytes[1..]| ensures SpelledAt(digits[2..], k, bytes[1..][k]) {
      assert SpelledAt(digits, k + 1, bytes[k + 1]);
    }
  }

  lemma SpellsFront(digits: seq<byte>, bytes: seq<byte>, n: nat)
    requires Spells(digits, bytes) && n <= |bytes|
    ensures Spells(digits[..2 * n], bytes[..n])
  {
    forall k | 0 <= k < n ensures SpelledAt(digits[..2 * n], k, bytes[..n][k]) {
      assert SpelledAt(digits, k, bytes[k]);
    }
  }

  lemma {:induction false} SumConcat(a: seq<byte>, b: seq<byte>)
    ensures Sum(a + b) == Sum(a) + Sum(b)
    decreases |a|
  {
    if a == [] {
      assert a + b == b;
    } else {
      assert (a + b)[1..] == a[1..] + b;
      SumConcat(a[1..], b);
    }
  }

  lemma ChecksumIsZero(bytes: seq<byte>)
    ensures Sum(WithChecksum(bytes)) % 256 == 0
  {
    var c: byte := (256 - Sum(bytes) % 256) % 256;
    SumConcat(bytes, [c]);
    SumOfOne(c);
  }

  lemma SumOfOne(b: byte)
    ensures Sum([b]) == b
  {
    assert [b][1..] == [];
  }

  /** The first fragment of a record line: the line, or as many digits as fit. */
  lemma FirstFragment(digits: seq<byte>, n: nat, eol: Eol)
    requires |digits| == 2 * n
    ensures Fragments(RecordLine(digits, eol))[0]
      == if n <= MAX_SUMMED || (n == MAX_BYTES && eol.Missing?) then RecordLine(digits, eol)
         else [58] + digits[..2 * MAX_BYTES]
  {
    var line := RecordLine(digits, eol);
    if |line| >= LINE_SIZE {
      assert line[..LINE_SIZE - 1] == [58] + digits[..2 * MAX_BYTES];
    } else if n > MAX_SUMMED {
      assert n == MAX_BYTES && line == [58] + digits[..2 * MAX_BYTES];
    }
  }

  /** How many of n bytes the checksum loop adds up: the length of the line end is always
      taken off, so a line without one loses its last byte. */
  function Summed(n: nat, eol: Eol): (m: nat)
    ensures m <= n && m <= MAX_SUMMED
  {
    Min(MAX_SUMMED, if eol.Missing? && n > 0 then n - 1 else n)
  }

  function Verdict(raw: seq<byte>, bytes: seq<byte>, summed: seq<byte>): Line
    requires |raw| == RAW_SIZE && |bytes| <= RAW_SIZE
  {
    if Sum(summed) % 256 != 0 then BadSum else Good(RecordOf(bytes + raw[|bytes|..]))
  }

  /** A fragment that spells some bytes, up to a line end: they are put over the front of
      the raw buffer, and some of them summed. */
  lemma FragmentRead(raw: seq<byte>, digits: seq<byte>, bytes: seq<byte>, tail: seq<byte>, summed: nat)
    requires |raw| == RAW_SIZE && Spells(digits, bytes) && |bytes| <= MAX_BYTES && summed <= |bytes|
    requires tail == [] || Digit(tail[0]) == 16
    requires 2 <= 1 + |digits| + |tail| < LINE_SIZE && (1 + |digits| + |tail| - 2) / 2 == summed
    ensures RawAfter(raw, [58] + digits + tail) == bytes + raw[|bytes|..]
    ensures LineOf(raw, [58] + digits + tail) == Verdict(raw, bytes, bytes[..summed])
  {
    RawAfterDigits(raw, digits, bytes, tail);
    FrontOfOverlay(raw, bytes, summed);
  }

  lemma RawAfterDigits(raw: seq<byte>, digits: seq<byte>, bytes: seq<byte>, tail: seq<byte>)
    requires |raw| == RAW_SIZE && Spells(digits, bytes) && |bytes| <= MAX_BYTES
    requires (tail == [] || Digit(tail[0]) == 16) && 1 + |digits| + |tail| < LINE_SIZE
    ensures RawAfter(raw, [58] + digits + tail) == bytes + raw[|bytes|..]
  {
    HexRoundTrip(digits, bytes, tail);
    assert ([58] + digits + tail)[1..] == digits + tail;
  }

  lemma FrontOfOverlay(raw: seq<byte>, bytes: seq<byte>, n: nat)
    requires n <= |bytes| <= |raw|
    ensures (bytes + raw[|bytes|..])[..n] == bytes[..n]
  {
  }

  lemma CutRecordRead(raw: seq<byte>, digits: seq<byte>, bytes: seq<byte>, line: seq<byte>)
    requires |raw| == RAW_SIZE && Spells(digits, bytes) && |bytes| >= MAX_BYTES
    requires line == [58] + digits[..2 * MAX_BYTES]
    ensures RawAfter(raw, line) == bytes[..MAX_BYTES] + raw[MAX_BYTES..]
    ensures LineOf(raw, line) == Verdict(raw, bytes[..MAX_BYTES], bytes[..MAX_SUMMED])
  {
    var front := bytes[..MAX_BYTES];
    SpellsFront(digits, bytes, MAX_BYTES);
    assert line == [58] + digits[..2 * MAX_BYTES] + [];
    FragmentRead(raw, digits[..2 * MAX_BYTES], front, [], MAX_SUMMED);
    SliceOfFront(bytes, MAX_BYTES, 0, MAX_SUMMED);
  }

  lemma WholeRecordRead(raw: seq<byte>, digits: seq<byte>, bytes: seq<byte>, eol: Eol, n: nat)
    requires |raw| == RAW_SIZE && Spells(digits, bytes) && (bytes != [] || !eol.Missing?) && n == |bytes|
    requires |bytes| <= MAX_SUMMED || (|bytes| == MAX_BYTES && eol.Missing?)
    ensures RawAfter(raw, RecordLine(digits, eol)) == bytes[..n] + raw[n..]
    ensures LineOf(raw, RecordLine(digits, eol)) == Verdict(raw, bytes[..n], bytes[..Summed(|bytes|, eol)])
  {
    assert bytes[..n] == bytes;
    FragmentRead(raw, digits, bytes, EolText(eol), Summed(|bytes|, eol));
  }

  /** Any record line, of any length and however it ends: at most 255 bytes reach the raw
      buffer, and the line is refused exactly when those that are summed do not give zero. */
  lemma RecordRead(raw: seq<byte>, digits: seq<byte>, bytes: seq<byte>, eol: Eol)
    requires |raw| == RAW_SIZE && Spells(digits, bytes) && (bytes != [] || !eol.Missing?)
    ensures var first, n := Fragments(RecordLine(digits, eol))[0], Min(MAX_BYTES, |bytes|);
      && RawAfter(raw, first) == bytes[..n] + raw[n..]
      && LineOf(raw, first) == Verdict(raw, bytes[..n], bytes[..Summed(|bytes|, eol)])
  {
    FirstFragment(digits, |bytes|, eol);
    if |bytes| <= MAX_SUMMED || (|bytes| == MAX_BYTES && eol.Missing?) {
      WholeRecordRead(raw, digits, bytes, eol, |bytes|);
    } else {
      CutRecordRead(raw, digits, bytes, Fragments(RecordLine(digits, eol))[0]);
    }
  }

  /** A raw buffer that starts like a data record. */
  lemma DataOf(raw: seq<byte>, address: nat, count: nat, data: seq<byte>)
    requires |raw| == RAW_SIZE && address < 0x1_0000 && count <= 255
    requires raw == [count, address / 256, address % 256, 0] + data
    ensures RecordOf(raw) == if count + 4 <= RAW_SIZE then Data(address, data[..count]) else Overlong(address)
  {
    assert raw[0] == count && raw[1] == address / 256 && raw[2] == address % 256 && raw[3] == 0;
    if count + 4 <= RAW_SIZE {
      assert raw[4..4 + count] == data[..count];
    }
  }

  /** The front of a record over the raw buffer. */
  lemma RecordOver(raw: seq<byte>, address: nat, bytes: seq<byte>, n: nat)
    requires |raw| == RAW_SIZE && address < 0x1_0000 && |bytes| <= 255
    requires 4 <= n <= MAX_BYTES && n <= 5 + |bytes|
    ensures var all := WithChecksum(DataBody(0, address, bytes));
      all[..n] + raw[n..] == [|bytes|, address / 256, address % 256, 0] + (all[4..n] + raw[n..])
  {
  }

  /** What is loaded of a record of 250 to 255 bytes, when it is not refused. */
  function LongRecord(address: nat, bytes: seq<byte>, stale: byte): Record {
    if |bytes| <= 251 then Data(address, bytes)
    else if |bytes| == 252 then Data(address, bytes[..251] + [stale])
    else Overlong(address)
  }

  /** What lies behind the header of such a record, as far as the raw buffer takes it. */
  lemma BehindHeader(address: nat, bytes: seq<byte>)
    requires address < 0x1_0000 && 250 <= |bytes| <= 255
    ensures var all := WithChecksum(DataBody(0, address, bytes));
      all[4..MAX_BYTES] == (bytes + [all[|bytes| + 4]])[..MAX_BYTES - 4]
  {
    var all := WithChecksum(DataBody(0, address, bytes));
    assert all == [|bytes|, address / 256, address % 256, 0] + (bytes + [all[|bytes| + 4]]);
  }

  lemma FrontOfData(bytes: seq<byte>, c: byte, stale: seq<byte>)
    requires 250 <= |bytes| <= 252 && |stale| == 1
    ensures var data := (bytes + [c])[..251] + stale;
      && (|bytes| <= 251 ==> data[..|bytes|] == bytes)
      && (|bytes| == 252 ==> data[..|bytes|] == bytes[..251] + stale)
  {
  }

  lemma LongRecordOf(raw: seq<byte>, address: nat, bytes: seq<byte>)
    requires |raw| == RAW_SIZE && address < 0x1_0000 && 250 <= |bytes| <= 255
    ensures RecordOf(WithChecksum(DataBody(0, address, bytes))[..MAX_BYTES] + raw[MAX_BYTES..])
      == LongRecord(address, bytes, raw[MAX_BYTES])
  {
    var all := WithChecksum(DataBody(0, address, bytes));
    RecordOver(raw, address, bytes, MAX_BYTES);
    DataOf(all[..MAX_BYTES] + raw[MAX_BYTES..], address, |bytes|, all[4..MAX_BYTES] + raw[MAX_BYTES..]);
    if |bytes| <= 252 {
      BehindHeader(address, bytes);
      FrontOfData(bytes, all[|bytes| + 4], raw[MAX_BYTES..]);
      assert raw[MAX_BYTES..] == [raw[MAX_BYTES]];
    }
  }

  lemma {:induction false} LongRecordRead(raw: seq<byte>, digits: seq<byte>, address: nat, bytes: seq<byte>, eol: Eol)
    requires |raw| == RAW_SIZE && address < 0x1_0000 && 250 <= |bytes| <= 255 && !eol.Missing?
    requires Spells(digits, WithChecksum(DataBody(0, address, bytes)))
    ensures LineOf(raw, Fragments(RecordLine(digits, eol))[0])
      == if Sum(DataBody(0, address, bytes)[..MAX_SUMMED]) % 256 != 0 then BadSum
         else Good(LongRecord(address, bytes, raw[MAX_BYTES]))
  {
    var body := DataBody(0, address, bytes);
    var all := WithChecksum(body);
    RecordRead(raw, digits, all, eol);
    LongRecordOf(raw, address, bytes);
    assert all[..MAX_SUMMED] == body[..MAX_SUMMED];
  }

  lemma {:induction false} ShortRecordRead(raw: seq<byte>, digits: seq<byte>, address: nat, bytes: seq<byte>, eol: Eol)
    requires |raw| == RAW_SIZE && address < 0x1_0000 && |bytes| <= 249 && !eol.Missing?
    requires Spells(digits, WithChecksum(DataBody(0, address, bytes)))
    ensures LineOf(raw, Fragments(RecordLine(digits, eol))[0]) == Good(Data(address, bytes))
  {
    var body := DataBody(0, address, bytes);
    var all := WithChecksum(body);
    RecordRead(raw, digits, all, eol);
    ChecksumIsZero(body);
    assert all[..|all|] == all;
    ShortRecordOf(raw, address, bytes, |all|);
  }

  lemma ShortRecordOf(raw: seq<byte>, address: nat, bytes: seq<byte>, n: nat)
    requires |raw| == RAW_SIZE && address < 0x1_0000 && |bytes| <= 249 && n == |bytes| + 5
    ensures RecordOf(WithChecksum(DataBody(0, address, bytes))[..n] + raw[n..]) == Data(address, bytes)
  {
    var all := WithChecksum(DataBody(0, address, bytes));
    RecordOver(raw, address, bytes, n);
    DataOf(all[..n] + raw[n..], address, |bytes|, all[4..n] + raw[n..]);
    BehindShortHeader(address, bytes, raw[n..]);
  }

  lemma BehindShortHeader(address: nat, bytes: seq<byte>, rest: seq<byte>)
    requires address < 0x1_0000 && |bytes| <= 249
    ensures (WithChecksum(DataBody(0, address, bytes))[4..|bytes| + 5] + rest)[..|bytes|] == bytes
  {
    assert WithChecksum(DataBody(0, address, bytes))[4..][..|bytes|] == bytes;
  }

  /** A terminated data record with the right checksum, of any length: up to 249 bytes it
      is loaded as written; with 250 and 251 exactly when the first 254 bytes of the record
      sum to zero; with 252 when, besides, its last byte is the one that an earlier line
      left in the raw buffer; with more never. */
  lemma {:induction false} DataRecordRead(raw: seq<byte>, digits: seq<byte>, address: nat, bytes: seq<byte>, eol: Eol)
    requires |raw| == RAW_SIZE && address < 0x1_0000 && |bytes| <= 255 && !eol.Missing?
    requires Spells(digits, WithChecksum(DataBody(0, address, bytes)))
    ensures LineOf(raw, Fragments(RecordLine(digits, eol))[0]) == Good(Data(address, bytes)) <==>
      |bytes| <= 249 || (|bytes| <= 252 && Sum(DataBody(0, address, bytes)[..MAX_SUMMED]) % 256 == 0
                         && (|bytes| == 252 ==> raw[MAX_BYTES] == bytes[251]))
  {
    if |bytes| <= 249 {
      ShortRecordRead(raw, digits, address, bytes, eol);
    } else {
      LongRecordRead(raw, digits, address, bytes, eol);
      if |bytes| == 252 {
        LastByte(bytes, raw[MAX_BYTES]);
      }
    }
  }

  lemma LastByte(bytes: seq<byte>, b: byte)
    requires |bytes| == 252
    ensures bytes[..251] + [b] == bytes <==> bytes[251] == b
  {
    assert bytes == bytes[..251] + [bytes[251]];
    assert (bytes[..251] + [b])[251] == b;
  }

  lemma {:induction false} SumOfZeros(zeros: seq<byte>)
    requires forall k :: 0 <= k < |zeros| ==> zeros[k] == 0
    ensures Sum(zeros) == 0
    decreases |zeros|
  {
    if zeros != [] {
      SumOfZeros(zeros[1..]);
    }
  }

  lemma SumOfHeader(header: seq<byte>, zeros: seq<byte>)
    requires |header| == 4 && forall k :: 0 <= k < |zeros| ==> zeros[k] == 0
    ensures var a: nat, b: nat, c: nat := header[0], header[1], header[2]; Sum(header + zeros) == a + b + c + header[3]
  {
    assert header == [header[0]] + ([header[1]] + ([header[2]] + [header[3]]));
    SumOfOne(header[0]);
    SumOfOne(header[1]);
    SumOfOne(header[2]);
    SumOfOne(header[3]);
    SumConcat([header[2]], [header[3]]);
    SumConcat([header[1]], [header[2]] + [header[3]]);
    SumConcat([header[0]], [header[1]] + ([header[2]] + [header[3]]));
    SumConcat(header, zeros);
    SumOfZeros(zeros);
  }

  /** A long record of zeros is refused unless its header sums to zero. */
  lemma {:induction false} ZerosRead(raw: seq<byte>, digits: seq<byte>, address: nat, zeros: seq<byte>, eol: Eol)
    requires |raw| == RAW_SIZE && address < 0x1_0000 && 250 <= |zeros| <= 255 && !eol.Missing?
    requires forall k :: 0 <= k < |zeros| ==> zeros[k] == 0
    requires Spells(digits, WithChecksum(DataBody(0, address, zeros)))
    ensures LineOf(raw, Fragments(RecordLine(digits, eol))[0]) == BadSum
      <==> (|zeros| + address / 256 + address % 256) % 256 != 0
  {
    SummedOfZeros(address, zeros, MAX_SUMMED);
    LongRecordRead(raw, digits, address, zeros, eol);
  }

  lemma SummedOfZeros(address: nat, zeros: seq<byte>, n: nat)
    requires 4 <= n <= 4 + |zeros| && |zeros| <= 255 && address < 0x1_0000
    requires forall k :: 0 <= k < |zeros| ==> zeros[k] == 0
    ensures Sum(DataBody(0, address, zeros)[..n]) == |zeros| + address / 256 + address % 256
  {
    var header := [|zeros|, address / 256, address % 256, 0];
    assert DataBody(0, address, zeros)[..n] == header + zeros[..n - 4];
    SumOfHeader(header, zeros[..n - 4]);
  }

  /** So 250 zeros at address 0 are refused with the right checksum and line end. */
  lemma {:induction false} ZerosRefused(raw: seq<byte>, digits: seq<byte>, address: nat, zeros: seq<byte>, eol: Eol)
    requires |raw| == RAW_SIZE && address == 0 && |zeros| == 250 && !eol.Missing?
    requires forall k :: 0 <= k < |zeros| ==> zeros[k] == 0
    requires Spells(digits, WithChecksum(DataBody(0, address, zeros)))
    ensures LineOf(raw, Fragments(RecordLine(digits, eol))[0]) == BadSum
  {
    ZerosRead(raw, digits, address, zeros, eol);
  }

  /** Without a line end the last byte is left out of the sum. */
  lemma {:induction false} LastNotSummed(raw: seq<byte>, digits: seq<byte>, all: seq<byte>, bytes: seq<byte>)
    requires |raw| == RAW_SIZE && |all| == |bytes| + 1 <= MAX_BYTES && Spells(digits, all) && all[..|bytes|] == bytes
    ensures LineOf(raw, Fragments(RecordLine(digits, Missing))[0]) == BadSum <==> Sum(bytes) % 256 != 0
  {
    RecordRead(raw, digits, all, Missing);
  }

  /** So a line with the right checksum is then refused unless that byte is zero. */
  lemma {:induction false} UnendedLine(raw: seq<byte>, digits: seq<byte>, bytes: seq<byte>)
    requires |raw| == RAW_SIZE && |bytes| <= MAX_SUMMED && Spells(digits, WithChecksum(bytes))
    ensures LineOf(raw, Fragments(RecordLine(digits, Missing))[0]) == BadSum <==> Sum(bytes) % 256 != 0
  {
    FrontOfJoin(bytes, (256 - Sum(bytes) % 256) % 256);
    LastNotSummed(raw, digits, WithChecksum(bytes), bytes);
  }

  lemma FrontOfJoin(bytes: seq<byte>, b: byte)
    ensures (bytes + [b])[..|bytes|] == bytes
  {
  }

  /** A record written with its checksum sums to zero as far as it is summed. */
  lemma {:induction false} SurvivorSum(body: seq<byte>, eol: Eol)
    requires Survives(body) && !eol.Missing?
    ensures Sum(WithChecksum(body)[..Summed(|body| + 1, eol)]) % 256 == 0
  {
    var all := WithChecksum(body);
    if |body| < MAX_SUMMED {
      ChecksumIsZero(body);
      assert all[..|all|] == all;
    } else {
      assert all[..MAX_SUMMED] == body[..MAX_SUMMED];
    }
  }

  lemma EntryGood(raw: seq<byte>, w: Written)
    requires |raw| == RAW_SIZE && Wf(w) && !w.entry.Remark?
    ensures var n := Min(MAX_BYTES, |Body(w.entry)| + 1);
      LineOf(raw, Fragments(LineText(w))[0])
        == Good(RecordOf(WithChecksum(Body(w.entry))[..n] + raw[n..]))
  {
    RecordRead(raw, w.digits, WithChecksum(Body(w.entry)), w.eol);
    SurvivorSum(Body(w.entry), w.eol);
  }

  /** The record that the loader sees for an entry. */
  lemma {:induction false} EntryRead(raw: seq<byte>, w: Written)
    requires |raw| == RAW_SIZE && Wf(w)
    ensures LineOf(raw, Fragments(LineText(w))[0]) == match w.entry
      case DataEntry(address, bytes) => Good(Data(address, bytes))
      case LinearEntry(high) => Good(Linear(high * 0x1_0000))
      case OtherEntry(_, _, _) => Good(Other)
      case Remark(_) => Comment
  {
    match w.entry
    case DataEntry(address, bytes) => DataRecordRead(raw, w.digits, address, bytes, w.eol);
    case LinearEntry(high) =>
      EntryGood(raw, w);
      LinearOf(raw, high);
    case OtherEntry(kind, address, bytes) =>
      EntryGood(raw, w);
      OtherOf(raw, kind, address, bytes);
    case Remark(_) => assert IsComment(Fragments(LineText(w))[0]);
  }

  lemma LinearOf(raw: seq<byte>, high: nat)
    requires |raw| == RAW_SIZE && high < 0x1_0000
    ensures var all := WithChecksum([2, 0, 0, 4, high / 256, high % 256]);
      |all| == 7 && RecordOf(all[..7] + raw[7..]) == Linear(high * 0x1_0000)
  {
    var r := WithChecksum([2, 0, 0, 4, high / 256, high % 256])[..7] + raw[7..];
    assert r[0] == 2 && r[1] == 0 && r[2] == 0 && r[3] == 4 && r[4] == high / 256 && r[5] == high % 256;
  }

  lemma OtherOf(raw: seq<byte>, kind: byte, address: nat, bytes: seq<byte>)
    requires |raw| == RAW_SIZE && kind >= 2 && kind != 4 && address < 0x1_0000 && |bytes| <= 251
    ensures var n := Min(MAX_BYTES, 5 + |bytes|);
      RecordOf(WithChecksum(DataBody(kind, address, bytes))[..n] + raw[n..]) == Other
  {
    var n := Min(MAX_BYTES, 5 + |bytes|);
    var r := WithChecksum(DataBody(kind, address, bytes))[..n] + raw[n..];
    assert r[3] == kind;
  }

  // --------------------------------------------------------- lines cut short

  lemma {:induction false} FragmentsKeepOut(text: seq<byte>)
    requires 58 !in text
    ensures forall f <- Fragments(text) :: 58 !in f
    decreases |text|
  {
    if |text| >= LINE_SIZE {
      FragmentsKeepOut(text[LINE_SIZE - 1..]);
    }
  }

  lemma NoColon(digits: seq<byte>, bytes: seq<byte>, eol: Eol)
    requires Spells(digits, bytes)
    ensures 58 !in digits + EolText(eol)
  {
    forall i | 0 <= i < |digits| ensures digits[i] != 58 {
      assert SpelledAt(digits, i / 2, bytes[i / 2]);
      assert i == 2 * (i / 2) || i == 2 * (i / 2) + 1;
    }
  }

  /** What is left of a line that was cut looks like no record. */
  lemma RestAreComments(line: seq<byte>)
    requires line != [] && 58 !in line[1..]
    ensures forall f <- Fragments(line)[1..] :: IsComment(f)
  {
    if |line| >= LINE_SIZE {
      assert line[LINE_SIZE - 1..] == line[1..][LINE_SIZE - 2..];
      FragmentsKeepOut(line[LINE_SIZE - 1..]);
      assert Fragments(line)[1..] == Fragments(line[LINE_SIZE - 1..]);
    }
  }

  lemma WrittenRest(w: Written)
    requires Wf(w)
    ensures forall f <- Fragments(LineText(w))[1..] :: IsComment(f)
  {
    if !w.entry.Remark? {
      RecordRest(w.digits, WithChecksum(Body(w.entry)), w.eol);
    }
  }

  lemma RecordRest(digits: seq<byte>, bytes: seq<byte>, eol: Eol)
    requires Spells(digits, bytes)
    ensures forall f <- Fragments(RecordLine(digits, eol))[1..] :: IsComment(f)
  {
    NoColon(digits, bytes, eol);
    assert RecordLine(digits, eol)[1..] == digits + EolText(eol);
    RestAreComments(RecordLine(digits, eol));
  }

  lemma ShortConcat(a: seq<seq<byte>>, b: seq<seq<byte>>)
    requires Short(a) && Short(b)
    ensures Short(a + b)
  {
  }

  lemma {:induction false} CommentsSkip(cs: seq<seq<byte>>, rest: seq<seq<byte>>, raw: seq<byte>, base: nat, max: nat)
    requires |raw| == RAW_SIZE && Short(cs) && Short(rest) && forall f <- cs :: IsComment(f)
    ensures Short(cs + rest) && Chunks(cs + rest, raw, base, max) == Chunks(rest, raw, base, max)
    decreases |cs|
  {
    ShortConcat(cs, rest);
    if cs == [] {
      assert cs + rest == rest;
    } else {
      assert cs + rest == [cs[0]] + (cs[1..] + rest) && IsComment(cs[0]);
      CommentsSkip(cs[1..], rest, raw, base, max);
      LineStep(cs[0], cs[1..] + rest, raw, base, max);
    }
  }

  /** Only the first fragment of a line counts when the others are comments. */
  lemma FragmentsStep(fs: seq<seq<byte>>, rest: seq<seq<byte>>, raw: seq<byte>, base: nat, max: nat)
    requires |raw| == RAW_SIZE && fs != [] && Short(fs) && Short(rest) && forall f <- fs[1..] :: IsComment(f)
    ensures Short(fs + rest)
    ensures Chunks(fs + rest, raw, base, max) == FirstThen(fs[0], rest, raw, base, max)
  {
    ShortConcat(fs, rest);
    ShortConcat(fs[1..], rest);
    assert fs + rest == [fs[0]] + (fs[1..] + rest);
    LineStep(fs[0], fs[1..] + rest, raw, base, max);
    var act := ActionOf(LineOf(raw, fs[0]), base, max);
    CommentsSkip(fs[1..], rest, RawAfter(raw, fs[0]), if act.Skip? then act.elar else base, max);
  }

  function FirstThen(first: seq<byte>, rest: seq<seq<byte>>, raw: seq<byte>, base: nat, max: nat): (seq<Chunk>, Ending)
    requires |raw| == RAW_SIZE && |first| < LINE_SIZE && Short(rest)
  {
    Then(ActionOf(LineOf(raw, first), base, max), rest, RawAfter(raw, first), base, max)
  }

  // ------------------------------------------------------------ whole files

  predicate Below(cs: seq<Chunk>, max: nat) {
    forall k :: 0 <= k < |cs| ==> cs[k].pos < max
  }

  function ActionFor(e: Entry, base: nat): Action {
    if e.DataEntry? then Put(Chunk(base + e.address, e.bytes)) else Skip(BaseAfter(e, base))
  }

  lemma EntryAction(w: Written, raw: seq<byte>, base: nat, max: nat)
    requires |raw| == RAW_SIZE && Wf(w) && Below(ChunkOf(w.entry, base), max)
    ensures ActionOf(LineOf(raw, Fragments(LineText(w))[0]), base, max) == ActionFor(w.entry, base)
  {
    EntryRead(raw, w);
    assert w.entry.DataEntry? ==> ChunkOf(w.entry, base)[0].pos < max;
  }

  lemma ActionStep(e: Entry, rest: seq<seq<byte>>, raw: seq<byte>, base: nat, max: nat)
    requires |raw| == RAW_SIZE && Short(rest)
    ensures Then(ActionFor(e, base), rest, raw, base, max)
      == Prefixed(ChunkOf(e, base), Chunks(rest, raw, BaseAfter(e, base), max))
  {
    AllPrefixed(Chunks(rest, raw, BaseAfter(e, base), max));
  }

  lemma EntryStep(w: Written, rest: seq<seq<byte>>, raw: seq<byte>, base: nat, max: nat)
    requires |raw| == RAW_SIZE && Wf(w) && Short(rest) && Below(ChunkOf(w.entry, base), max)
    ensures var fs := Fragments(LineText(w));
      Short(fs + rest) && Chunks(fs + rest, raw, base, max)
        == Prefixed(ChunkOf(w.entry, base), Chunks(rest, RawAfter(raw, fs[0]), BaseAfter(w.entry, base), max))
  {
    var fs := Fragments(LineText(w));
    WrittenRest(w);
    FragmentsStep(fs, rest, raw, base, max);
    EntryAction(w, raw, base, max);
    ActionStep(w.entry, rest, RawAfter(raw, fs[0]), base, max);
  }

  lemma BelowParts(a: seq<Chunk>, b: seq<Chunk>, max: nat)
    requires Below(a + b, max)
    ensures Below(a, max) && Below(b, max)
  {
    forall k | 0 <= k < |a| ensures a[k].pos < max {
      assert (a + b)[k] == a[k];
    }
    forall k | 0 <= k < |b| ensures b[k].pos < max {
      assert (a + b)[|a| + k] == b[k];
    }
  }

  /** Well-formed lines below the limit give the loader exactly the chunks that they say,
      and whatever follows them is read from the state they leave. */
  lemma {:induction false} EntriesRead(ws: seq<Written>, rest: seq<seq<byte>>, raw: seq<byte>, base: nat, max: nat)
    requires |raw| == RAW_SIZE && Short(rest) && AllWf(ws) && Below(ChunksOf(ws, base), max)
    ensures Short(Lines(ws) + rest)
    ensures Chunks(Lines(ws) + rest, raw, base, max)
      == Prefixed(ChunksOf(ws, base), Chunks(rest, RawLeft(ws, raw), LastBase(ws, base), max))
    decreases |ws|
  {
    ShortConcat(Lines(ws), rest);
    if ws == [] {
      assert Lines(ws) + rest == rest;
      AllPrefixed(Chunks(rest, raw, base, max));
    } else {
      var w, fs, more := ws[0], Fragments(LineText(ws[0])), Lines(ws[1..]);
      var raw1, base1 := RawAfter(raw, fs[0]), BaseAfter(w.entry, base);
      BelowParts(ChunkOf(w.entry, base), ChunksOf(ws[1..], base1), max);
      EntriesRead(ws[1..], rest, raw1, base1, max);
      EntryStep(w, more + rest, raw, base, max);
      PrefixedTwice(ChunkOf(w.entry, base), ChunksOf(ws[1..], base1),
        Chunks(rest, RawLeft(ws[1..], raw1), LastBase(ws[1..], base1), max));
      Regroup(fs, more, rest);
    }
  }

  lemma Regroup(fs: seq<seq<byte>>, more: seq<seq<byte>>, rest: seq<seq<byte>>)
    ensures (fs + more) + rest == fs + (more + rest)
  {
  }

  /** A line that ends reading, after well-formed ones. */
  lemma StopAfter(ws: seq<Written>, rest: seq<seq<byte>>, raw: seq<byte>, base: nat, max: nat, ending: Ending)
    requires |raw| == RAW_SIZE && Short(rest) && AllWf(ws) && Below(ChunksOf(ws, base), max)
    requires Chunks(rest, RawLeft(ws, raw), LastBase(ws, base), max) == ([], ending)
    ensures Short(Lines(ws) + rest) && Chunks(Lines(ws) + rest, raw, base, max) == (ChunksOf(ws, base), ending)
  {
    EntriesRead(ws, rest, raw, base, max);
    assert ChunksOf(ws, base) + [] == ChunksOf(ws, base);
  }

  /** For every list of well-formed lines below the limit, ended by an end record, the
      loader sees exactly the chunks that the lines say, whatever follows. */
  lemma FileRead(ws: seq<Written>, digits: seq<byte>, eol: Eol, tail: seq<seq<byte>>, raw: seq<byte>, base: nat,
                 max: nat)
    requires |raw| == RAW_SIZE && Short(tail) && AllWf(ws) && Below(ChunksOf(ws, base), max)
    requires !eol.Missing? && Spells(digits, WithChecksum(END_BODY))
    ensures Short(Lines(ws) + (Fragments(RecordLine(digits, eol)) + tail))
    ensures Chunks(Lines(ws) + (Fragments(RecordLine(digits, eol)) + tail), raw, base, max)
      == (ChunksOf(ws, base), EndRecord)
  {
    EndRead(digits, eol, tail, RawLeft(ws, raw), LastBase(ws, base), max);
    StopAfter(ws, Fragments(RecordLine(digits, eol)) + tail, raw, base, max, EndRecord);
  }

  lemma EndRead(digits: seq<byte>, eol: Eol, tail: seq<seq<byte>>, raw: seq<byte>, base: nat, max: nat)
    requires |raw| == RAW_SIZE && !eol.Missing? && Short(tail) && Spells(digits, WithChecksum(END_BODY))
    ensures Short(Fragments(RecordLine(digits, eol)) + tail)
    ensures Chunks(Fragments(RecordLine(digits, eol)) + tail, raw, base, max) == ([], EndRecord)
  {
    var all := WithChecksum(END_BODY);
    RecordRead(raw, digits, all, eol);
    SurvivorSum(END_BODY, eol);
    assert all[..5] == all;
    RecordRest(digits, all, eol);
    FragmentsStep(Fragments(RecordLine(digits, eol)), tail, raw, base, max);
  }

  lemma {:induction false} BadRead(digits: seq<byte>, bytes: seq<byte>, eol: Eol, tail: seq<seq<byte>>,
                                   raw: seq<byte>, base: nat, max: nat)
    requires |raw| == RAW_SIZE && Short(tail) && Spells(digits, bytes)
    requires Sum(bytes[..Summed(|bytes|, eol)]) % 256 != 0
    ensures Short(Fragments(RecordLine(digits, eol)) + tail)
    ensures Chunks(Fragments(RecordLine(digits, eol)) + tail, raw, base, max) == ([], Checksum)
  {
    RecordRead(raw, digits, bytes, eol);
    RecordRest(digits, bytes, eol);
    FragmentsStep(Fragments(RecordLine(digits, eol)), tail, raw, base, max);
  }

  /** A line of any length whose bytes, as far as they are summed, do not give zero rejects
      the file, when it comes before any end record. */
  lemma BadLineRejects(ws: seq<Written>, digits: seq<byte>, bytes: seq<byte>, eol: Eol, tail: seq<seq<byte>>,
                       raw: seq<byte>, base: nat, max: nat)
    requires |raw| == RAW_SIZE && Short(tail) && AllWf(ws) && Below(ChunksOf(ws, base), max)
    requires Spells(digits, bytes) && Sum(bytes[..Summed(|bytes|, eol)]) % 256 != 0
    ensures Short(Lines(ws) + (Fragments(RecordLine(digits, eol)) + tail))
    ensures Chunks(Lines(ws) + (Fragments(RecordLine(digits, eol)) + tail), raw, base, max)
      == (ChunksOf(ws, base), Checksum)
  {
    BadRead(digits, bytes, eol, tail, RawLeft(ws, raw), LastBase(ws, base), max);
    StopAfter(ws, Fragments(RecordLine(digits, eol)) + tail, raw, base, max, Checksum);
  }

  /** So a file whose end record is its unterminated last line is refused. */
  lemma UnendedEndRecord(ws: seq<Written>, digits: seq<byte>, raw: seq<byte>, base: nat, max: nat)
    requires |raw| == RAW_SIZE && AllWf(ws) && Below(ChunksOf(ws, base), max)
    requires Spells(digits, WithChecksum(END_BODY))
    ensures Short(Lines(ws) + (Fragments(RecordLine(digits, Missing)) + []))
    ensures Chunks(Lines(ws) + (Fragments(RecordLine(digits, Missing)) + []), raw, base, max)
      == (ChunksOf(ws, base), Checksum)
  {
    EndSum();
    BadLineRejects(ws, digits, WithChecksum(END_BODY), Missing, [], raw, base, max);
  }

  lemma EndSum()
    ensures Sum(WithChecksum(END_BODY)[..4]) == 1
  {
    assert WithChecksum(END_BODY)[..4] == [0, 0, 0, 1];
    assert [0, 0, 0, 1][1..] == [0, 0, 1] && [0, 0, 1][1..] == [0, 1] && [0, 1][1..] == [1] && [1][1..] == [];
  }

  /** The whole loader on a well-formed file: it succeeds, starts at the first data
      record, and every address holds the byte of the last record covering it. */
  lemma WellFormedFileLoads(ws: seq<Written>, digits: seq<byte>, eol: Eol, tail: seq<seq<byte>>, raw: seq<byte>,
                            max: nat, status: Status, buf: seq<byte>, start: nat, len: nat)
    requires |raw| == RAW_SIZE && Short(tail) && AllWf(ws) && Below(ChunksOf(ws, 0), max) && Placed(ChunksOf(ws, 0))
    requires !eol.Missing? && Spells(digits, WithChecksum(END_BODY))
    ensures var lines := Lines(ws) + (Fragments(RecordLine(digits, eol)) + tail);
      Short(lines) && (Returns(Chunks(lines, raw, 0, max), status, buf, start, len)
        ==> status == Loaded && Loads(ChunksOf(ws, 0), buf, start, len))
  {
    FileRead(ws, digits, eol, tail, raw, 0, max);
    if Returns((ChunksOf(ws, 0), EndRecord), status, buf, start, len) {
      HeldIsLoaded(ChunksOf(ws, 0), buf, start, len);
    }
  }

  /** A data record at or above the limit ends reading, whatever follows it. */
  lemma LimitRead(ws: seq<Written>, w: Written, rest: seq<seq<byte>>, tail: seq<seq<byte>>, raw: seq<byte>,
                  base: nat, max: nat, pos: nat)
    requires |raw| == RAW_SIZE && Short(tail) && AllWf(ws) && Below(ChunksOf(ws, base), max)
    requires Wf(w) && w.entry.DataEntry? && pos == LastBase(ws, base) + w.entry.address >= max
    requires rest == Fragments(LineText(w)) + tail
    ensures Short(Lines(ws) + rest) && Chunks(Lines(ws) + rest, raw, base, max) == (ChunksOf(ws, base), Limit(pos))
  {
    LimitStops(w, rest, tail, RawLeft(ws, raw), LastBase(ws, base), max, pos);
    StopAfter(ws, rest, raw, base, max, Limit(pos));
  }

  lemma LimitStops(w: Written, rest: seq<seq<byte>>, tail: seq<seq<byte>>, raw: seq<byte>, base: nat, max: nat,
                   pos: nat)
    requires |raw| == RAW_SIZE && Short(tail) && Wf(w) && w.entry.DataEntry? && pos == base + w.entry.address >= max
    requires rest == Fragments(LineText(w)) + tail
    ensures Short(rest) && Chunks(rest, raw, base, max) == ([], Limit(pos))
  {
    EntryRead(raw, w);
    WrittenRest(w);
    FragmentsStep(Fragments(LineText(w)), tail, raw, base, max);
  }

  /** The loader then succeeds with what came before, and without anything before it the
      start address is that of the record itself. */
  lemma LimitedFileLoads(ws: seq<Written>, w: Written, tail: seq<seq<byte>>, raw: seq<byte>, max: nat, pos: nat,
                         status: Status, buf: seq<byte>, start: nat, len: nat)
    requires |raw| == RAW_SIZE && Short(tail) && AllWf(ws) && Below(ChunksOf(ws, 0), max) && Placed(ChunksOf(ws, 0))
    requires Wf(w) && w.entry.DataEntry? && pos == LastBase(ws, 0) + w.entry.address >= max
    ensures var lines := Lines(ws) + (Fragments(LineText(w)) + tail);
      Short(lines) && (Returns(Chunks(lines, raw, 0, max), status, buf, start, len)
        ==> status == Loaded && Loads(ChunksOf(ws, 0), buf, start, len) && (ChunksOf(ws, 0) == [] ==> start == pos))
  {
    LimitRead(ws, w, Fragments(LineText(w)) + tail, tail, raw, 0, max, pos);
    if Returns((ChunksOf(ws, 0), Limit(pos)), status, buf, start, len) {
      HeldIsLoaded(ChunksOf(ws, 0), buf, start, len);
    }
  }

  ghost predicate Loads(cs: seq<Chunk>, buf: seq<byte>, start: nat, len: nat) {
    && (cs != [] ==> start == cs[0].pos) && len == Extent(cs, start) <= |buf|
    && forall k, a: nat :: 0 <= k < |cs| && Wins(cs, k, a) ==> HasByte(buf, start, len, cs[k], a)
  }

  /** Chunk k is the last one to cover an address. */
  predicate Wins(cs: seq<Chunk>, k: nat, a: nat)
    requires k < |cs|
  {
    Covers(cs[k], a) && forall j :: k < j < |cs| ==> !Covers(cs[j], a)
  }

  predicate HasByte(buf: seq<byte>, start: nat, len: nat, c: Chunk, a: nat)
    requires Covers(c, a)
  {
    start <= a < start + len <= start + |buf| && buf[a - start] == c.bytes[a - c.pos]
  }

  lemma HeldIsLoaded(cs: seq<Chunk>, buf: seq<byte>, start: nat, len: nat)
    requires Holds(buf, start, len, cs) && (cs != [] ==> start == cs[0].pos)
    ensures Loads(cs, buf, start, len)
  {
    forall k, a: nat | 0 <= k < |cs| && Wins(cs, k, a) ensures HasByte(buf, start, len, cs[k], a) {
      LastWriterWins(cs, k, a);
    }
  }
}
