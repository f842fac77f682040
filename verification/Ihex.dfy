/** The Intel HEX loader of hex2dfu.c. */
module Ihex {
  import opened Bytes
  import opened Memory

  const FIRST_ALLOCATION: nat := 1024 * 128
  const GROWTH: nat := 8192
  const RAW_SIZE: nat := 256
  const LINE_SIZE: nat := 512

  // ------------------------------------------------------------- text

  /** The bytes that a text spells, up to the first character that is not a digit. */
  function Decoded(text: seq<byte>): (bytes: seq<byte>)
    ensures 2 * |bytes| <= |text|
  {
    if |text| < 2 || Digit(text[0]) == 16 || Digit(text[1]) == 16 then []
    else [Digit(text[0]) * 16 + Digit(text[1])] + Decoded(text[2..])
  }

  method Hex2bin(obuf: array<byte>, ibuf: seq<byte>)
    requires |ibuf| <= 2 * obuf.Length
    modifies obuf
    ensures obuf[..] == Overlaid(old(obuf[..]), Decoded(ibuf))
  {
    var i, o := 0, 0;
    ghost var raw0 := obuf[..];
    while i < |ibuf|
      invariant i == 2 * o <= |ibuf|
      invariant |raw0| == obuf.Length && obuf[o..] == raw0[o..]
      invariant obuf[..o] + Decoded(ibuf[i..]) == Decoded(ibuf)
    {
      var c := Digit(ibuf[i]);
      if c == 16 {
        break;
      }
      var c2 := if i + 1 < |ibuf| then Digit(ibuf[i + 1]) else 16;
      if c2 == 16 {
        break;
      }
      DecodedStep(ibuf, i, obuf[..o]);
      obuf[o] := c * 16 + c2;
      assert obuf[..o + 1] == obuf[..o] + [c * 16 + c2];
      i, o := i + 2, o + 1;
    }
    assert Decoded(ibuf[i..]) == [];
    assert obuf[..] == obuf[..o] + obuf[o..];
  }

  lemma DecodedStep(text: seq<byte>, i: nat, front: seq<byte>)
    requires i + 2 <= |text| && Digit(text[i]) < 16 && Digit(text[i + 1]) < 16
    ensures front + Decoded(text[i..])
      == (front + [Digit(text[i]) * 16 + Digit(text[i + 1])]) + Decoded(text[i + 2..])
  {
    assert text[i..][2..] == text[i + 2..];
  }

  function Sum(bytes: seq<byte>): nat {
    if bytes == [] then 0 else bytes[0] + Sum(bytes[1..])
  }

  method CheckChecksum(inbuf: array<byte>, len: nat) returns (r: nat)
    requires len <= inbuf.Length
    ensures r == Sum(inbuf[..len]) % 256
  {
    var check, i := 0, 0;
    while i < len
      invariant 0 <= i <= len
      invariant check + Sum(inbuf[i..len]) == Sum(inbuf[..len])
    {
      assert inbuf[i..len][1..] == inbuf[i + 1..len];
      check := check + inbuf[i];
      i := i + 1;
    }
    r := check % 256;
  }

  // ------------------------------------------------------------ records

  datatype Record = Linear(base: nat) | End | Data(address: nat, bytes: seq<byte>) | Overlong(address: nat) | Other

  function Be16(hi: nat, lo: nat): nat {
    hi * 256 + lo
  }

  /** What the decoded bytes mean; a count that runs past the raw buffer is Overlong. */
  function RecordOf(raw: seq<byte>): Record
    requires |raw| == RAW_SIZE
  {
    if raw[0] == 2 && raw[1] == 0 && raw[2] == 0 && raw[3] == 4 then Linear(Be16(raw[4], raw[5]) * 0x1_0000)
    else if raw[0] == 0 && raw[1] == 0 && raw[2] == 0 && raw[3] == 1 then End
    else if raw[3] == 0 then RecordData(raw, raw[0])
    else Other
  }

  function RecordData(raw: seq<byte>, count: nat): Record
    requires |raw| == RAW_SIZE
  {
    if count + 4 <= RAW_SIZE then Data(Be16(raw[1], raw[2]), raw[4..4 + count]) else Overlong(Be16(raw[1], raw[2]))
  }

  datatype Line = Comment | BadSum | Good(record: Record) | TooShort

  /** One line as fgets returns it, read over what the previous lines left in raw. */
  function RawAfter(raw: seq<byte>, line: seq<byte>): (r: seq<byte>)
    requires |raw| == RAW_SIZE && |line| < LINE_SIZE
    ensures |r| == RAW_SIZE
  {
    if line != [] && line[0] == 58 then Overlaid(raw, Decoded(line[1..])) else raw
  }

  function LineOf(raw: seq<byte>, line: seq<byte>): Line
    requires |raw| == RAW_SIZE && |line| < LINE_SIZE
  {
    if line == [] || line[0] != 58 then Comment
    else if |line| < 2 then TooShort
    else if Sum(RawAfter(raw, line)[..(|line| - 2) / 2]) % 256 != 0 then BadSum
    else Good(RecordOf(RawAfter(raw, line)))
  }

  /** How reading a file ends. */
  datatype Ending = EndRecord | Limit(pos: nat) | Checksum | NoEnd | Undefined

  /** What the loader does on a line. */
  datatype Action = Skip(elar: nat) | Stop(ending: Ending) | Put(chunk: Chunk)

  function ActionOf(l: Line, elar: nat, max: nat): Action {
    match l
    case Comment => Skip(elar)
    case TooShort => Stop(Undefined)
    case BadSum => Stop(Checksum)
    case Good(Linear(base)) => Skip(base)
    case Good(End) => Stop(EndRecord)
    case Good(Other) => Skip(elar)
    case Good(Overlong(address)) => if elar + address >= max then Stop(Limit(elar + address)) else Stop(Undefined)
    case Good(Data(address, bytes)) =>
      if elar + address >= max then Stop(Limit(elar + address)) else Put(Chunk(elar + address, bytes))
  }

  /** The data records of a file up to the point where reading ends. */
  function Chunks(lines: seq<seq<byte>>, raw: seq<byte>, elar: nat, max: nat): (r: (seq<Chunk>, Ending))
    requires |raw| == RAW_SIZE && forall l <- lines :: |l| < LINE_SIZE
    decreases |lines|
  {
    if lines == [] then ([], NoEnd)
    else
      var raw1 := RawAfter(raw, lines[0]);
      match ActionOf(LineOf(raw, lines[0]), elar, max)
      case Skip(e) => Chunks(lines[1..], raw1, e, max)
      case Stop(ending) => ([], ending)
      case Put(c) =>
        var rest := Chunks(lines[1..], raw1, elar, max);
        ([c] + rest.0, rest.1)
  }

  predicate Short(lines: seq<seq<byte>>) {
    forall l <- lines :: |l| < LINE_SIZE
  }

  function Prefixed(done: seq<Chunk>, r: (seq<Chunk>, Ending)): (seq<Chunk>, Ending) {
    (done + r.0, r.1)
  }

  /** What follows an action. */
  function Then(act: Action, rest: seq<seq<byte>>, raw: seq<byte>, elar: nat, max: nat): (seq<Chunk>, Ending)
    requires |raw| == RAW_SIZE && Short(rest)
  {
    match act
    case Skip(base) => Chunks(rest, raw, base, max)
    case Stop(ending) => ([], ending)
    case Put(c) => Prefixed([c], Chunks(rest, raw, elar, max))
  }

  lemma LineStep(line: seq<byte>, rest: seq<seq<byte>>, raw: seq<byte>, elar: nat, max: nat)
    requires |raw| == RAW_SIZE && |line| < LINE_SIZE && Short(rest)
    ensures Chunks([line] + rest, raw, elar, max)
      == Then(ActionOf(LineOf(raw, line), elar, max), rest, RawAfter(raw, line), elar, max)
  {
    assert ([line] + rest)[0] == line && ([line] + rest)[1..] == rest;
  }

  // ------------------------------------------------------------- memory

  function ExtentOf(start: nat, c: Chunk): int {
    c.pos - start + |c.bytes|
  }

  /** The highest extent of the chunks, counted from the start address. */
  function Extent(cs: seq<Chunk>, start: nat): (n: nat) {
    if cs == [] then 0
    else
      var before, end := Extent(cs[..|cs| - 1], start), ExtentOf(start, cs[|cs| - 1]);
      if end > before then end else before
  }

  /** The buffer grows by one step when a chunk does not fit. */
  function Grown(len: nat, end: int): nat {
    if end > len then len + GROWTH else len
  }

  function Allocation(cs: seq<Chunk>, start: nat): nat {
    if cs == [] then FIRST_ALLOCATION
    else Grown(Allocation(cs[..|cs| - 1], start), ExtentOf(start, cs[|cs| - 1]))
  }

  /** No chunk lies before the start address or more than one growth step past the
      buffer: outside of this, the stores of the loader are undefined. */
  ghost predicate Placed(cs: seq<Chunk>) {
    forall k :: 0 <= k < |cs| ==> PlacedAt(cs, k)
  }

  predicate PlacedAt(cs: seq<Chunk>, k: nat)
    requires k < |cs|
  {
    cs[0].pos <= cs[k].pos && ExtentOf(cs[0].pos, cs[k]) <= Allocation(cs[..k + 1], cs[0].pos)
  }

  /** The buffer holds the memory of the chunks, from the start address on. */
  ghost predicate Holds(buf: seq<byte>, start: nat, total: nat, cs: seq<Chunk>) {
    && total == Extent(cs, start) <= |buf| == Allocation(cs, start)
    && forall a: nat :: CellAt(cs, a).Byte? ==>
      start <= a < start + total && buf[a - start] == CellAt(cs, a).value
  }

  /** One store: the buffer grows if it must, then the bytes are copied in. */
  method Store(dst0: array<byte>, start: nat, total0: nat, c: Chunk, ghost cs: seq<Chunk>)
      returns (ok: bool, dst: array<byte>, total: nat)
    requires Holds(dst0[..], start, total0, cs) && start <= c.pos
    modifies dst0
    ensures ok <==> ExtentOf(start, c) <= Allocation(cs + [c], start)
    ensures ok ==> Holds(dst[..], start, total, cs + [c])
    ensures dst == dst0 || fresh(dst)
  {
    dst, total := dst0, total0;
    var pos := c.pos - start;
    var cnt := |c.bytes|;
    if pos + cnt > dst.Length {
      dst := Realloc(dst0, dst0.Length + GROWTH);
    }
    ok := pos + cnt <= dst.Length;
    assert (cs + [c])[..|cs|] == cs;
    if ok {
      ghost var before := dst[..];
      Memmove(dst, pos, c.bytes);
      if pos + cnt > total {
        total := pos + cnt;
      }
      StoreHolds(before, dst[..], start, total0, total, c, cs);
    }
  }

  method Realloc(old_dst: array<byte>, n: nat) returns (dst: array<byte>)
    requires n >= old_dst.Length
    ensures fresh(dst) && dst.Length == n
    ensures dst[..old_dst.Length] == old_dst[..]
  {
    dst := new byte[n];
    Copy(dst, 0, old_dst[..]);
  }

  method Memmove(dst: array<byte>, pos: nat, bytes: seq<byte>)
    requires pos + |bytes| <= dst.Length
    modifies dst
    ensures dst[..] == Patched(old(dst[..]), Chunk(pos, bytes))
  {
    Copy(dst, pos, bytes);
    assert dst[..] == dst[..pos] + dst[pos..pos + |bytes|] + dst[pos + |bytes|..];
  }

  lemma StoreHolds(before: seq<byte>, after: seq<byte>, start: nat, total0: nat, total: nat, c: Chunk, cs: seq<Chunk>)
    requires start <= c.pos && ExtentOf(start, c) <= |before|
    requires total0 == Extent(cs, start) <= |before| == Grown(Allocation(cs, start), ExtentOf(start, c))
    requires forall a: nat :: CellAt(cs, a).Byte? ==>
      start <= a < start + total0 && before[a - start] == CellAt(cs, a).value
    requires total == if ExtentOf(start, c) > total0 then ExtentOf(start, c) else total0
    requires after == Patched(before, Chunk(c.pos - start, c.bytes))
    ensures Holds(after, start, total, cs + [c])
  {
    var ds := cs + [c];
    assert ds[..|cs|] == cs && ds[|cs|] == c;
    forall a: nat | CellAt(ds, a).Byte?
      ensures start <= a < start + total && after[a - start] == CellAt(ds, a).value
    {
      if Covers(c, a) {
        assert after[a - start] == c.bytes[a - c.pos];
      } else {
        assert CellAt(cs, a) == CellAt(ds, a);
        assert after[a - start] == before[a - start];
      }
    }
  }

  // ------------------------------------------------------------- the loader

  datatype Status = Loaded | BadChecksum | NoEndRecord | OutOfBounds

  /** The start address: the position of the first data record, even when that one
      already passes the limit. */
  function Start(r: (seq<Chunk>, Ending)): nat {
    if r.0 != [] then r.0[0].pos else if r.1.Limit? then r.1.pos else 0
  }

  /** What ihex2bin_buf returns for a file. */
  ghost predicate Returns(r: (seq<Chunk>, Ending), status: Status, buf: seq<byte>, start: nat, len: nat) {
    if !Placed(r.0) || r.1.Undefined? then status == OutOfBounds
    else match r.1
      case Checksum => status == BadChecksum
      case NoEnd => status == NoEndRecord
      case _ => status == Loaded && start == Start(r) && Holds(buf, start, len, r.0)
  }

  /** One line: decoded over what is left in raw, checked and classified. */
  method ReadLine(raw: array<byte>, oneline: seq<byte>) returns (l: Line)
    requires raw.Length == RAW_SIZE && |oneline| < LINE_SIZE
    modifies raw
    ensures raw[..] == RawAfter(old(raw[..]), oneline) && l == LineOf(old(raw[..]), oneline)
  {
    if oneline == [] || oneline[0] != 58 {
      return Comment;
    }
    Hex2bin(raw, oneline[1..]);
    if |oneline| < 2 {
      return TooShort;
    }
    var check := CheckChecksum(raw, (|oneline| - 2) / 2);
    if check != 0 {
      return BadSum;
    }
    l := Good(RecordOf(raw[..]));
  }

  /** The loader after the chunks in done. */
  ghost predicate Reading(buf: seq<byte>, start: nat, total: nat, start_set: bool, done: seq<Chunk>) {
    && Placed(done) && Holds(buf, start, total, done)
    && start_set == (done != []) && start == if done != [] then done[0].pos else 0
  }

  /** A data record below the limit. */
  method DataRecord(dst0: array<byte>, start0: nat, total0: nat, start_set: bool, c: Chunk,
                    ghost done: seq<Chunk>, ghost rest: (seq<Chunk>, Ending))
      returns (ok: bool, dst: array<byte>, start: nat, total: nat)
    requires Reading(dst0[..], start0, total0, start_set, done)
    modifies dst0
    ensures ok ==> Reading(dst[..], start, total, true, done + [c])
    ensures !ok ==> !Placed(Prefixed(done, ([c] + rest.0, rest.1)).0)
    ensures Prefixed(done, ([c] + rest.0, rest.1)) == Prefixed(done + [c], rest)
    ensures dst == dst0 || fresh(dst)
  {
    PlacedSnoc(done, c);
    OneMore(done, c, rest);
    start := if start_set then start0 else c.pos;
    if c.pos < start {
      return false, dst0, start, total0;
    }
    ok, dst, total := Store(dst0, start, total0, c, done);
  }

  lemma PlacedSnoc(cs: seq<Chunk>, c: Chunk)
    requires Placed(cs)
    ensures var start := (cs + [c])[0].pos;
      Placed(cs + [c]) <==> start <= c.pos && ExtentOf(start, c) <= Allocation(cs + [c], start)
  {
    var ds := cs + [c];
    forall k | 0 <= k < |cs| ensures PlacedAt(ds, k) == PlacedAt(cs, k) {
      PlacedAtPrefix(cs, [c], k);
    }
    assert ds[..|cs| + 1] == ds;
    assert PlacedAt(ds, |cs|) <==> ds[0].pos <= c.pos && ExtentOf(ds[0].pos, c) <= Allocation(ds, ds[0].pos);
    if Placed(ds) {
      assert PlacedAt(ds, |cs|);
    }
  }

  lemma PlacedAtPrefix(cs: seq<Chunk>, ds: seq<Chunk>, k: nat)
    requires k < |cs|
    ensures PlacedAt(cs + ds, k) == PlacedAt(cs, k)
  {
    assert (cs + ds)[..k + 1] == cs[..k + 1];
  }

  lemma PlacedPrefix(cs: seq<Chunk>, ds: seq<Chunk>)
    requires Placed(cs + ds)
    ensures Placed(cs)
  {
    forall k | 0 <= k < |cs| ensures PlacedAt(cs, k) {
      PlacedAtPrefix(cs, ds, k);
      assert PlacedAt(cs + ds, k);
    }
  }

  /** The next chunk joins those that were read. */
  lemma OneMore(done: seq<Chunk>, c: Chunk, rest: (seq<Chunk>, Ending))
    ensures Prefixed(done, ([c] + rest.0, rest.1)) == Prefixed(done + [c], rest)
    ensures !Placed(done + [c]) ==> !Placed(Prefixed(done + [c], rest).0)
  {
    assert done + ([c] + rest.0) == (done + [c]) + rest.0;
    if Placed((done + [c]) + rest.0) {
      PlacedPrefix(done + [c], rest.0);
    }
  }

  method Ihex2binBuf(lines: seq<seq<byte>>, max_address: nat, raw: array<byte>)
      returns (status: Status, dst: array<byte>, start_address: nat, dst_len: nat)
    requires raw.Length == RAW_SIZE && Short(lines)
    modifies raw
    ensures fresh(dst) && Returns(Chunks(lines, old(raw[..]), 0, max_address), status, dst[..], start_address, dst_len)
  {
    ghost var all := Chunks(lines, raw[..], 0, max_address);
    var ok, ending, total;
    ghost var done;
    ok, ending, dst, start_address, total, done := ReadFile(lines, max_address, raw);
    if !ok || ending.Undefined? {
      return OutOfBounds, dst, start_address, 0;
    }
    match ending
    case Checksum =>
      status, dst_len := BadChecksum, 0;
    case NoEnd =>
      status, dst_len := NoEndRecord, 0;
    case _ =>
      status, dst_len := Loaded, total;
  }

  /** What the loop keeps besides the buffer. */
  datatype Progress = Progress(elar: nat, start: nat, total: nat, start_set: bool)

  /** One line: it is skipped, ends the reading, or is a chunk to store. */
  method Turn(line: seq<byte>, raw: array<byte>, dst0: array<byte>, p0: Progress, max: nat,
              ghost done0: seq<Chunk>, ghost rest: seq<seq<byte>>)
      returns (ok: bool, stop: bool, ending: Ending, dst: array<byte>, p: Progress, ghost done: seq<Chunk>)
    requires raw.Length == RAW_SIZE && |line| < LINE_SIZE && Short(rest) && raw != dst0
    requires Reading(dst0[..], p0.start, p0.total, p0.start_set, done0)
    modifies raw, dst0
    ensures dst == dst0 || fresh(dst)
    ensures var all := Prefixed(done0, Chunks([line] + rest, old(raw[..]), p0.elar, max));
      if !ok then !Placed(all.0)
      else if stop then
        all == (done, ending) && Holds(dst[..], p.start, p.total, done) && Placed(done) && p.start == Start(all)
      else
        all == Prefixed(done, Chunks(rest, raw[..], p.elar, max))
        && Reading(dst[..], p.start, p.total, p.start_set, done)
  {
    LineStep(line, rest, raw[..], p0.elar, max);
    ok, stop, ending, dst, p, done := true, false, NoEnd, dst0, p0, done0;
    ghost var memory := dst0[..];
    var l := ReadLine(raw, line);
    assert dst0[..] == memory;
    match ActionOf(l, p.elar, max) {
      case Skip(e) =>
        p := p.(elar := e);
      case Stop(e) =>
        stop, ending := true, e;
        if !p.start_set && e.Limit? {
          p := p.(start := e.pos);
        }
        assert done + [] == done;
      case Put(c) =>
        var start, total;
        ghost var more := Chunks(rest, raw[..], p.elar, max);
        ok, dst, start, total := DataRecord(dst, p.start, p.total, p.start_set, c, done, more);
        if ok {
          PrefixedTwice(done0, [c], more);
          p, done := Progress(p.elar, start, total, true), done + [c];
        }
    }
  }

  /** The loop over the lines. */
  method ReadFile(lines: seq<seq<byte>>, max: nat, raw: array<byte>)
      returns (ok: bool, ending: Ending, dst: array<byte>, start: nat, total: nat, ghost done: seq<Chunk>)
    requires raw.Length == RAW_SIZE && Short(lines)
    modifies raw
    ensures ok == Placed(Chunks(lines, old(raw[..]), 0, max).0)
    ensures ok ==> (done, ending) == Chunks(lines, old(raw[..]), 0, max)
    ensures ok ==> Holds(dst[..], start, total, done) && start == Start((done, ending))
    ensures fresh(dst)
  {
    dst := new byte[FIRST_ALLOCATION];
    ok, ending, start, total, done := true, NoEnd, 0, 0, [];
    var i, stop, p := 0, false, Progress(0, 0, 0, false);
    ghost var all := Chunks(lines, raw[..], 0, max);
    assert lines[0..] == lines;
    AllPrefixed(all);
    while i < |lines|
      invariant 0 <= i <= |lines| && fresh(dst)
      invariant Prefixed(done, Chunks(lines[i..], raw[..], p.elar, max)) == all
      invariant Reading(dst[..], p.start, p.total, p.start_set, done)
      decreases |lines| - i
    {
      assert lines[i..] == [lines[i]] + lines[i + 1..];
      ok, stop, ending, dst, p, done := Turn(lines[i], raw, dst, p, max, done, lines[i + 1..]);
      if !ok || stop {
        return ok, ending, dst, p.start, p.total, done;
      }
      i := i + 1;
    }
    assert done + [] == done;
    return true, NoEnd, dst, p.start, p.total, done;
  }

  lemma AllPrefixed(all: (seq<Chunk>, Ending))
    ensures Prefixed([], all) == all
  {
    assert [] + all.0 == all.0;
  }

  lemma PrefixedTwice(a: seq<Chunk>, b: seq<Chunk>, r: (seq<Chunk>, Ending))
    ensures Prefixed(a, Prefixed(b, r)) == Prefixed(a + b, r)
  {
    assert a + (b + r.0) == (a + b) + r.0;
  }
}
