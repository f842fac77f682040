/** The SLCAN text form of a CAN frame, as hydrabus_mode_can.c prints and parses it. */
module Slcan {
  import opened Bytes

  const TEXT_SIZE: nat := 27
  const CR: byte := 13
  const BUFF_LEN: nat := 50
  const WORD: nat := 0x1_0000_0000

  /** Data is followed by the three bytes behind it in memory: each conversion of the
      parser stores a word of four bytes. */
  const DATA_SIZE: nat := 8
  const STORE_SIZE: nat := 11

  datatype Frame = Frame(ext: bool, rtr: bool, id: nat, dlc: nat, data: seq<byte>)

  function Pow16(n: nat): (p: nat)
    ensures p > 0
  {
    if n == 0 then 1 else 16 * Pow16(n - 1)
  }

  ghost predicate ValidFrame(f: Frame) {
    |f.data| == DATA_SIZE && f.dlc <= 8 && f.id < if f.ext then 0x2000_0000 else 0x800
  }

  // ------------------------------------------------------------- printing

  /** n upper-case digits. */
  function HexN(v: nat, n: nat): (text: seq<byte>)
    ensures |text| == n
    decreases n, v
  {
    if n == 0 then [] else HexN(v / 16, n - 1) + [HexDigit(v % 16)]
  }

  function HexBytes(bytes: seq<byte>): (text: seq<byte>)
    ensures |text| == 2 * |bytes|
  {
    if bytes == [] then [] else HexN(bytes[0], 2) + HexBytes(bytes[1..])
  }

  function OutCode(f: Frame): byte {
    if f.ext then (if f.rtr then 82 else 84) else if f.rtr then 114 else 116
  }

  function IdWidth(ext: bool): nat {
    if ext then 8 else 3
  }

  /** Type, identifier, length and data; extended frames have a capital letter. */
  function Text(f: Frame): (t: seq<byte>)
    requires |f.data| == DATA_SIZE && f.dlc <= 8
    ensures |t| == 2 + IdWidth(f.ext) + 2 * f.dlc < TEXT_SIZE
    ensures t[0] == OutCode(f)
  {
    [OutCode(f)] + HexN(f.id, IdWidth(f.ext)) + [48 + f.dlc] + HexBytes(f.data[..f.dlc])
  }

  /** Digit j of a number, from the right. */
  function Nibble(v: nat, j: nat): (d: nat)
    ensures d < 16
    decreases j
  {
    if j == 0 then v % 16 else Nibble(v / 16, j - 1)
  }

  lemma {:induction false} HexNAt(v: nat, n: nat, k: nat)
    requires k < n
    ensures HexN(v, n)[k] as char == "0123456789ABCDEF"[Nibble(v, n - 1 - k)]
    decreases n
  {
    if k == n - 1 {
      HexDigitIs(v % 16);
    } else {
      HexNAt(v / 16, n - 1, k);
    }
  }

  lemma {:induction false} HexBytesAt(bytes: seq<byte>, k: nat)
    requires k < |bytes|
    ensures HexBytes(bytes)[2 * k] as char == "0123456789ABCDEF"[bytes[k] / 16]
    ensures HexBytes(bytes)[2 * k + 1] as char == "0123456789ABCDEF"[bytes[k] % 16]
    decreases k
  {
    if k > 0 {
      HexBytesAt(bytes[1..], k - 1);
    } else {
      HexNAt(bytes[0], 2, 0);
      HexNAt(bytes[0], 2, 1);
      TwoNibbles(bytes[0]);
    }
  }

  lemma TwoNibbles(b: byte)
    ensures Nibble(b, 0) == b % 16 && Nibble(b, 1) == b / 16
  {
  }

  /** The letter of a frame: t and r for data and remote frames, capital when extended. */
  lemma LetterIs(f: Frame)
    requires |f.data| == DATA_SIZE && f.dlc <= 8
    ensures Text(f)[0] as char == if f.ext then (if f.rtr then 'R' else 'T') else if f.rtr then 'r' else 't'
  {
  }

  /** Behind the letter three digits of the identifier, or eight, then the length. */
  lemma TextOfId(f: Frame, k: nat)
    requires ValidFrame(f)
    ensures var w := if f.ext then 8 else 3;
      && |Text(f)| == 2 + w + 2 * f.dlc && Text(f)[1 + w] as char == "012345678"[f.dlc]
      && (k < w ==> Text(f)[1 + k] as char == "0123456789ABCDEF"[Nibble(f.id, w - 1 - k)])
  {
    var w := IdWidth(f.ext);
    TextAt([OutCode(f)], HexN(f.id, w), [48 + f.dlc], HexBytes(f.data[..f.dlc]), k);
    LengthDigit(f.dlc);
    if k < w {
      HexNAt(f.id, w, k);
    }
  }

  /** And two digits for each byte, in upper case. */
  lemma TextOfData(f: Frame, k: nat)
    requires ValidFrame(f) && k < f.dlc
    ensures var at := (if f.ext then 10 else 5) + 2 * k;
      && at + 1 < |Text(f)| && Text(f)[at] as char == "0123456789ABCDEF"[f.data[k] / 16]
      && Text(f)[at + 1] as char == "0123456789ABCDEF"[f.data[k] % 16]
  {
    var data := f.data[..f.dlc];
    TextAt([OutCode(f)], HexN(f.id, IdWidth(f.ext)), [48 + f.dlc], HexBytes(data), k);
    DataDigits(data, f.data[k], k);
  }

  lemma DataDigits(data: seq<byte>, b: byte, k: nat)
    requires k < |data| && data[k] == b
    ensures HexBytes(data)[2 * k] as char == "0123456789ABCDEF"[b / 16]
    ensures HexBytes(data)[2 * k + 1] as char == "0123456789ABCDEF"[b % 16]
  {
    HexBytesAt(data, k);
  }

  lemma LengthDigit(n: nat)
    requires n <= 8
    ensures (48 + n) as char == "012345678"[n]
  {
  }

  lemma TextAt(a: seq<byte>, b: seq<byte>, c: seq<byte>, d: seq<byte>, k: nat)
    requires |a| == |c| == 1
    ensures var t := a + b + c + d;
      && (k < |b| ==> t[1 + k] == b[k]) && t[1 + |b|] == c[0]
      && (2 * k + 1 < |d| ==> t[2 + |b| + 2 * k] == d[2 * k] && t[3 + |b| + 2 * k] == d[2 * k + 1])
  {
  }

  // -------------------------------------------------------------- parsing

  predicate IsSpace(c: byte) {
    c == 32 || 9 <= c <= 13
  }

  function SkipSpace(text: seq<byte>): seq<byte> {
    if text != [] && IsSpace(text[0]) then SkipSpace(text[1..]) else text
  }

  /** Digits up to a width, over a value: the value and the text left. */
  function Digits(text: seq<byte>, width: nat, base: nat, acc: nat): (nat, seq<byte>)
    requires base <= 16
    decreases width, |text|
  {
    if width == 0 || text == [] || Digit(text[0]) >= base then (acc, text)
    else Digits(text[1..], width - 1, base, acc * base + Digit(text[0]))
  }

  /** A conversion skips white space; it fails at the end of the text or where there is
      no digit. Signs and 0x prefixes are not part of this model. */
  datatype Scan = AtEnd | NoMatch | Value(v: nat, rest: seq<byte>)

  function ScanNumber(text: seq<byte>, width: nat, base: nat): Scan
    requires base <= 16
  {
    var t := SkipSpace(text);
    if t == [] then AtEnd
    else if width == 0 || Digit(t[0]) >= base then NoMatch
    else var (v, rest) := Digits(t, width, base, 0); Value(v, rest)
  }

  /** `%*[tr]`: all letters of the kind, at least one. */
  function SkipCodes(text: seq<byte>, ext: bool): seq<byte> {
    if text == [] then text
    else if ext && (text[0] == 84 || text[0] == 82) then SkipCodes(text[1..], ext)
    else if !ext && (text[0] == 116 || text[0] == 114) then SkipCodes(text[1..], ext)
    else text
  }

  /** Up to n conversions `%02X`. */
  function ScanBytes(text: seq<byte>, n: nat): (vs: seq<nat>)
    ensures |vs| <= n
    decreases n
  {
    if n == 0 then []
    else match ScanNumber(text, 2, 16)
      case Value(v, rest) => [v] + ScanBytes(rest, n - 1)
      case _ => []
  }

  /** A word stored at i, lowest byte first. */
  function StoreWord(data: seq<byte>, i: nat, v: nat): (d: seq<byte>)
    requires i + 4 <= |data|
    ensures |d| == |data|
  {
    data[i := v % 0x100][i + 1 := v / 0x100 % 0x100][i + 2 := v / 0x1_0000 % 0x100][i + 3 := v / 0x100_0000 % 0x100]
  }

  /** The overlapping stores of the conversions, one byte further each. */
  function Stores(data: seq<byte>, i: nat, vs: seq<nat>): (d: seq<byte>)
    requires i + |vs| + 3 <= |data|
    ensures |d| == |data|
    decreases |vs|
  {
    if vs == [] then data else Stores(StoreWord(data, i, vs[0]), i + 1, vs[1..])
  }

  /** Each store puts its byte and clears the next three, which later stores fill. */
  lemma {:induction false} StoresAre(data: seq<byte>, i: nat, vs: seq<nat>)
    requires i + |vs| + 3 <= |data| && forall k :: 0 <= k < |vs| ==> vs[k] < 256
    ensures var d := Stores(data, i, vs);
      && d[..i] == data[..i]
      && forall k :: 0 <= k < |vs| ==> d[i + k] == vs[k]
    decreases |vs|
  {
    if vs != [] {
      var d1 := StoreWord(data, i, vs[0]);
      StoresAre(d1, i + 1, vs[1..]);
      var d := Stores(data, i, vs);
      assert d[i] == d[..i + 1][i] == d1[..i + 1][i] == vs[0];
      assert d[..i] == d[..i + 1][..i] == d1[..i];
      forall k | 0 <= k < |vs| ensures d[i + k] == vs[k] {
        if k > 0 {
          assert d[i + 1 + (k - 1)] == vs[1..][k - 1];
        }
      }
    }
  }

  lemma TwoDigits(text: seq<byte>)
    ensures Digits(text, 2, 16, 0).0 < 256
  {
    if text != [] && Digit(text[0]) < 16 {
      assert Digits(text, 2, 16, 0) == Digits(text[1..], 1, 16, Digit(text[0]));
      OneDigit(text[1..], Digit(text[0]));
    }
  }

  lemma OneDigit(text: seq<byte>, acc: nat)
    requires acc < 16
    ensures Digits(text, 1, 16, acc).0 < 256
  {
    if text != [] && Digit(text[0]) < 16 {
      assert Digits(text, 1, 16, acc) == Digits(text[1..], 0, 16, acc * 16 + Digit(text[0]));
    }
  }

  lemma {:induction false} ScannedAreBytes(text: seq<byte>, n: nat)
    ensures forall k :: 0 <= k < |ScanBytes(text, n)| ==> ScanBytes(text, n)[k] < 256
    decreases n
  {
    if n > 0 {
      TwoDigits(SkipSpace(text));
      match ScanNumber(text, 2, 16)
      case Value(v, rest) => ScannedAreBytes(rest, n - 1);
      case _ =>
    }
  }

  // ------------------------------------------------------------ the parser

  datatype Header = Header(ext: bool, rtr: bool, stdId: nat, extId: nat, dlc: nat)

  function WithId(h: Header, id: nat): Header {
    if h.ext then h.(extId := id) else h.(stdId := id)
  }

  function Id(h: Header): nat {
    if h.ext then h.extId else h.stdId
  }

  datatype Parsed = Parsed(h: Header, data: seq<byte>, result: nat)

  /** The length plus two, as an unsigned word. */
  function Needed(dlc: nat): nat {
    if dlc < WORD - 2 then dlc + 2 else (dlc + 2) % WORD
  }

  predicate Ok(p: Parsed) {
    p.result >= Needed(p.h.dlc)
  }

  /** sscanf: the count of conversions, or -1 kept in a byte when the text ends before
      the first one. */
  function ScanFrame(text: seq<byte>, h: Header, data: seq<byte>): (p: Parsed)
    requires |data| == STORE_SIZE
    ensures |p.data| == STORE_SIZE
  {
    match ScanNumber(text, IdWidth(h.ext), 16)
    case AtEnd => Parsed(h, data, 255)
    case NoMatch => Parsed(h, data, 0)
    case Value(id, rest) =>
      match ScanNumber(rest, 1, 10)
      case Value(dlc, rest1) =>
        var vs := ScanBytes(rest1, 8);
        Parsed(WithId(h, id).(dlc := dlc), Stores(data, 0, vs), 2 + |vs|)
      case _ => Parsed(WithId(h, id), data, 1)
  }

  predicate IsCode(c: byte) {
    c == 116 || c == 114 || c == 84 || c == 82
  }

  function Coded(h: Header, c: byte): Header {
    h.(ext := c == 84 || c == 82, rtr := c == 114 || c == 82)
  }

  // ---------------------------------------------------------- round trip

  lemma {:induction false} DigitsOf(v: nat, n: nat, m: nat, rest: seq<byte>)
    requires v < Pow16(n)
    ensures Digits(HexN(v, n) + rest, n + m, 16, 0) == Digits(rest, m, 16, v)
    decreases n
  {
    if n == 0 {
      assert HexN(v, n) + rest == rest;
    } else {
      var d := HexDigit(v % 16);
      assert HexN(v, n) + rest == HexN(v / 16, n - 1) + ([d] + rest);
      DigitsOf(v / 16, n - 1, m + 1, [d] + rest);
      assert ([d] + rest)[1..] == rest;
      assert v / 16 * 16 + v % 16 == v;
    }
  }

  lemma {:induction false} HexNFirst(v: nat, n: nat)
    requires n > 0
    ensures HexN(v, n)[0] >= 48 && Digit(HexN(v, n)[0]) < 16
    decreases n
  {
    if n > 1 {
      HexNFirst(v / 16, n - 1);
    }
  }

  lemma ScanHexN(v: nat, n: nat, rest: seq<byte>)
    requires n > 0 && v < Pow16(n)
    ensures ScanNumber(HexN(v, n) + rest, n, 16) == Value(v, rest)
  {
    HexNFirst(v, n);
    DigitsOf(v, n, 0, rest);
  }

  lemma ScanDlc(dlc: nat, rest: seq<byte>)
    requires dlc <= 9
    ensures ScanNumber([48 + dlc] + rest, 1, 10) == Value(dlc, rest)
  {
    var t := [48 + dlc] + rest;
    assert t[1..] == rest;
    assert Digits(t, 1, 10, 0) == Digits(rest, 0, 10, dlc);
  }

  lemma JoinText(a: seq<byte>, b: seq<byte>, c: seq<byte>)
    ensures (a + b) + c == a + (b + c)
  {
  }

  lemma ScanStep(text: seq<byte>, n: nat, v: nat, rest: seq<byte>)
    requires n > 0 && ScanNumber(text, 2, 16) == Value(v, rest)
    ensures ScanBytes(text, n) == [v] + ScanBytes(rest, n - 1)
  {
  }

  lemma {:induction false} ScanHexBytes(bytes: seq<byte>, n: nat, tail: seq<byte>)
    requires |bytes| <= n
    ensures ScanBytes(HexBytes(bytes) + tail, n) == bytes + ScanBytes(tail, n - |bytes|)
    decreases |bytes|
  {
    if bytes == [] {
      assert HexBytes(bytes) + tail == tail;
    } else {
      ScanHexBytes(bytes[1..], n - 1, tail);
      ScanNextByte(bytes, n, tail, ScanBytes(tail, n - |bytes|));
    }
  }

  /** The first of some bytes. */
  lemma ScanNextByte(bytes: seq<byte>, n: nat, tail: seq<byte>, rest: seq<nat>)
    requires 0 < |bytes| <= n && ScanBytes(HexBytes(bytes[1..]) + tail, n - 1) == bytes[1..] + rest
    ensures ScanBytes(HexBytes(bytes) + tail, n) == bytes + rest
  {
    var more := HexBytes(bytes[1..]) + tail;
    JoinText(HexN(bytes[0], 2), HexBytes(bytes[1..]), tail);
    ScanHexByte(bytes[0], more);
    ScanStep(HexBytes(bytes) + tail, n, bytes[0], more);
    HeadJoins(bytes, rest);
  }

  lemma HeadJoins(bytes: seq<nat>, more: seq<nat>)
    requires bytes != []
    ensures [bytes[0]] + (bytes[1..] + more) == bytes + more
  {
  }

  lemma ScanHexByte(b: byte, rest: seq<byte>)
    ensures ScanNumber(HexN(b, 2) + rest, 2, 16) == Value(b, rest)
  {
    assert Pow16(2) == 256;
    ScanHexN(b, 2, rest);
  }

  lemma IdFits(f: Frame)
    requires ValidFrame(f)
    ensures f.id < Pow16(IdWidth(f.ext))
  {
    assert Pow16(3) == 4096;
    assert Pow16(4) == 0x1_0000;
    assert Pow16(6) == 0x100_0000;
    assert Pow16(8) == 0x1_0000_0000;
  }

  /** The message that the parser fills in. */
  class TxMessage {
    var header: Header
    const data: array<byte>

    ghost predicate Valid()
      reads this
    {
      data.Length == STORE_SIZE
    }

    constructor ()
      ensures Valid() && fresh(data)
    {
      header, data := Header(false, false, 0, 0, 0), new byte[STORE_SIZE];
    }

    /** The conversions into the data bytes, in turn. */
    method ScanData(text: seq<byte>, n: nat) returns (count: nat)
      requires Valid() && n + 3 <= STORE_SIZE
      modifies data
      ensures count == |ScanBytes(text, n)| && data[..] == Stores(old(data[..]), 0, ScanBytes(text, n))
    {
      ghost var vs := ScanBytes(text, n);
      ghost var goal, size := Stores(data[..], 0, vs), |vs|;
      var rest, left := text, n;
      count := 0;
      while left > 0
        invariant 0 <= left && count + left <= n && count + |vs| == size && vs == ScanBytes(rest, left)
        invariant Stores(data[..], count, vs) == goal
        decreases left
      {
        var scan := ScanNumber(rest, 2, 16);
        if !scan.Value? {
          break;
        }
        ScanStep(rest, left, scan.v, scan.rest);
        StoreAt(count, scan.v);
        rest, count, left, vs := scan.rest, count + 1, left - 1, vs[1..];
      }
    }

    method StoreAt(i: nat, v: nat)
      requires Valid() && i + 4 <= STORE_SIZE
      modifies data
      ensures data[..] == StoreWord(old(data[..]), i, v)
    {
      data[i], data[i + 1] := v % 0x100, v / 0x100 % 0x100;
      data[i + 2], data[i + 3] := v / 0x1_0000 % 0x100, v / 0x100_0000 % 0x100;
    }

    /** can_slcan_in: whether the frame was accepted. */
    method SlcanIn(text: seq<byte>) returns (ok: bool)
      requires Valid()
      modifies this`header, data
      ensures text == [] || !IsCode(text[0]) ==> !ok && header == old(header) && data[..] == old(data[..])
      ensures text != [] && IsCode(text[0]) ==>
        var h := Coded(old(header), text[0]);
        var p := ScanFrame(SkipCodes(text, h.ext), h, old(data[..]));
        header == p.h && data[..] == p.data && ok == Ok(p)
    {
      if text == [] || !IsCode(text[0]) {
        return false;
      }
      header := Coded(header, text[0]);
      var result := SlcanScan(SkipCodes(text, header.ext));
      ok := result >= Needed(header.dlc);
    }

    method SlcanScan(text: seq<byte>) returns (result: nat)
      requires Valid()
      modifies this`header, data
      ensures Parsed(header, data[..], result) == ScanFrame(text, old(header), old(data[..]))
    {
      var id := ScanNumber(text, IdWidth(header.ext), 16);
      if id.AtEnd? {
        return 255;
      } else if id.NoMatch? {
        return 0;
      }
      header := WithId(header, id.v);
      var dlc := ScanNumber(id.rest, 1, 10);
      if !dlc.Value? {
        return 1;
      }
      header := header.(dlc := dlc.v);
      var count := ScanData(dlc.rest, 8);
      result := 2 + count;
    }
  }

  // ----------------------------------------------------------- the printer

  predicate Visible(text: seq<byte>) {
    forall k :: 0 <= k < |text| ==> text[k] >= 48
  }

  lemma {:induction false} HexNVisible(v: nat, n: nat)
    ensures Visible(HexN(v, n))
    decreases n
  {
    if n > 0 {
      HexNVisible(v / 16, n - 1);
    }
  }

  lemma {:induction false} HexBytesVisible(bytes: seq<byte>)
    ensures Visible(HexBytes(bytes))
    decreases |bytes|
  {
    if bytes != [] {
      HexNVisible(bytes[0], 2);
      HexBytesVisible(bytes[1..]);
    }
  }

  lemma TextVisible(f: Frame)
    requires ValidFrame(f)
    ensures 0 !in Text(f)
  {
    HexNVisible(f.id, IdWidth(f.ext));
    HexBytesVisible(f.data[..f.dlc]);
  }

  /** snprintf: the text and a zero behind it. */
  method Snprintf(buf: array<byte>, offset: nat, text: seq<byte>)
    requires offset + |text| < buf.Length
    modifies buf
    ensures buf[..offset + |text|] == old(buf[..offset]) + text && buf[offset + |text|] == 0
  {
    Copy(buf, offset, text);
    assert buf[..offset + |text|] == buf[..offset] + buf[offset..offset + |text|];
    buf[offset + |text|] := 0;
  }

  method PrintData(slcanmsg: array<byte>, offset0: nat, data: seq<byte>) returns (offset: nat)
    requires offset0 + 2 * |data| < slcanmsg.Length && slcanmsg[offset0] == 0
    modifies slcanmsg
    ensures offset == offset0 + 2 * |data| && slcanmsg[offset] == 0
    ensures slcanmsg[..offset] == old(slcanmsg[..offset0]) + HexBytes(data)
  {
    var i := 0;
    offset := offset0;
    ghost var goal := slcanmsg[..offset] + HexBytes(data);
    while i < |data|
      invariant 0 <= i <= |data| && offset == offset0 + 2 * i && slcanmsg[offset] == 0
      invariant slcanmsg[..offset] + HexBytes(data[i..]) == goal
    {
      PrintStep(slcanmsg[..offset], data[i..]);
      assert data[i..][1..] == data[i + 1..];
      Snprintf(slcanmsg, offset, HexN(data[i], 2));
      offset, i := offset + 2, i + 1;
    }
    assert slcanmsg[..offset] + [] == slcanmsg[..offset];
  }

  lemma PrintStep(done: seq<byte>, data: seq<byte>)
    requires data != []
    ensures done + HexBytes(data) == (done + HexN(data[0], 2)) + HexBytes(data[1..])
  {
  }

  /** can_slcan_out: the whole text fits the buffer of 27 bytes, its zero included. */
  method SlcanOut(f: Frame) returns (out: seq<byte>)
    requires ValidFrame(f)
    ensures out == Text(f) + [CR]
  {
    var slcanmsg := new byte[TEXT_SIZE](_ => 0);
    var head := [OutCode(f)] + HexN(f.id, IdWidth(f.ext)) + [48 + f.dlc];
    Snprintf(slcanmsg, 0, head);
    assert slcanmsg[..|head|] == head;
    var offset := PrintData(slcanmsg, |head|, f.data[..f.dlc]);
    TextVisible(f);
    Printed(slcanmsg[..], offset, Text(f));
    out := CString(slcanmsg[..]) + [CR];
  }

  lemma Printed(buf: seq<byte>, n: nat, text: seq<byte>)
    requires n < |buf| && buf[..n] == text && buf[n] == 0 && 0 !in text
    ensures CString(buf) == text
  {
    assert buf == text + buf[n..];
    Terminated(text, buf[n..]);
    WholeText(text);
  }

  /** Whatever follows the carriage return, what was printed is parsed back: the kind, the
      identifier, the length and as many data bytes. */
  lemma RoundTrip(f: Frame, tail: seq<byte>, h: Header, data: seq<byte>)
    requires ValidFrame(f) && |data| == STORE_SIZE
    ensures var text := Text(f) + [CR] + tail;
      && IsCode(text[0])
      && var p := ScanFrame(SkipCodes(text, Coded(h, text[0]).ext), Coded(h, text[0]), data);
        && Ok(p) && p.h.ext == f.ext && p.h.rtr == f.rtr && Id(p.h) == f.id && p.h.dlc == f.dlc
        && p.data[..f.dlc] == f.data[..f.dlc]
  {
    var body := HexBytes(f.data[..f.dlc]) + ([CR] + tail);
    TextParts(f, tail);
    OneCode(f, [48 + f.dlc] + body);
    ScanBack(f, [CR] + tail, Coded(h, OutCode(f)), data);
  }

  lemma TextParts(f: Frame, tail: seq<byte>)
    requires |f.data| == DATA_SIZE && f.dlc <= 8
    ensures Text(f) + [CR] + tail
      == [OutCode(f)] + (HexN(f.id, IdWidth(f.ext)) + ([48 + f.dlc] + (HexBytes(f.data[..f.dlc]) + ([CR] + tail))))
  {
  }

  /** The same without the letter in front. */
  lemma ScanBack(f: Frame, tail: seq<byte>, h: Header, data: seq<byte>)
    requires ValidFrame(f) && |data| == STORE_SIZE && h.ext == f.ext
    ensures var text := HexN(f.id, IdWidth(f.ext)) + ([48 + f.dlc] + (HexBytes(f.data[..f.dlc]) + tail));
      var p := ScanFrame(text, h, data);
      Ok(p) && p.h == WithId(h, f.id).(dlc := f.dlc) && p.data[..f.dlc] == f.data[..f.dlc]
  {
    var body := HexBytes(f.data[..f.dlc]) + tail;
    IdFits(f);
    ScanHexN(f.id, IdWidth(f.ext), [48 + f.dlc] + body);
    ScanDlc(f.dlc, body);
    DataBack(f.data[..f.dlc], tail, data);
    FrameScanned(HexN(f.id, IdWidth(f.ext)) + ([48 + f.dlc] + body), h, data, f.id, [48 + f.dlc] + body, body,
      f.data[..f.dlc]);
  }

  lemma FrameScanned(text: seq<byte>, h: Header, data: seq<byte>, id: nat, rest: seq<byte>, body: seq<byte>,
                     bytes: seq<byte>)
    requires |data| == STORE_SIZE && |bytes| <= 8
    requires ScanNumber(text, IdWidth(h.ext), 16) == Value(id, rest) && ScanNumber(rest, 1, 10) == Value(|bytes|, body)
    requires |ScanBytes(body, 8)| >= |bytes| && Stores(data, 0, ScanBytes(body, 8))[..|bytes|] == bytes
    ensures var p := ScanFrame(text, h, data);
      Ok(p) && p.h == WithId(h, id).(dlc := |bytes|) && p.data[..|bytes|] == bytes
  {
    Scanned(text, h, data, id, rest, |bytes|, body);
  }

  lemma Scanned(text: seq<byte>, h: Header, data: seq<byte>, id: nat, rest: seq<byte>, dlc: nat, body: seq<byte>)
    requires |data| == STORE_SIZE
    requires ScanNumber(text, IdWidth(h.ext), 16) == Value(id, rest) && ScanNumber(rest, 1, 10) == Value(dlc, body)
    ensures var p := ScanFrame(text, h, data);
      && p.h == WithId(h, id).(dlc := dlc) && p.result == 2 + |ScanBytes(body, 8)|
      && p.data == Stores(data, 0, ScanBytes(body, 8))
  {
  }

  lemma OneCode(f: Frame, rest: seq<byte>)
    ensures SkipCodes([OutCode(f)] + (HexN(f.id, IdWidth(f.ext)) + rest), f.ext) == HexN(f.id, IdWidth(f.ext)) + rest
  {
    var t := HexN(f.id, IdWidth(f.ext)) + rest;
    HexNFirst(f.id, IdWidth(f.ext));
    assert ([OutCode(f)] + t)[1..] == t;
  }

  lemma DataBack(bytes: seq<byte>, tail: seq<byte>, data: seq<byte>)
    requires |bytes| <= 8 && |data| == STORE_SIZE
    ensures var vs := ScanBytes(HexBytes(bytes) + tail, 8);
      |vs| >= |bytes| && Stores(data, 0, vs)[..|bytes|] == bytes
  {
    ScanHexBytes(bytes, 8, tail);
    ScannedAreBytes(HexBytes(bytes) + tail, 8);
    StoresFront(data, ScanBytes(HexBytes(bytes) + tail, 8), |bytes|);
  }

  lemma StoresFront(data: seq<byte>, vs: seq<nat>, n: nat)
    requires n <= |vs| && |vs| + 3 <= |data| && forall k :: 0 <= k < |vs| ==> vs[k] < 256
    ensures Stores(data, 0, vs)[..n] == vs[..n]
  {
    StoresAre(data, 0, vs);
    assert forall k :: 0 <= k < n ==> Stores(data, 0, vs)[0 + k] == vs[k];
  }

  // -------------------------------------------------- what is accepted

  /** Identifier and length are there, and as many data bytes as the length says. */
  predicate Complete(text: seq<byte>, ext: bool) {
    var id := ScanNumber(text, IdWidth(ext), 16);
    id.Value? &&
    var dlc := ScanNumber(id.rest, 1, 10);
    dlc.Value? && |ScanBytes(dlc.rest, 8)| >= dlc.v
  }

  lemma DlcIsDigit(text: seq<byte>)
    requires ScanNumber(text, 1, 10).Value?
    ensures ScanNumber(text, 1, 10).v < 10
  {
    var t := SkipSpace(text);
    assert Digits(t, 1, 10, 0) == Digits(t[1..], 0, 10, Digit(t[0]));
  }

  /** Behind its letter a frame is accepted exactly when it is complete, or when nothing is
      left to scan: the -1 of the scanner is kept in an unsigned byte, and passes for the
      count of conversions whatever the length that the message had before. */
  lemma AcceptedExactly(text: seq<byte>, h: Header, data: seq<byte>)
    requires |data| == STORE_SIZE && h.dlc < WORD - 2
    ensures Ok(ScanFrame(text, h, data)) <==> (SkipSpace(text) == [] && h.dlc <= 253) || Complete(text, h.ext)
    ensures SkipSpace(text) == [] ==> ScanFrame(text, h, data) == Parsed(h, data, 255)
  {
    if Numbers(text, h.ext) {
      WholeScan(text, h, data);
    } else {
      CutScan(text, h, data);
    }
  }

  predicate Numbers(text: seq<byte>, ext: bool) {
    var id := ScanNumber(text, IdWidth(ext), 16);
    id.Value? && ScanNumber(id.rest, 1, 10).Value?
  }

  lemma WholeScan(text: seq<byte>, h: Header, data: seq<byte>)
    requires |data| == STORE_SIZE && Numbers(text, h.ext)
    ensures Ok(ScanFrame(text, h, data)) == Complete(text, h.ext) && SkipSpace(text) != []
  {
    var id := ScanNumber(text, IdWidth(h.ext), 16);
    var dlc := ScanNumber(id.rest, 1, 10);
    DlcIsDigit(id.rest);
    Scanned(text, h, data, id.v, id.rest, dlc.v, dlc.rest);
  }

  lemma CutScan(text: seq<byte>, h: Header, data: seq<byte>)
    requires |data| == STORE_SIZE && !Numbers(text, h.ext)
    ensures var id := ScanNumber(text, IdWidth(h.ext), 16);
      var p := ScanFrame(text, h, data);
      && p.result == (if id.AtEnd? then 255 else if id.NoMatch? then 0 else 1)
      && p.h.dlc == h.dlc && !Complete(text, h.ext) && (SkipSpace(text) == [] <==> id.AtEnd?)
      && (id.AtEnd? ==> p.h == h && p.data == data)
  {
  }

  /** In the two lengths at the end of the word range, which only a message that was never
      filled in can have, the sum wraps and a frame cut short passes as well. */
  lemma WrappedLength(text: seq<byte>, h: Header, data: seq<byte>)
    requires |data| == STORE_SIZE && WORD - 2 <= h.dlc < WORD
    ensures var id := ScanNumber(text, IdWidth(h.ext), 16);
      Ok(ScanFrame(text, h, data)) <==>
        if Numbers(text, h.ext) then Complete(text, h.ext) else id.NoMatch? ==> h.dlc == WORD - 2
  {
    if Numbers(text, h.ext) {
      WholeScan(text, h, data);
    } else {
      CutScan(text, h, data);
    }
  }

  // ------------------------------------------------------ the input buffer

  /** How many bytes a command takes from i on: up to its carriage return, or what fits. */
  function Taken(input: seq<byte>, i: nat, room: nat): (n: nat)
    requires i <= |input|
    ensures i + n <= |input| && n <= room
    decreases room
  {
    if room == 0 || i == |input| then 0
    else if input[i] == CR then 1
    else 1 + Taken(input, i + 1, room - 1)
  }

  /** slcan_read_command over the bytes that arrive before the button is pressed: they are
      put over what an earlier command left, and no zero behind them. */
  method ReadCommand(buff: array<byte>, input: seq<byte>)
    modifies buff
    ensures var n := Taken(input, 0, buff.Length); buff[..] == input[..n] + old(buff[n..])
  {
    var i: nat, last: byte := 0, 0;
    ghost var room: nat := buff.Length;
    ghost var all := Taken(input, i, room);
    ghost var left := all;
    while last != CR && i < |input| && i < buff.Length
      invariant 0 <= i <= |input| && i + room == buff.Length && i + left == all
      invariant left == if last == CR then 0 else Taken(input, i, room)
      invariant buff[..i] == input[..i] && buff[i..] == old(buff[i..])
      decreases |input| - i
    {
      last := input[i];
      PutByte(buff, i, last);
      i, room, left := i + 1, room - 1, left - 1;
    }
    assert buff[..] == buff[..i] + buff[i..];
  }

  method PutByte(buff: array<byte>, i: nat, b: byte)
    requires i < buff.Length
    modifies buff
    ensures buff[..i + 1] == old(buff[..i]) + [b] && buff[i + 1..] == old(buff[i..])[1..]
  {
    buff[i] := b;
  }

  /** A frame letter with nothing but its carriage return: what the earlier command left
      behind these two bytes is scanned in its place. */
  lemma BareLetter(c: byte, rest: seq<byte>, before: seq<byte>, h: Header, data: seq<byte>)
    requires IsCode(c) && |before| == BUFF_LEN && |data| == STORE_SIZE && h.dlc < WORD - 2
    ensures var n := Taken([c, CR] + rest, 0, |before|);
      var text := CString(([c, CR] + rest)[..n] + before[n..]);
      var tail := CString(before[2..]);
      && text == [c, CR] + tail
      && ScanFrame(SkipCodes(text, Coded(h, c).ext), Coded(h, c), data) == ScanFrame(tail, Coded(h, c), data)
      && (Ok(ScanFrame(tail, Coded(h, c), data)) <==>
            (SkipSpace(tail) == [] && h.dlc <= 253) || Complete(tail, Coded(h, c).ext))
  {
    TakenTwo(c, rest, |before|);
    Overlaid(c, rest, before);
    var tail := CString(before[2..]);
    BareScan(c, tail, Coded(h, c));
    SkipCr(tail, Coded(h, c), data);
    AcceptedExactly(tail, Coded(h, c), data);
  }

  lemma TakenTwo(c: byte, rest: seq<byte>, room: nat)
    requires IsCode(c) && room >= 2
    ensures Taken([c, CR] + rest, 0, room) == 2
  {
    assert ([c, CR] + rest)[1] == CR;
  }

  lemma Overlaid(c: byte, rest: seq<byte>, before: seq<byte>)
    requires IsCode(c) && |before| == BUFF_LEN
    ensures CString(([c, CR] + rest)[..2] + before[2..]) == [c, CR] + CString(before[2..])
  {
    var s := ([c, CR] + rest)[..2] + before[2..];
    assert s[1..] == [CR] + before[2..] && s[1..][1..] == before[2..];
  }

  lemma BareScan(c: byte, tail: seq<byte>, h: Header)
    requires IsCode(c) && h == Coded(h, c)
    ensures SkipCodes([c, CR] + tail, h.ext) == [CR] + tail
  {
    assert ([c, CR] + tail)[1..] == [CR] + tail;
  }

  lemma SkipCr(tail: seq<byte>, h: Header, data: seq<byte>)
    requires |data| == STORE_SIZE
    ensures ScanFrame([CR] + tail, h, data) == ScanFrame(tail, h, data)
  {
    assert ([CR] + tail)[1..] == tail;
  }

  /** So where the frame left behind is complete it is sent once more, under the new
      letter: with `2320` there, `t` and a carriage return send identifier 0x232. */
  lemma StaleFrame(f: Frame, c: byte, tail: seq<byte>, h: Header, data: seq<byte>)
    requires ValidFrame(f) && IsCode(c) && Coded(h, c).ext == f.ext && |data| == STORE_SIZE
    ensures var text := [c, CR] + (HexN(f.id, IdWidth(f.ext)) + ([48 + f.dlc] + (HexBytes(f.data[..f.dlc]) + tail)));
      var p := ScanFrame(SkipCodes(text, f.ext), Coded(h, c), data);
      Ok(p) && Id(p.h) == f.id && p.h.dlc == f.dlc && p.data[..f.dlc] == f.data[..f.dlc]
  {
    var stale := HexN(f.id, IdWidth(f.ext)) + ([48 + f.dlc] + (HexBytes(f.data[..f.dlc]) + tail));
    BareScan(c, stale, Coded(h, c));
    SkipCr(stale, Coded(h, c), data);
    ScanBack(f, tail, Coded(h, c), data);
  }
}
