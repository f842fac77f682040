/** The DFU file that hex2dfu.c assembles, and how such a file is read: by its own
    length fields. */
module DfuFile {
  import opened Bytes
  import opened Crc32
  import opened Dfuse

  const DFUSE: seq<byte> := [68, 102, 117, 83, 101]
  const TARGET: seq<byte> := [84, 97, 114, 103, 101, 116]
  const UFD: seq<byte> := [85, 70, 68]
  const DEFAULT_NAME: seq<byte> := [69, 110, 99, 101, 100, 111, 75, 101, 121]

  const PREFIX_SIZE: nat := 11
  const TARGET_SIZE: nat := 274
  const ELEMENT_SIZE: nat := 8
  const SUFFIX_SIZE: nat := 16
  const NAME_SIZE: nat := 255

  function Zeros(n: nat): (z: seq<byte>)
    ensures |z| == n && forall k :: 0 <= k < n ==> z[k] == 0
  {
    seq(n, _ => 0)
  }

  // -------------------------------------------------------------- writing

  /** What the command line gives. */
  datatype Header = Header(alt: int, title: Option<seq<byte>>, vid: int, pid: int, ver: int)

  /** At most 254 characters of the label; a fixed name when there is none. */
  function Name(title: Option<seq<byte>>): (name: seq<byte>)
    ensures |name| < NAME_SIZE
  {
    match title
    case None => DEFAULT_NAME
    case Some(text) => if |text| > 254 then text[..254] else text
  }

  function Prefix(len: nat): (s: seq<byte>)
    ensures |s| == PREFIX_SIZE
  {
    DFUSE + [1] + Le32(11 + 274 + 8 + len) + [1]
  }

  function NameField(title: Option<seq<byte>>): (s: seq<byte>)
    ensures |s| == NAME_SIZE
  {
    Name(title) + Zeros(NAME_SIZE - |Name(title)|)
  }

  function TargetPrefix(h: Header, len: nat): (s: seq<byte>)
    ensures |s| == TARGET_SIZE
  {
    TARGET + [h.alt % 256] + [1, 0, 0, 0] + NameField(h.title) + Le32(8 + len) + [1, 0, 0, 0]
  }

  function ElementPrefix(start: nat, len: nat): (s: seq<byte>)
    ensures |s| == ELEMENT_SIZE
  {
    Le32(start) + Le32(len)
  }

  function Suffix(h: Header): (s: seq<byte>)
    ensures |s| == SUFFIX_SIZE - 4
  {
    Le16(h.ver) + Le16(h.pid) + Le16(h.vid) + [0x1A, 0x01] + UFD + [16]
  }

  /** The file up to its checksum. */
  function Unsigned(h: Header, start: nat, image: seq<byte>): (s: seq<byte>)
    ensures |s| == PREFIX_SIZE + TARGET_SIZE + ELEMENT_SIZE + |image| + SUFFIX_SIZE - 4
  {
    Prefix(|image|) + TargetPrefix(h, |image|) + ElementPrefix(start, |image|) + image + Suffix(h)
  }

  function File(h: Header, start: nat, image: seq<byte>): seq<byte> {
    Unsigned(h, start, image) + WordBytes(Register(0, Unsigned(h, start, image)))
  }

  /** A buffer written from the front, and still zero behind. */
  ghost predicate Written(buf: seq<byte>, done: seq<byte>) {
    |done| <= |buf| && buf == done + Zeros(|buf| - |done|)
  }

  method Put(dfu: array<byte>, c: nat, bytes: seq<byte>, ghost done: seq<byte>) returns (c1: nat)
    requires Written(dfu[..], done) && c == |done| && c + |bytes| <= dfu.Length
    modifies dfu
    ensures Written(dfu[..], done + bytes) && c1 == |done + bytes|
  {
    ghost var n := dfu.Length;
    c1 := c + |bytes|;
    assert dfu[..c] == done && dfu[c1..] == Zeros(n - c1);
    Copy(dfu, c, bytes);
    assert dfu[..] == dfu[..c] + dfu[c..c1] + dfu[c1..];
  }

  /** Bytes that calloc left zero are stepped over. */
  lemma Skip(buf: seq<byte>, done: seq<byte>, n: nat)
    requires Written(buf, done) && |done| + n <= |buf|
    ensures Written(buf, done + Zeros(n))
  {
    assert Zeros(|buf| - |done|) == Zeros(n) + Zeros(|buf| - |done| - n);
  }

  /** The expression `0xFFFFFFFF & (-crc - 1)` undoes the complement of the checksum. */
  lemma Uncomplemented(crc: bv32, r: bv32)
    requires crc == Not(r)
    ensures 0xFFFFFFFF & ((0 - crc) - 1) == r
  {
  }

  method PutPrefix(dfu: array<byte>, len: nat) returns (c: nat)
    requires dfu.Length >= PREFIX_SIZE && Written(dfu[..], [])
    modifies dfu
    ensures Written(dfu[..], Prefix(len)) && c == PREFIX_SIZE
  {
    c := Put(dfu, 0, DFUSE, []);
    c := Put(dfu, c, [1], [] + DFUSE);
    c := Put(dfu, c, Le32(11 + 274 + 8 + len), [] + DFUSE + [1]);
    c := Put(dfu, c, [1], [] + DFUSE + [1] + Le32(11 + 274 + 8 + len));
    assert [] + DFUSE == DFUSE;
  }

  lemma Join(d: seq<byte>, a: seq<byte>, b: seq<byte>)
    ensures (d + a) + b == d + (a + b)
  {
  }

  lemma OneZeros()
    ensures [1] + Zeros(3) == [1, 0, 0, 0]
  {
  }

  /** A flag byte and three bytes that stay zero. */
  method PutOne(dfu: array<byte>, c0: nat, ghost done: seq<byte>) returns (c: nat)
    requires c0 == |done| && c0 + 4 <= dfu.Length && Written(dfu[..], done)
    modifies dfu
    ensures Written(dfu[..], done + [1, 0, 0, 0]) && c == c0 + 4
  {
    c := Put(dfu, c0, [1], done);
    Skip(dfu[..], done + [1], 3);
    OneZeros();
    Join(done, [1], Zeros(3));
    c := c + 3;
  }

  method PutName(dfu: array<byte>, c0: nat, title: Option<seq<byte>>, ghost done: seq<byte>) returns (c: nat)
    requires c0 == |done| && c0 + NAME_SIZE <= dfu.Length && Written(dfu[..], done)
    modifies dfu
    ensures Written(dfu[..], done + NameField(title)) && c == c0 + NAME_SIZE
  {
    c := Put(dfu, c0, Name(title), done);
    Skip(dfu[..], done + Name(title), NAME_SIZE - |Name(title)|);
    Join(done, Name(title), Zeros(NAME_SIZE - |Name(title)|));
    c := c0 + NAME_SIZE;
  }

  method PutTarget(dfu: array<byte>, c0: nat, h: Header, len: nat, ghost done: seq<byte>) returns (c: nat)
    requires c0 == |done| && c0 + TARGET_SIZE <= dfu.Length && Written(dfu[..], done)
    modifies dfu
    ensures Written(dfu[..], done + TargetPrefix(h, len)) && c == c0 + TARGET_SIZE
  {
    ghost var d1, d2 := done + TARGET, done + TARGET + [h.alt % 256];
    ghost var d3 := d2 + [1, 0, 0, 0];
    ghost var d4 := d3 + NameField(h.title);
    ghost var d5 := d4 + Le32(8 + len);
    c := Put(dfu, c0, TARGET, done);
    c := Put(dfu, c, [h.alt % 256], d1);
    c := PutOne(dfu, c, d2);
    c := PutName(dfu, c, h.title, d3);
    c := Put(dfu, c, Le32(8 + len), d4);
    c := PutOne(dfu, c, d5);
    Join6(done, TARGET, [h.alt % 256], [1, 0, 0, 0], NameField(h.title), Le32(8 + len), [1, 0, 0, 0]);
  }

  lemma Join6(d: seq<byte>, a: seq<byte>, b: seq<byte>, c: seq<byte>, e: seq<byte>, f: seq<byte>, g: seq<byte>)
    ensures d + a + b + c + e + f + g == d + (a + b + c + e + f + g)
  {
    Join(d, a, b);
    Join(d, a + b, c);
    Join(d, a + b + c, e);
    Join(d, a + b + c + e, f);
    Join(d, a + b + c + e + f, g);
  }

  method PutElement(dfu: array<byte>, c0: nat, start: nat, image: seq<byte>, ghost done: seq<byte>) returns (c: nat)
    requires c0 == |done| && c0 + ELEMENT_SIZE + |image| <= dfu.Length && Written(dfu[..], done)
    modifies dfu
    ensures Written(dfu[..], done + ElementPrefix(start, |image|) + image) && c == c0 + ELEMENT_SIZE + |image|
  {
    c := Put(dfu, c0, Le32(start), done);
    c := Put(dfu, c, Le32(|image|), done + Le32(start));
    Join(done, Le32(start), Le32(|image|));
    c := Put(dfu, c, image, done + ElementPrefix(start, |image|));
  }

  method PutSuffix(dfu: array<byte>, c0: nat, h: Header, ghost done: seq<byte>) returns (c: nat)
    requires c0 == |done| && c0 + SUFFIX_SIZE - 4 <= dfu.Length && Written(dfu[..], done)
    modifies dfu
    ensures Written(dfu[..], done + Suffix(h)) && c == c0 + SUFFIX_SIZE - 4
  {
    ghost var d1, d2 := done + Le16(h.ver), done + Le16(h.ver) + Le16(h.pid);
    ghost var d3 := d2 + Le16(h.vid);
    c := Put(dfu, c0, Le16(h.ver), done);
    c := Put(dfu, c, Le16(h.pid), d1);
    c := Put(dfu, c, Le16(h.vid), d2);
    c := Put(dfu, c, [0x1A, 0x01], d3);
    c := Put(dfu, c, UFD, d3 + [0x1A, 0x01]);
    c := Put(dfu, c, [16], d3 + [0x1A, 0x01] + UFD);
    Join6(done, Le16(h.ver), Le16(h.pid), Le16(h.vid), [0x1A, 0x01], UFD, [16]);
  }

  /** The whole file is assembled in a zeroed buffer of dfu_len bytes, then summed. */
  method Assemble(h: Header, start: nat, image: seq<byte>) returns (dfu: array<byte>)
    ensures fresh(dfu) && dfu[..] == File(h, start, image)
  {
    var dfu_len := 11 + 274 + 8 + |image| + 16;
    dfu := new byte[dfu_len](_ => 0);
    assert dfu[..] == [] + Zeros(dfu_len);
    var c := Body(dfu, h, start, image);
    assert dfu[..c] == Unsigned(h, start, image);
    var crc := Crc32.Crc32(0, dfu[..c]);
    Uncomplemented(crc, Register(0, dfu[..c]));
    crc := 0xFFFFFFFF & ((0 - crc) - 1);
    c := Put(dfu, c, WordBytes(crc), Unsigned(h, start, image));
  }

  method Body(dfu: array<byte>, h: Header, start: nat, image: seq<byte>) returns (c: nat)
    requires dfu.Length == 11 + 274 + 8 + |image| + 16 && Written(dfu[..], [])
    modifies dfu
    ensures Written(dfu[..], Unsigned(h, start, image)) && c == |Unsigned(h, start, image)|
  {
    ghost var d1 := Prefix(|image|);
    ghost var d2 := d1 + TargetPrefix(h, |image|);
    c := PutPrefix(dfu, |image|);
    c := PutTarget(dfu, c, h, |image|, d1);
    c := PutElement(dfu, c, start, image, d2);
    c := PutSuffix(dfu, c, h, d2 + ElementPrefix(start, |image|) + image);
  }

  /** Summing the whole file, its checksum included, leaves the register at zero. */
  lemma FileResidue(h: Header, start: nat, image: seq<byte>)
    ensures Register(0, File(h, start, image)) == 0
  {
    Residue(0, Unsigned(h, start, image));
  }

  // -------------------------------------------------------------- reading

  datatype Element = Element(address: nat, data: seq<byte>)
  datatype Target = Target(alt: byte, named: nat, name: seq<byte>, elements: seq<Element>)
  datatype Dfu = Dfu(targets: seq<Target>, vid: nat, pid: nat, ver: nat)

  /** n image elements, each as long as it says. */
  function Elements(n: nat, s: seq<byte>): Option<seq<Element>>
    decreases n, |s|
  {
    if n == 0 then (if s == [] then Some([]) else None)
    else if |s| < ELEMENT_SIZE then None
    else
      var size := Word32(s[4..8]);
      if |s| < ELEMENT_SIZE + size then None
      else
        var e, more := Element(Word32(s[..4]), s[8..8 + size]), Elements(n - 1, s[8 + size..]);
        if more.None? then None else Some([e] + more.value)
  }

  /** n targets, each with its own number of elements and their total size. */
  function Targets(n: nat, s: seq<byte>): Option<seq<Target>>
    decreases n, |s|
  {
    if n == 0 then (if s == [] then Some([]) else None)
    else if |s| < TARGET_SIZE || s[..6] != TARGET then None
    else
      var size := Word32(s[266..270]);
      if |s| < TARGET_SIZE + size then None
      else
        var es, more := Elements(Word32(s[270..274]), s[274..274 + size]), Targets(n - 1, s[274 + size..]);
        if es.None? || more.None? then None
        else Some([Target(s[6], Word32(s[7..11]), CString(s[11..266]), es.value)] + more.value)
  }

  /** A file read by its own length fields, when its signatures and checksum are right. */
  function Read(f: seq<byte>): Option<Dfu> {
    if |f| < PREFIX_SIZE + SUFFIX_SIZE || f[..5] != DFUSE || f[5] != 1 || Register(0, f) != 0 then None
    else
      var size := Word32(f[6..10]);
      if size + SUFFIX_SIZE != |f| then None
      else
        var suffix, targets := f[size..size + 12], Targets(f[10], f[11..size]);
        if suffix[6..] != [0x1A, 0x01] + UFD + [16] || targets.None? then None
        else Some(Dfu(targets.value, Word16(suffix[4..6]), Word16(suffix[2..4]), Word16(suffix[..2])))
  }

  // ----------------------------------------------------------- round trip

  lemma Halves(a: seq<byte>, b: seq<byte>)
    ensures (a + b)[..|a|] == a && (a + b)[|a|..] == b
  {
  }

  lemma WordBack(n: nat)
    requires n < 0x1_0000_0000
    ensures Word32(Le32(n)) == n
  {
    Word32OfLe32(n);
  }

  lemma ElementStep(n: nat, s: seq<byte>, size: nat, e: Element)
    requires n > 0 && |s| >= ELEMENT_SIZE + size && size == Word32(s[4..8])
    requires e == Element(Word32(s[..4]), s[8..8 + size]) && Elements(n - 1, s[8 + size..]) == Some([])
    ensures Elements(n, s) == Some([e])
  {
    assert [e] + [] == [e];
  }

  lemma ElementAhead(p: seq<byte>, image: seq<byte>)
    requires |p| == ELEMENT_SIZE
    ensures var s := p + image;
      s[..4] == p[..4] && s[4..8] == p[4..8] && s[8..8 + |image|] == image && s[8 + |image|..] == []
  {
  }

  lemma ElementFields(start: nat, len: nat)
    ensures ElementPrefix(start, len)[..4] == Le32(start) && ElementPrefix(start, len)[4..8] == Le32(len)
  {
  }

  /** One element read back from its own size field. */
  lemma ElementBack(start: nat, image: seq<byte>, n: nat)
    requires start < 0x1_0000_0000 && |image| < 0x1_0000_0000 && n == 1
    ensures Elements(n, ElementPrefix(start, |image|) + image) == Some([Element(start, image)])
  {
    var s := ElementPrefix(start, |image|) + image;
    WordBack(start);
    WordBack(|image|);
    ElementFields(start, |image|);
    ElementAhead(ElementPrefix(start, |image|), image);
    ElementStep(n, s, |image|, Element(start, image));
  }

  /** The fields of a target prefix. */
  lemma TargetFields(h: Header, len: nat)
    ensures var t := TargetPrefix(h, len);
      && t[..6] == TARGET && t[6] == h.alt % 256 && t[7..11] == [1, 0, 0, 0]
      && t[11..266] == NameField(h.title) && t[266..270] == Le32(8 + len) && t[270..274] == [1, 0, 0, 0]
  {
    var t := TargetPrefix(h, len);
    var t1 := TARGET + [h.alt % 256] + [1, 0, 0, 0];
    var t2 := t1 + NameField(h.title);
    Halves(t1, NameField(h.title));
    Halves(t2, Le32(8 + len));
    Halves(t2 + Le32(8 + len), [1, 0, 0, 0]);
    assert t[..270] == t2 + Le32(8 + len);
    assert t[266..270] == t[..270][266..];
    assert t[..266] == t[..270][..266] == t2;
    assert t[11..266] == t[..266][11..];
    assert t[..11] == t[..266][..11] == t1;
    assert t[7..11] == t1[7..];
    assert t[..6] == t1[..6];
    assert t[6] == t1[6];
  }

  /** A target prefix followed by what it measures. */
  lemma TargetAhead(t: seq<byte>, body: seq<byte>)
    requires |t| == TARGET_SIZE
    ensures var s := t + body;
      && s[..6] == t[..6] && s[6] == t[6] && s[7..11] == t[7..11] && s[11..266] == t[11..266]
      && s[266..270] == t[266..270] && s[270..274] == t[270..274]
      && s[274..274 + |body|] == body && s[274 + |body|..] == []
  {
  }

  lemma NameBack(title: Option<seq<byte>>)
    ensures CString(NameField(title)) == CString(Name(title))
  {
    Terminated(Name(title), Zeros(NAME_SIZE - |Name(title)|));
  }

  /** The name that a reader finds: the label given, its first 254 characters when it is
      longer, and "EncedoKey" without one. A label from the command line has no zeros. */
  predicate Labelled(name: seq<byte>, title: Option<seq<byte>>) {
    match title
    case None => name == [69, 110, 99, 101, 100, 111, 75, 101, 121]
    case Some(text) => 0 !in text ==> name == if |text| <= 254 then text else text[..254]
  }

  lemma NameRead(title: Option<seq<byte>>)
    ensures Labelled(CString(NameField(title)), title)
  {
    NameBack(title);
    if title.None? || 0 !in title.value {
      WholeText(Name(title));
    }
  }

  lemma TargetStep(n: nat, s: seq<byte>, size: nat, es: seq<Element>)
    requires n > 0 && |s| >= TARGET_SIZE + size && s[..6] == TARGET && size == Word32(s[266..270])
    requires Elements(Word32(s[270..274]), s[274..274 + size]) == Some(es)
    requires Targets(n - 1, s[274 + size..]) == Some([])
    ensures Targets(n, s) == Some([Target(s[6], Word32(s[7..11]), CString(s[11..266]), es)])
  {
    var t := Target(s[6], Word32(s[7..11]), CString(s[11..266]), es);
    assert [t] + [] == [t];
  }

  lemma TargetBack(h: Header, start: nat, image: seq<byte>, n: nat)
    requires start < 0x1_0000_0000 && |image| + 8 < 0x1_0000_0000 && n == 1
    ensures Targets(n, TargetPrefix(h, |image|) + (ElementPrefix(start, |image|) + image))
      == Some([Target(h.alt % 256, 1, CString(NameField(h.title)), [Element(start, image)])])
    ensures Labelled(CString(NameField(h.title)), h.title)
  {
    var t, body := TargetPrefix(h, |image|), ElementPrefix(start, |image|) + image;
    TargetFields(h, |image|);
    TargetAhead(t, body);
    WordBack(8 + |image|);
    ElementBack(start, image, n);
    NameRead(h.title);
    OneWord();
    TargetStep(n, t + body, 8 + |image|, [Element(start, image)]);
  }

  lemma OneWord()
    ensures Word32([1, 0, 0, 0]) == 1
  {
  }

  /** Where the parts of a file lie. */
  lemma Sections(p: seq<byte>, t: seq<byte>, e: seq<byte>, image: seq<byte>, s: seq<byte>, crc: seq<byte>)
    requires |p| == 11 && |s| == 12
    ensures var f, size := p + t + e + image + s + crc, 11 + |t| + |e| + |image|;
      f[..11] == p && f[11..size] == t + (e + image) && f[size..size + 12] == s
  {
    var f := p + t + e + image + s + crc;
    var size := 11 + |t| + |e| + |image|;
    var front := p + t + e + image;
    assert f[..size] == front;
    assert front == p + (t + (e + image));
    Halves(p, t + (e + image));
    assert f[..11] == f[..size][..11];
    assert f[11..size] == f[..size][11..];
  }

  lemma PrefixFields(len: nat)
    ensures var p := Prefix(len);
      p[..5] == DFUSE && p[5] == 1 && p[6..10] == Le32(11 + 274 + 8 + len) && p[10] == 1
  {
  }

  lemma SuffixFields(h: Header)
    ensures var s := Suffix(h);
      && s[..2] == Le16(h.ver) && s[2..4] == Le16(h.pid) && s[4..6] == Le16(h.vid)
      && s[6..] == [0x1A, 0x01] + UFD + [16]
  {
  }

  lemma PrefixAhead(f: seq<byte>, p: seq<byte>)
    requires 11 <= |f| && f[..11] == p
    ensures f[..5] == p[..5] && f[5] == p[5] && f[6..10] == p[6..10] && f[10] == p[10]
  {
  }

  /** The signatures and fixed bytes of a file: "DfuSe", version 1, one target; "Target",
      the alternate setting, named; release 1.26, "UFD" and the length of the suffix. */
  lemma Signatures(h: Header, start: nat, image: seq<byte>)
    ensures var f, n := File(h, start, image), 11 + 274 + 8 + |image| + 16;
      && |f| == n && f[..6] == [68, 102, 117, 83, 101, 1] && f[10] == 1
      && f[11..17] == [84, 97, 114, 103, 101, 116] && f[17] == h.alt % 256 && f[18] == 1
      && f[n - 10..n - 4] == [0x1A, 0x01, 85, 70, 68, 16]
  {
    var f, n := File(h, start, image), 11 + 274 + 8 + |image| + 16;
    var p, t, e, s := Prefix(|image|), TargetPrefix(h, |image|), ElementPrefix(start, |image|), Suffix(h);
    Sections(p, t, e, image, s, WordBytes(Register(0, Unsigned(h, start, image))));
    PrefixFields(|image|);
    PrefixAhead(f, p);
    TargetFields(h, |image|);
    TargetAhead(t, e + image);
    SuffixFields(h);
    SliceOfBack(f[11..n - 16], 0, 0, 6);
    assert f[11..17] == f[11..n - 16][..6] == t[..6];
    assert f[17] == f[11..n - 16][6] && f[18] == f[11..n - 16][7] == t[7..11][0];
    assert f[n - 10..n - 4] == f[n - 16..n - 4][6..];
    assert f[..6] == f[..5] + [f[5]];
  }

  /** Every file that the program writes reads back, through its own length fields, to
      the address, image, name and numbers it was made from; dfu_len is an int in the
      program. */
  lemma ReadBack(h: Header, start: nat, image: seq<byte>)
    requires start < 0x1_0000_0000 && 11 + 274 + 8 + |image| + 16 < 0x8000_0000
    ensures Read(File(h, start, image)) == Some(Dfu(
      [Target(h.alt % 256, 1, CString(NameField(h.title)), [Element(start, image)])],
      h.vid % 0x1_0000, h.pid % 0x1_0000, h.ver % 0x1_0000))
    ensures Labelled(CString(NameField(h.title)), h.title)
  {
    var f, p, t := File(h, start, image), Prefix(|image|), TargetPrefix(h, |image|);
    var e, s := ElementPrefix(start, |image|), Suffix(h);
    Sections(p, t, e, image, s, WordBytes(Register(0, Unsigned(h, start, image))));
    PrefixFields(|image|);
    PrefixAhead(f, p);
    WordBack(11 + 274 + 8 + |image|);
    TargetBack(h, start, image, 1);
    SuffixFields(h);
    Word16OfLe16(h.vid);
    Word16OfLe16(h.pid);
    Word16OfLe16(h.ver);
    FileResidue(h, start, image);
  }
}
