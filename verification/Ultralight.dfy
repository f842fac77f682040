/** The MIFARE Ultralight emulation of hydranfc_v2_ce.c against a tag of sixteen pages. */
module Ultralight {
  import opened Bytes
  import opened ListenMode

  const CMD_UL_READ: byte := 0x30
  const CMD_UL_WRITE: byte := 0xA2
  const CMD_UL_CWRITE: byte := 0xA0
  const MIF_ACK: byte := 0xA
  const MIF_NAK: byte := 0x0
  const DATA_SIZE: nat := 64
  const IMAGE_SIZE: nat := 76

  // ------------------------------------------------------------- the tag

  /** Sixteen pages of four bytes, and the page plus one of a compatibility write that
      waits for its data, or zero. */
  datatype Tag = Tag(mem: seq<byte>, pending: nat)

  datatype Reply = Reply(bits: nat, bytes: seq<byte>, reset: bool)

  const ACK := Reply(4, [MIF_ACK], false)
  const NAK := Reply(4, [MIF_NAK], true)

  function Silent(reset: bool): Reply {
    Reply(0, [], reset)
  }

  ghost predicate ValidTag(t: Tag) {
    |t.mem| == DATA_SIZE && (t.pending == 0 || 3 <= t.pending <= 16)
  }

  function Page(mem: seq<byte>, p: nat): (page: seq<byte>)
    requires |mem| == DATA_SIZE && p < 16
    ensures |page| == 4
  {
    mem[4 * p..4 * p + 4]
  }

  /** Four pages from p on, the first page following the last. */
  function FourPages(mem: seq<byte>, p: nat): (pages: seq<byte>)
    requires |mem| == DATA_SIZE && p < 16
    ensures |pages| == 16
  {
    Page(mem, p) + Page(mem, (p + 1) % 16) + Page(mem, (p + 2) % 16) + Page(mem, (p + 3) % 16)
  }

  function Or(x: byte, y: byte): byte {
    FromBits8((x as bv8) | (y as bv8))
  }

  function OrAll(xs: seq<byte>, ys: seq<byte>): (r: seq<byte>)
    requires |xs| == |ys| == 4
    ensures |r| == 4
  {
    [Or(xs[0], ys[0]), Or(xs[1], ys[1]), Or(xs[2], ys[2]), Or(xs[3], ys[3])]
  }

  function WithPage(mem: seq<byte>, p: nat, page: seq<byte>): (r: seq<byte>)
    requires |mem| == DATA_SIZE && p < 16 && |page| == 4
    ensures |r| == DATA_SIZE
  {
    mem[..4 * p] + page + mem[4 * p + 4..]
  }

  /** Data pages are overwritten, the one-time page only gains bits, and the lock page
      takes the command without effect. */
  function Written(mem: seq<byte>, p: nat, data: seq<byte>): (r: seq<byte>)
    requires |mem| == DATA_SIZE && |data| == 4
    ensures |r| == DATA_SIZE
  {
    if 4 <= p <= 15 then WithPage(mem, p, data)
    else if p == 3 then WithPage(mem, p, OrAll(Page(mem, p), data))
    else mem
  }

  function WriteReply(p: nat): Reply {
    if 2 <= p <= 15 then ACK else NAK
  }

  /** A frame: the receive buffer and the number of bytes received into it. */
  datatype Frame = Frame(buf: seq<byte>, len: nat)

  ghost predicate ValidFrame(f: Frame) {
    |f.buf| >= 16
  }

  predicate Halts(f: Frame)
    requires |f.buf| >= 16
  {
    f.len == 2 && f.buf[0] == 0x50 && f.buf[1] == 0x00
  }

  function OnCommand(mem: seq<byte>, f: Frame): (r: (Tag, Reply))
    requires |mem| == DATA_SIZE && |f.buf| >= 16
  {
    var p := f.buf[1];
    if f.buf[0] == CMD_UL_READ then
      (Tag(mem, 0), if f.len != 2 || p > 15 then NAK else Reply(8 * 16, FourPages(mem, p), false))
    else if f.buf[0] == CMD_UL_WRITE then
      if f.len != 6 then (Tag(mem, 0), NAK) else (Tag(Written(mem, p, f.buf[2..6]), 0), WriteReply(p))
    else if f.buf[0] == CMD_UL_CWRITE then
      if f.len != 2 || !(2 <= p <= 15) then (Tag(mem, 0), NAK) else (Tag(mem, p + 1), ACK)
    else (Tag(mem, 0), Silent(true))
  }

  function OnData(mem: seq<byte>, page: nat, f: Frame): (r: (Tag, Reply))
    requires |mem| == DATA_SIZE && |f.buf| >= 16
  {
    if f.len != 16 then (Tag(mem, 0), NAK) else (Tag(Written(mem, page, f.buf[..4]), 0), WriteReply(page))
  }

  /** What the tag does with one frame. */
  function Step(t: Tag, s: ListenState, f: Frame): (r: (Tag, Reply))
    requires |t.mem| == DATA_SIZE && |f.buf| >= 16
    ensures |r.1.bytes| <= 16
  {
    if !Active(s) then (Tag(t.mem, 0), Silent(s.CardEmu4A?))
    else if Halts(f) then (Tag(t.mem, 0), Silent(true))
    else if t.pending > 0 then OnData(t.mem, t.pending - 1, f)
    else OnCommand(t.mem, f)
  }

  // ------------------------------------------------------- the emulation

  const SERIAL: seq<byte> := [0x04, 0x3b, 0x99, 0x2e, 0x0a, 0x9d, 0x32, 0x80, 0x25, 0x48, 0x00, 0x00]
  const BLANK: seq<byte> := [
    0x00, 0x00, 0x00, 0x00,
    0xff, 0xff, 0xff, 0xff, 0x00, 0x00, 0x00, 0x00, 0x00, 0x00, 0x00, 0x00, 0x00, 0x00, 0x00, 0x00,
    0x00, 0x00, 0x00, 0x00, 0x00, 0x00, 0x00, 0x00, 0x00, 0x00, 0x00, 0x00, 0x00, 0x00, 0x00, 0x00,
    0x00, 0x00, 0x00, 0x00, 0x00, 0x00, 0x00, 0x00, 0x00, 0x00, 0x00, 0x00, 0x00, 0x00, 0x00, 0x00]

  /** ul_image_factory: the copy of the first bytes closes the table. */
  function Factory(): (image: seq<byte>)
    ensures |image| == IMAGE_SIZE
  {
    SERIAL + BLANK + SERIAL
  }

  /** The image carries a copy of its first twelve bytes behind its end. */
  ghost predicate Rolled(image: seq<byte>) {
    |image| == IMAGE_SIZE && image[DATA_SIZE..] == image[..12]
  }

  /** So reading straight on past the last page reads the first pages. */
  lemma ReadRollsOver(image: seq<byte>, p: nat)
    requires Rolled(image) && p < 16
    ensures image[4 * p..4 * p + 16] == FourPages(image[..DATA_SIZE], p)
  {
    RolledPage(image, p);
    RolledPage(image, p + 1);
    RolledPage(image, p + 2);
    RolledPage(image, p + 3);
    FourSlices(image, 4 * p);
  }

  lemma RolledPage(image: seq<byte>, q: nat)
    requires Rolled(image) && q < 19
    ensures image[4 * q..4 * q + 4] == Page(image[..DATA_SIZE], q % 16)
  {
    if q >= 16 {
      var r := 4 * (q - 16);
      assert 4 * q == DATA_SIZE + r && q % 16 == q - 16;
      SliceOfBack(image, DATA_SIZE, r, r + 4);
      SliceOfFront(image, 12, r, r + 4);
      SliceOfFront(image, DATA_SIZE, r, r + 4);
    } else {
      SliceOfFront(image, DATA_SIZE, 4 * q, 4 * q + 4);
    }
  }

  lemma FourSlices(s: seq<byte>, i: nat)
    requires i + 16 <= |s|
    ensures s[i..i + 16] == s[i..i + 4] + s[i + 4..i + 8] + s[i + 8..i + 12] + s[i + 12..i + 16]
  {
    TwoSlices(s, i, i + 12, i + 16);
    TwoSlices(s, i, i + 8, i + 12);
    TwoSlices(s, i, i + 4, i + 8);
  }

  lemma TwoSlices(s: seq<byte>, i: nat, m: nat, j: nat)
    requires i <= m <= j <= |s|
    ensures s[i..j] == s[i..m] + s[m..j]
  {
  }

  lemma StoreRolls(image: seq<byte>, p: nat, page: seq<byte>)
    requires Rolled(image) && 3 <= p < 16 && |page| == 4
    ensures var after := image[..4 * p] + page + image[4 * p + 4..];
      Rolled(after) && after[..DATA_SIZE] == WithPage(image[..DATA_SIZE], p, page)
  {
    PageAround(image, 4 * p, page, 12, DATA_SIZE);
    SliceOfFront(image, DATA_SIZE, 0, 4 * p);
    SliceOfFront(image, DATA_SIZE, 4 * p + 4, DATA_SIZE);
  }

  /** Writing a page leaves the front before it and the tail behind it alone. */
  lemma PageAround(image: seq<byte>, at: nat, page: seq<byte>, lo: nat, hi: nat)
    requires lo <= at && |page| == 4 && at + 4 <= hi <= |image|
    ensures var after := image[..at] + page + image[at + 4..];
      && after[..lo] == image[..lo] && after[hi..] == image[hi..]
      && after[..hi] == image[..at] + page + image[at + 4..hi]
  {
  }

  lemma CopyRolls(front: seq<byte>, rest: seq<byte>)
    requires |front| == 12 && |rest| == DATA_SIZE - 12
    ensures Rolled(front + rest + front)
  {
    assert (front + rest + front)[..12] == front;
  }

  class Card {
    const ul_image: array<byte>
    var ul_cwrite_page_set: nat

    ghost predicate Valid()
      reads this, ul_image
    {
      Rolled(ul_image[..]) && (ul_cwrite_page_set == 0 || 3 <= ul_cwrite_page_set <= 16)
    }

    ghost function Contents(): (t: Tag)
      reads this, ul_image
      requires Valid()
      ensures ValidTag(t)
    {
      Tag(ul_image[..DATA_SIZE], ul_cwrite_page_set)
    }

    constructor ()
      ensures Valid() && fresh(ul_image) && Contents() == Tag(Factory()[..DATA_SIZE], 0)
    {
      ul_image := new byte[IMAGE_SIZE];
      ul_cwrite_page_set := 0;
      new;
      ResetImage();
    }

    /** reset_ul_image_file. */
    method ResetImage()
      requires ul_image.Length == IMAGE_SIZE && (ul_cwrite_page_set == 0 || 3 <= ul_cwrite_page_set <= 16)
      modifies ul_image
      ensures Valid() && Contents() == Tag(Factory()[..DATA_SIZE], ul_cwrite_page_set)
    {
      Copy(ul_image, 0, Factory());
      assert ul_image[..] == Factory();
      CopyRolls(SERIAL, BLANK);
    }

    /** read_ul_image_file, once the file is open: its size must be right, and cnt of its
        bytes arrive, none being a failure. */
    method ReadImage(file: seq<byte>, cnt: nat) returns (ok: bool)
      requires Valid() && cnt <= DATA_SIZE
      modifies ul_image
      ensures Valid()
      ensures ok <==> |file| == DATA_SIZE && cnt != 0
      ensures ul_image[..DATA_SIZE] ==
        if ok then file[..cnt] + old(ul_image[cnt..DATA_SIZE]) else old(ul_image[..DATA_SIZE])
    {
      ok := |file| == DATA_SIZE && cnt != 0;
      if ok {
        Copy(ul_image, 0, file[..cnt]);
        ghost var data := ul_image[..DATA_SIZE];
        assert data == file[..cnt] + old(ul_image[cnt..DATA_SIZE]);
        assert ul_image[..12] == data[..12];
        Copy(ul_image, DATA_SIZE, ul_image[..12]);
        assert ul_image[..DATA_SIZE] == data;
        assert ul_image[..12] == ul_image[..DATA_SIZE][..12];
        assert ul_image[DATA_SIZE..] == ul_image[DATA_SIZE..DATA_SIZE + 12] == data[..12];
      }
    }

    method StorePage(p: nat, page: seq<byte>)
      requires Valid() && 3 <= p < 16 && |page| == 4
      modifies ul_image
      ensures Valid() && ul_image[..DATA_SIZE] == WithPage(old(ul_image[..DATA_SIZE]), p, page)
    {
      ghost var was := ul_image[..];
      var i := 4 * p;
      Copy(ul_image, i, page);
      assert ul_image[..] == ul_image[..i] + ul_image[i..i + 4] + ul_image[i + 4..];
      StoreRolls(was, p, page);
      assert was[..DATA_SIZE] == old(ul_image[..DATA_SIZE]);
    }

    /** The write branches of both write commands. */
    method Write(p: nat, data: seq<byte>) returns (ok: bool)
      requires Valid() && |data| == 4
      modifies ul_image
      ensures Valid() && ul_image[..DATA_SIZE] == Written(old(ul_image[..DATA_SIZE]), p, data)
      ensures ok == (2 <= p <= 15)
    {
      if 4 <= p <= 15 {
        StorePage(p, data);
        ok := true;
      } else if p == 3 {
        StorePage(p, OrAll([ul_image[12], ul_image[13], ul_image[14], ul_image[15]], data));
        assert [old(ul_image[12]), old(ul_image[13]), old(ul_image[14]), old(ul_image[15])]
          == Page(old(ul_image[..DATA_SIZE]), 3);
        ok := true;
      } else {
        ok := p == 2;
      }
    }

    /** The branches of the switch on the first byte. */
    method Command(cmd: array<byte>, cmdLen: nat, rsp: array<byte>) returns (bits: nat, reset: bool)
      requires Valid() && cmd.Length >= 16 && rsp.Length >= 16 && ul_cwrite_page_set == 0
      requires cmd != ul_image && rsp != ul_image
      modifies this`ul_cwrite_page_set, ul_image, rsp
      ensures Valid()
      ensures var r := OnCommand(old(ul_image[..DATA_SIZE]), Frame(old(cmd[..]), cmdLen));
        Answers(bits, reset, rsp[..], r, old(rsp[..]))
    {
      var first, p := cmd[0], cmd[1];
      reset := false;
      if first == CMD_UL_READ {
        if cmdLen == 2 && p <= 15 {
          ReadRollsOver(ul_image[..], p);
          Copy(rsp, 0, ul_image[4 * p..4 * p + 16]);
          return 8 * 16, false;
        }
      } else if first == CMD_UL_WRITE {
        if cmdLen == 6 {
          var ok := Write(p, cmd[2..6]);
          rsp[0] := if ok then MIF_ACK else MIF_NAK;
          return 4, !ok;
        }
      } else if first == CMD_UL_CWRITE {
        if cmdLen == 2 && 2 <= p <= 15 {
          ul_cwrite_page_set := p + 1;
          rsp[0] := MIF_ACK;
          return 4, false;
        }
      } else {
        return 0, true;
      }
      rsp[0] := MIF_NAK;
      return 4, true;
    }

    /** The new tag and the reply are those of the specification, and the rest of the
        response buffer is left alone. */
    ghost predicate Answers(bits: nat, reset: bool, rsp: seq<byte>, r: (Tag, Reply), before: seq<byte>)
      reads this, ul_image
      requires Valid()
    {
      && Contents() == r.0 && bits == r.1.bits && reset == r.1.reset
      && |rsp| == |before| && |r.1.bytes| <= |rsp| && rsp == r.1.bytes + before[|r.1.bytes|..]
    }

    /** The second part of a compatibility write. */
    method CwriteData(page: nat, cmd: array<byte>, cmdLen: nat, rsp: array<byte>) returns (bits: nat, reset: bool)
      requires Valid() && cmd.Length >= 16 && rsp.Length >= 16 && ul_cwrite_page_set == 0
      requires cmd != ul_image && rsp != ul_image
      modifies ul_image, rsp
      ensures Valid()
      ensures var r := OnData(old(ul_image[..DATA_SIZE]), page, Frame(old(cmd[..]), cmdLen));
        Answers(bits, reset, rsp[..], r, old(rsp[..]))
    {
      var ok := false;
      if cmdLen == 16 {
        ok := Write(page, cmd[..4]);
      }
      rsp[0] := if ok then MIF_ACK else MIF_NAK;
      return 4, !ok;
    }

    /** The command and the response may share one buffer. */
    method ProcessCmdMifUL(state: ListenState, cmd: array<byte>, cmdLen: nat, rsp: array<byte>)
        returns (bits: nat, card_reset: bool)
      requires Valid() && cmd.Length >= 16 && rsp.Length >= 16
      requires cmd != ul_image && rsp != ul_image
      modifies this`ul_cwrite_page_set, ul_image, rsp
      ensures Valid()
      ensures var r := Step(old(Contents()), state, Frame(old(cmd[..]), cmdLen));
        Answers(bits, card_reset, rsp[..], r, old(rsp[..]))
    {
      var cwrite_addr, cwrite_phase2 := 0, false;
      if ul_cwrite_page_set > 0 {
        cwrite_addr := ul_cwrite_page_set - 1;
        ul_cwrite_page_set := 0;
        cwrite_phase2 := true;
      }
      if !Active(state) {
        return 0, state.CardEmu4A?;
      }
      if cmdLen == 2 && cmd[0] == 0x50 && cmd[1] == 0x00 {
        return 0, true;
      }
      if cwrite_phase2 {
        bits, card_reset := CwriteData(cwrite_addr, cmd, cmdLen, rsp);
      } else {
        bits, card_reset := Command(cmd, cmdLen, rsp);
      }
    }
  }

  // ---------------------------------------------------------------- runs

  datatype Event = Event(state: ListenState, frame: Frame)

  ghost predicate ValidEvents(es: seq<Event>) {
    forall k :: 0 <= k < |es| ==> ValidFrame(es[k].frame)
  }

  function Run(t: Tag, es: seq<Event>): (t1: Tag)
    requires |t.mem| == DATA_SIZE && forall k :: 0 <= k < |es| ==> |es[k].frame.buf| >= 16
    ensures |t1.mem| == DATA_SIZE
    decreases |es|
  {
    if es == [] then t else Run(Step(t, es[0].state, es[0].frame).0, es[1..])
  }

  /** Every bit of x is a bit of y. */
  predicate BitsIn(x: byte, y: byte) {
    (x as bv8) & (y as bv8) == (x as bv8)
  }

  predicate Gained(a: seq<byte>, b: seq<byte>) {
    |a| == |b| == 4 && BitsIn(a[0], b[0]) && BitsIn(a[1], b[1]) && BitsIn(a[2], b[2]) && BitsIn(a[3], b[3])
  }

  lemma OrGains(x: byte, y: byte)
    ensures BitsIn(x, Or(x, y))
  {
    FromBits8Back((x as bv8) | (y as bv8));
    OrKeeps(x as bv8, y as bv8);
  }

  lemma OrKeeps(x: bv8, y: bv8)
    ensures x & (x | y) == x && x & x == x
  {
  }

  lemma AndChain(x: bv8, y: bv8, z: bv8)
    requires x & y == x && y & z == y
    ensures x & z == x
  {
  }

  lemma BitsInChain(x: byte, y: byte, z: byte)
    requires BitsIn(x, y) && BitsIn(y, z)
    ensures BitsIn(x, z)
  {
    AndChain(x as bv8, y as bv8, z as bv8);
  }

  lemma GainedChain(a: seq<byte>, b: seq<byte>, c: seq<byte>)
    requires Gained(a, b) && Gained(b, c)
    ensures Gained(a, c)
  {
    BitsInChain(a[0], b[0], c[0]);
    BitsInChain(a[1], b[1], c[1]);
    BitsInChain(a[2], b[2], c[2]);
    BitsInChain(a[3], b[3], c[3]);
  }

  lemma GainedSelf(a: seq<byte>)
    requires |a| == 4
    ensures Gained(a, a)
  {
    OrKeeps(a[0] as bv8, 0);
    OrKeeps(a[1] as bv8, 0);
    OrKeeps(a[2] as bv8, 0);
    OrKeeps(a[3] as bv8, 0);
  }

  lemma OrAllGains(a: seq<byte>, data: seq<byte>)
    requires |a| == |data| == 4
    ensures Gained(a, OrAll(a, data))
  {
    OrGains(a[0], data[0]);
    OrGains(a[1], data[1]);
    OrGains(a[2], data[2]);
    OrGains(a[3], data[3]);
  }

  /** What no command undoes: the serial number and lock pages stay, and the one-time
      page only gains bits. */
  ghost predicate Kept(before: seq<byte>, after: seq<byte>) {
    && |before| == |after| == DATA_SIZE && after[..12] == before[..12]
    && Gained(Page(before, 3), Page(after, 3))
  }

  lemma WrittenKeeps(mem: seq<byte>, p: nat, data: seq<byte>)
    requires |mem| == DATA_SIZE && |data| == 4
    ensures Kept(mem, Written(mem, p, data))
  {
    GainedSelf(Page(mem, 3));
    var after := Written(mem, p, data);
    assert after[..12] == mem[..12];
    if p == 3 {
      OrAllGains(Page(mem, 3), data);
      assert Page(after, 3) == OrAll(Page(mem, 3), data);
    } else {
      assert Page(after, 3) == Page(mem, 3);
    }
  }

  lemma UnchangedKeeps(mem: seq<byte>)
    requires |mem| == DATA_SIZE
    ensures Kept(mem, mem)
  {
    GainedSelf(Page(mem, 3));
  }

  lemma CommandKeeps(mem: seq<byte>, f: Frame)
    requires |mem| == DATA_SIZE && ValidFrame(f)
    ensures ValidTag(OnCommand(mem, f).0) && Kept(mem, OnCommand(mem, f).0.mem)
  {
    WrittenKeeps(mem, f.buf[1], f.buf[2..6]);
    UnchangedKeeps(mem);
  }

  lemma DataKeeps(mem: seq<byte>, page: nat, f: Frame)
    requires |mem| == DATA_SIZE && ValidFrame(f)
    ensures ValidTag(OnData(mem, page, f).0) && Kept(mem, OnData(mem, page, f).0.mem)
  {
    WrittenKeeps(mem, page, f.buf[..4]);
    UnchangedKeeps(mem);
  }

  lemma StepKeeps(t: Tag, s: ListenState, f: Frame)
    requires ValidTag(t) && ValidFrame(f)
    ensures ValidTag(Step(t, s, f).0) && Kept(t.mem, Step(t, s, f).0.mem)
  {
    UnchangedKeeps(t.mem);
    CommandKeeps(t.mem, f);
    if t.pending > 0 {
      DataKeeps(t.mem, t.pending - 1, f);
    }
    StepIsOne(t, s, f, u => ValidTag(u) && Kept(t.mem, u.mem));
  }

  /** What all three kinds of steps keep, every step keeps. */
  lemma StepIsOne(t: Tag, s: ListenState, f: Frame, keeps: Tag -> bool)
    requires ValidTag(t) && ValidFrame(f) && keeps(Tag(t.mem, 0)) && keeps(OnCommand(t.mem, f).0)
    requires t.pending > 0 ==> keeps(OnData(t.mem, t.pending - 1, f).0)
    ensures keeps(Step(t, s, f).0)
  {
  }

  /** Over every sequence of frames, in every state of the listen mode. */
  lemma {:induction false} RunKeeps(t: Tag, es: seq<Event>)
    requires ValidTag(t) && ValidEvents(es)
    ensures ValidTag(Run(t, es)) && Kept(t.mem, Run(t, es).mem)
    decreases |es|
  {
    if es == [] {
      GainedSelf(Page(t.mem, 3));
    } else {
      assert ValidFrame(es[0].frame);
      var t1 := Step(t, es[0].state, es[0].frame).0;
      StepKeeps(t, es[0].state, es[0].frame);
      RunKeeps(t1, es[1..]);
      GainedChain(Page(t.mem, 3), Page(t1.mem, 3), Page(Run(t, es).mem, 3));
    }
  }

  /** Memory changes only by a WRITE command of six bytes or by a frame of sixteen bytes
      while a compatibility write waits for its data. */
  lemma OnlyWritesChange(t: Tag, s: ListenState, f: Frame)
    requires ValidTag(t) && ValidFrame(f) && Step(t, s, f).0.mem != t.mem
    ensures Active(s)
    ensures if t.pending != 0 then f.len == 16 else f.len == 6 && f.buf[0] == CMD_UL_WRITE && 3 <= f.buf[1] <= 15
  {
  }

  /** A compatibility write waits only right after a CWRITE command was acknowledged. */
  lemma PendingOnlyAfterCwrite(t: Tag, s: ListenState, f: Frame)
    requires ValidTag(t) && ValidFrame(f)
    ensures var (t1, r) := Step(t, s, f);
      t1.pending != 0 <==> Active(s) && t.pending == 0 && f.buf[0] == CMD_UL_CWRITE && r == ACK
    ensures var (t1, r) := Step(t, s, f); t1.pending != 0 ==> t1.pending == f.buf[1] + 1 && t1.mem == t.mem
  {
  }

  /** CWRITE to a page and then sixteen bytes do what WRITE of the first four does; any
      other next frame leaves the memory alone and nothing pending. */
  lemma CompatibilityWrite(t: Tag, s: ListenState, c: Frame, s1: ListenState, d: Frame, w: Frame)
    requires ValidTag(t) && t.pending == 0 && ValidFrame(c) && ValidFrame(d) && ValidFrame(w)
    requires Active(s) && c.len == 2 && c.buf[0] == CMD_UL_CWRITE && 2 <= c.buf[1] <= 15
    requires w.len == 6 && w.buf[0] == CMD_UL_WRITE && w.buf[1] == c.buf[1] && w.buf[2..6] == d.buf[..4]
    ensures Step(t, s, c) == (Tag(t.mem, c.buf[1] + 1), ACK)
    ensures Active(s1) && d.len == 16 ==> Step(Step(t, s, c).0, s1, d) == Step(t, s, w)
    ensures !(Active(s1) && d.len == 16) ==> Step(Step(t, s, c).0, s1, d).0 == t
  {
  }

  /** A write reaches its own page only. */
  lemma WrittenPage(mem: seq<byte>, p: nat, data: seq<byte>, q: nat)
    requires |mem| == DATA_SIZE && |data| == 4 && q < 16
    ensures Page(Written(mem, p, data), q)
      == if q != p || p < 3 then Page(mem, q) else if p == 3 then OrAll(Page(mem, 3), data) else data
  {
    if 3 <= p <= 15 {
      PageOfWithPage(mem, p, if p == 3 then OrAll(Page(mem, 3), data) else data, q);
    }
  }

  lemma PageOfWithPage(mem: seq<byte>, p: nat, page: seq<byte>, q: nat)
    requires |mem| == DATA_SIZE && |page| == 4 && p < 16 && q < 16
    ensures Page(WithPage(mem, p, page), q) == if q == p then page else Page(mem, q)
  {
    var after := WithPage(mem, p, page);
    if q == p {
      assert after[..4 * p + 4] == mem[..4 * p] + page;
      assert after[4 * q..4 * q + 4] == after[..4 * p + 4][4 * p..] == page;
    } else if q < p {
      SliceOfFront(after, 4 * p, 4 * q, 4 * q + 4);
      SliceOfFront(mem, 4 * p, 4 * q, 4 * q + 4);
      assert after[..4 * p] == mem[..4 * p];
    } else {
      var r := 4 * (q - p - 1);
      assert after[4 * p + 4..] == mem[4 * p + 4..];
      SliceOfBack(after, 4 * p + 4, r, r + 4);
      SliceOfBack(mem, 4 * p + 4, r, r + 4);
    }
  }

  lemma FourthOf(a: seq<byte>, b: seq<byte>, c: seq<byte>, d: seq<byte>, i: nat)
    requires |a| == |b| == |c| == |d| == 4 && i < 4
    ensures (a + b + c + d)[4 * i..4 * i + 4] == if i == 0 then a else if i == 1 then b else if i == 2 then c else d
  {
  }

  lemma FourthOfRead(mem: seq<byte>, p: nat, i: nat)
    requires |mem| == DATA_SIZE && p < 16 && i < 4
    ensures FourPages(mem, p)[4 * i..4 * i + 4] == Page(mem, (p + i) % 16)
  {
    var p1, p2, p3 := (p + 1) % 16, (p + 2) % 16, (p + 3) % 16;
    FourthOf(Page(mem, p), Page(mem, p1), Page(mem, p2), Page(mem, p3), i);
    assert (p + i) % 16 == if i == 0 then p else if i == 1 then p1 else if i == 2 then p2 else p3;
  }

  /** A READ after any run answers with four pages from the one named, modulo sixteen. */
  lemma ReadAnswers(t: Tag, s: ListenState, f: Frame, i: nat)
    requires ValidTag(t) && t.pending == 0 && ValidFrame(f) && Active(s)
    requires f.len == 2 && f.buf[0] == CMD_UL_READ && f.buf[1] < 16 && i < 4
    ensures var (t1, r) := Step(t, s, f);
      && t1 == t && r.bits == 128 && |r.bytes| == 16 && !r.reset
      && r.bytes[4 * i..4 * i + 4] == Page(t.mem, (f.buf[1] + i) % 16)
  {
    var p := f.buf[1];
    FourthOfRead(t.mem, p, i);
  }

  // ----------------------------------------------------- bytes on the air

  /** The bytes of the memory after a write to a page: the four of the page are the data
      from page 4 on, and the union with it in page 3; no other byte changes. */
  ghost predicate Wrote(before: seq<byte>, after: seq<byte>, p: nat, data: seq<byte>)
    requires |before| == DATA_SIZE && |data| == 4
  {
    |after| == DATA_SIZE && forall i :: 0 <= i < DATA_SIZE ==>
      if 4 <= p <= 15 && 4 * p <= i < 4 * p + 4 then after[i] == data[i - 4 * p]
      else if p == 3 && 12 <= i < 16 then IsUnion(after[i], before[i], data[i - 12])
      else after[i] == before[i]
  }

  predicate IsUnion(z: byte, x: byte, y: byte) {
    (z as bv8) == (x as bv8) | (y as bv8)
  }

  lemma WrittenWrote(mem: seq<byte>, p: nat, data: seq<byte>)
    requires |mem| == DATA_SIZE && |data| == 4
    ensures Wrote(mem, Written(mem, p, data), p, data)
  {
    if p == 3 {
      OneTimeWrote(mem, data, OrAll(Page(mem, 3), data));
    }
  }

  lemma OneTimeWrote(mem: seq<byte>, data: seq<byte>, page: seq<byte>)
    requires |mem| == DATA_SIZE && |data| == 4 && page == OrAll(Page(mem, 3), data)
    ensures Wrote(mem, mem[..12] + page + mem[16..], 3, data)
  {
    var after := mem[..12] + page + mem[16..];
    forall i | 12 <= i < 16 ensures IsUnion(after[i], mem[i], data[i - 12]) {
      assert after[i] == page[i - 12];
      OrAllAt(mem[12..16], data, i - 12);
      OrIs(mem[i], data[i - 12]);
    }
  }

  lemma OrAllAt(xs: seq<byte>, ys: seq<byte>, i: nat)
    requires |xs| == |ys| == 4 && i < 4
    ensures OrAll(xs, ys)[i] == Or(xs[i], ys[i])
  {
  }

  lemma OrIs(x: byte, y: byte)
    ensures IsUnion(Or(x, y), x, y)
  {
    FromBits8Back((x as bv8) | (y as bv8));
  }

  /** A frame of six bytes that starts with A2 is a write: pages 2 to 15 are acknowledged
      with the four bits 1010 and written, any other refused with 0000 and a reset. */
  lemma WriteAnswered(t: Tag, s: ListenState, f: Frame)
    requires ValidTag(t) && t.pending == 0 && ValidFrame(f) && (s.ActiveA? || s.ActiveAx?)
    requires f.len == 6 && f.buf[0] == 0xA2
    ensures var (t1, r) := Step(t, s, f);
      && r == (if 2 <= f.buf[1] <= 15 then Reply(4, [0xA], false) else Reply(4, [0x0], true))
      && t1.pending == 0 && Wrote(t.mem, t1.mem, f.buf[1], f.buf[2..6])
  {
    WrittenWrote(t.mem, f.buf[1], f.buf[2..6]);
  }

  /** The first part of a compatibility write, A0 and a page: the same answers, and the
      page then waits for its data. */
  lemma CwriteAnswered(t: Tag, s: ListenState, f: Frame)
    requires ValidTag(t) && t.pending == 0 && ValidFrame(f) && (s.ActiveA? || s.ActiveAx?)
    requires f.len == 2 && f.buf[0] == 0xA0
    ensures Step(t, s, f) == if 2 <= f.buf[1] <= 15 then (Tag(t.mem, f.buf[1] + 1), Reply(4, [0xA], false))
      else (Tag(t.mem, 0), Reply(4, [0x0], true))
  {
  }

  /** The second part, sixteen bytes, of which four are written. */
  lemma DataAnswered(t: Tag, s: ListenState, f: Frame)
    requires |t.mem| == DATA_SIZE && t.pending > 0 && ValidFrame(f) && (s.ActiveA? || s.ActiveAx?) && f.len == 16
    ensures var (t1, r) := Step(t, s, f);
      && r == (if 3 <= t.pending <= 16 then Reply(4, [0xA], false) else Reply(4, [0x0], true))
      && t1.pending == 0 && Wrote(t.mem, t1.mem, t.pending - 1, f.buf[..4])
  {
    WrittenWrote(t.mem, t.pending - 1, f.buf[..4]);
  }

  /** With data awaited a frame of any other length is refused and nothing is written,
      unless it is the halt. */
  lemma NoDataAnswered(t: Tag, s: ListenState, f: Frame)
    requires ValidTag(t) && t.pending > 0 && ValidFrame(f) && (s.ActiveA? || s.ActiveAx?) && f.len != 16
    ensures Step(t, s, f) == (Tag(t.mem, 0),
      if f.len == 2 && f.buf[..2] == [0x50, 0x00] then Reply(0, [], true) else Reply(4, [0x0], true))
  {
    assert f.buf[..2] == [f.buf[0], f.buf[1]];
  }

  /** What else is refused, or puts the tag to sleep without an answer; in any state but
      the two active ones nothing is answered. */
  lemma OthersAnswered(t: Tag, s: ListenState, f: Frame)
    requires ValidTag(t) && ValidFrame(f)
    ensures !(s.ActiveA? || s.ActiveAx?) ==> Step(t, s, f) == (Tag(t.mem, 0), Reply(0, [], s.CardEmu4A?))
    ensures (s.ActiveA? || s.ActiveAx?) && t.pending == 0 ==>
      && (f.buf[0] == 0x30 && (f.len != 2 || f.buf[1] > 15) ==> Step(t, s, f) == (t, Reply(4, [0x0], true)))
      && (f.buf[0] == 0xA2 && f.len != 6 ==> Step(t, s, f) == (t, Reply(4, [0x0], true)))
      && (f.buf[0] == 0xA0 && f.len != 2 ==> Step(t, s, f) == (t, Reply(4, [0x0], true)))
      && (f.buf[0] !in [0x30, 0xA2, 0xA0] ==> Step(t, s, f) == (t, Reply(0, [], true)))
  {
  }

  /** READ answers sixteen bytes of the memory from the page named, going on at its start. */
  lemma ReadBytes(t: Tag, s: ListenState, f: Frame, i: nat)
    requires ValidTag(t) && t.pending == 0 && ValidFrame(f) && (s.ActiveA? || s.ActiveAx?)
    requires f.len == 2 && f.buf[0] == 0x30 && f.buf[1] < 16 && i < 16
    ensures var (t1, r) := Step(t, s, f);
      t1 == t && r.bits == 128 && |r.bytes| == 16 && !r.reset && r.bytes[i] == t.mem[(4 * f.buf[1] + i) % 64]
  {
    var p: nat := f.buf[1];
    FourthOfRead(t.mem, p, i / 4);
    ByteOfRead(t.mem, FourPages(t.mem, p), p, i, i / 4, i % 4);
  }

  lemma ByteOfRead(mem: seq<byte>, four: seq<byte>, p: nat, i: nat, q: nat, r: nat)
    requires |mem| == DATA_SIZE && |four| == 16 && p < 16 && q < 4 && r < 4 && i == 4 * q + r
    requires four[4 * q..4 * q + 4] == Page(mem, (p + q) % 16)
    ensures four[i] == mem[(4 * p + i) % 64]
  {
    assert four[i] == four[4 * q..4 * q + 4][r];
    assert (p + q) % 16 == if p + q < 16 then p + q else p + q - 16;
  }

  /** A page from 4 on that was written is what the next READ of it begins with. */
  lemma ReadAfterWrite(t: Tag, s: ListenState, w: Frame, s1: ListenState, f: Frame)
    requires ValidTag(t) && t.pending == 0 && ValidFrame(w) && ValidFrame(f)
    requires (s.ActiveA? || s.ActiveAx?) && (s1.ActiveA? || s1.ActiveAx?)
    requires w.len == 6 && w.buf[0] == 0xA2 && 4 <= w.buf[1] <= 15
    requires f.len == 2 && f.buf[0] == 0x30 && f.buf[1] == w.buf[1]
    ensures var r := Step(Step(t, s, w).0, s1, f).1; |r.bytes| == 16 && r.bytes[..4] == w.buf[2..6]
  {
    WriteAnswered(t, s, w);
    var t1 := Step(t, s, w).0;
    forall i | 0 <= i < 4 ensures Step(t1, s1, f).1.bytes[i] == w.buf[2..6][i] {
      ReadBytes(t1, s1, f, i);
      WroteAt(t.mem, t1.mem, w.buf[1], w.buf[2..6], i);
    }
    ReadBytes(t1, s1, f, 0);
  }

  lemma WroteAt(before: seq<byte>, after: seq<byte>, p: nat, data: seq<byte>, i: nat)
    requires |before| == DATA_SIZE && |data| == 4 && 4 <= p <= 15 && i < 4 && Wrote(before, after, p, data)
    ensures (4 * p + i) % 64 == 4 * p + i && after[4 * p + i] == data[i]
  {
  }
}
