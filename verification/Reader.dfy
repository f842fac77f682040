/** Block chaining of the ISO-DEP reader in hydranfc_v2_reader.c (sections 7.5.2 and 7.5.3
    of ISO/IEC 14443-4). */
module Reader {
  import opened Bytes

  const BUFFER_SIZE: nat := 260

  // -------------------------------------------------------------- framing

  datatype Tpdu = Tpdu(pcb: byte, nad: byte, cid: byte, inf: seq<byte>)

  /** Which of the optional header bytes a session uses. */
  datatype Header = Header(addNad: bool, addCid: bool)

  function HeaderSize(h: Header): nat {
    1 + (if h.addNad then 1 else 0) + (if h.addCid then 1 else 0)
  }

  function Framed(h: Header, t: Tpdu): (frame: seq<byte>)
    ensures |frame| == HeaderSize(h) + |t.inf|
  {
    [t.pcb] + (if h.addNad then [t.nad] else []) + (if h.addCid then [t.cid] else []) + t.inf
  }

  /** The bytes of a frame for each setting: PCB, then NAD, then CID, then INF. */
  lemma FrameBytes(t: Tpdu)
    ensures Framed(Header(false, false), t) == [t.pcb] + t.inf
    ensures Framed(Header(false, true), t) == [t.pcb, t.cid] + t.inf
    ensures Framed(Header(true, false), t) == [t.pcb, t.nad] + t.inf
    ensures Framed(Header(true, true), t) == [t.pcb, t.nad, t.cid] + t.inf
  {
  }

  /** A received block over the block held before; the length is kept in one byte. */
  function Parsed(h: Header, data: seq<byte>, t: Tpdu): (t1: Tpdu)
    requires HeaderSize(h) <= |data|
  {
    var n := HeaderSize(h);
    Tpdu(data[0], if h.addNad then data[1] else t.nad, if h.addCid then data[n - 1] else t.cid,
         data[n..n + (|data| - n) % 256])
  }

  /** The same from the receive buffer and a length, which may be shorter than the header:
      what is behind it in the buffer is then taken, 256 bytes less the ones missing. */
  function Received(h: Header, rx: seq<byte>, len: nat, t: Tpdu): (t1: Tpdu)
    requires |rx| == BUFFER_SIZE
  {
    var n := HeaderSize(h);
    Tpdu(rx[0], if h.addNad then rx[1] else t.nad, if h.addCid then rx[n - 1] else t.cid,
         rx[n..n + (len - n) % 256])
  }

  lemma ReceivedIsParsed(h: Header, rx: seq<byte>, len: nat, t: Tpdu)
    requires |rx| == BUFFER_SIZE && HeaderSize(h) <= len <= BUFFER_SIZE
    ensures Received(h, rx, len, t) == Parsed(h, rx[..len], t)
  {
    SliceOfFront(rx, len, HeaderSize(h), HeaderSize(h) + (len - HeaderSize(h)) % 256);
  }

  /** A length short of the header by m bytes leaves 256 - m bytes of INF, from behind the
      header on. */
  lemma ShortReceived(h: Header, rx: seq<byte>, len: nat, t: Tpdu)
    requires |rx| == BUFFER_SIZE && len < HeaderSize(h)
    ensures var n := if h.addNad && h.addCid then 3 else if h.addNad || h.addCid then 2 else 1;
      len < n && Received(h, rx, len, t).inf == rx[n..256 + len]
  {
  }

  /** parse_r_tpdu inverts the framing of send_tpdu for every setting. */
  lemma ParseInvertsFraming(h: Header, t: Tpdu, was: Tpdu)
    requires |t.inf| < 256
    requires (h.addNad || was.nad == t.nad) && (h.addCid || was.cid == t.cid)
    ensures Parsed(h, Framed(h, t), was) == t
  {
    var frame, n := Framed(h, t), HeaderSize(h);
    assert frame[n..] == t.inf;
  }

  // ------------------------------------------------------------- chaining

  /** PCB of an I-block: its number, 0x02, and bits that the number never has. */
  function IBlockPcb(h: Header, number: nat, chaining: bool): byte
    requires number < 2
  {
    number + 0x02 + (if h.addCid then 0x08 else 0) + (if chaining then 0x10 else 0) + (if h.addNad then 0x04 else 0)
  }

  /** Bit by bit: the number, a one, NAD, CID and the chaining bit. */
  lemma IBlockBits(h: Header, number: nat, chaining: bool)
    requires number < 2
    ensures var pcb: nat := IBlockPcb(h, number, chaining);
      && pcb < 0x20 && pcb % 2 == number && pcb / 0x02 % 2 == 1 && (pcb / 0x04 % 2 == 1 <==> h.addNad)
      && (pcb / 0x08 % 2 == 1 <==> h.addCid) && (pcb / 0x10 % 2 == 1 <==> chaining)
  {
  }

  predicate Chained(pcb: byte) {
    pcb / 0x10 % 2 == 1
  }

  predicate IsWtx(pcb: byte) {
    pcb / 0x10 == 0xF
  }

  datatype Block = Block(number: nat, chaining: bool, inf: seq<byte>)

  /** What one byte holds of an offset. */
  function Narrow(off: nat): (i: nat)
    ensures i <= off && i < 256
  {
    if off < 256 then off else Narrow(off - 256)
  }

  lemma {:induction false} NarrowIs(off: nat)
    ensures Narrow(off) == off % 256
    decreases off
  {
    if off >= 256 {
      NarrowIs(off - 256);
    }
  }

  /** The I-blocks for an APDU from an offset on; the offset is held in one byte. */
  function Blocks(apdu: seq<byte>, off: nat, size: nat, number: nat): (bs: seq<Block>)
    requires off <= |apdu| && 1 <= size && number < 2
    decreases |apdu| - off
  {
    if off == |apdu| then []
    else
      var n, i := Min(|apdu| - off, size), Narrow(off);
      [Block(number, off + n < |apdu|, apdu[i..i + n])] + Blocks(apdu, off + n, size, 1 - number)
  }

  function Infs(bs: seq<Block>): seq<byte> {
    if bs == [] then [] else bs[0].inf + Infs(bs[1..])
  }

  /** Numbers alternate, every block but the last is chained, and none is longer than
      the block size. */
  predicate WellChained(bs: seq<Block>, size: nat, number: nat) {
    bs == [] ||
    (bs[0].number == number && bs[0].chaining == (|bs| > 1) && 1 <= |bs[0].inf| <= size
     && number < 2 && WellChained(bs[1..], size, 1 - number))
  }

  lemma {:induction false} BlocksChain(apdu: seq<byte>, off: nat, size: nat, number: nat)
    requires off <= |apdu| && 1 <= size && number < 2
    ensures WellChained(Blocks(apdu, off, size, number), size, number)
    decreases |apdu| - off
  {
    if off < |apdu| {
      BlocksChain(apdu, off + Min(|apdu| - off, size), size, 1 - number);
    }
  }

  lemma BlocksStep(apdu: seq<byte>, off: nat, size: nat, number: nat)
    requires off < |apdu| && 1 <= size && number < 2
    ensures var n, bs := Min(|apdu| - off, size), Blocks(apdu, off, size, number);
      && bs != [] && bs[0] == Block(number, off + n < |apdu|, apdu[Narrow(off)..Narrow(off) + n])
      && bs[1..] == Blocks(apdu, off + n, size, 1 - number)
  {
  }

  lemma InfsStep(apdu: seq<byte>, off: nat, size: nat, number: nat)
    requires off < |apdu| && 1 <= size && number < 2
    ensures var n, i := Min(|apdu| - off, size), Narrow(off);
      Infs(Blocks(apdu, off, size, number)) == apdu[i..i + n] + Infs(Blocks(apdu, off + n, size, 1 - number))
  {
    BlocksStep(apdu, off, size, number);
  }

  /** While every block starts below 256 the INF fields are the APDU. */
  lemma {:induction false} InfsAreApdu(apdu: seq<byte>, off: nat, size: nat, number: nat)
    requires off <= |apdu| && 1 <= size && number < 2
    requires off < |apdu| ==> LastStart(off, |apdu|, size) < 256
    ensures Infs(Blocks(apdu, off, size, number)) == apdu[off..]
    decreases |apdu| - off
  {
    if off < |apdu| {
      var n := Min(|apdu| - off, size);
      LastStartLater(off, |apdu|, size);
      InfsStep(apdu, off, size, number);
      InfsAreApdu(apdu, off + n, size, 1 - number);
      TailSplits(apdu, off, n);
    }
  }

  /** Where the last block starts. */
  function LastStart(off: nat, len: nat, size: nat): nat
    requires 1 <= size
    decreases len - off
  {
    if len <= off + size then off else LastStart(off + size, len, size)
  }

  lemma {:induction false} LastStartLater(off: nat, len: nat, size: nat)
    requires 1 <= size
    ensures off <= LastStart(off, len, size)
    decreases len - off
  {
    if off + size < len {
      LastStartLater(off + size, len, size);
    }
  }

  lemma {:induction false} LastStartBounds(off: nat, len: nat, size: nat)
    requires 1 <= size && off < len
    ensures LastStart(off, len, size) < len <= LastStart(off, len, size) + size
    decreases len - off
  {
    if off + size < len {
      LastStartBounds(off + size, len, size);
    }
  }

  /** From 256 on the wrapped offset sends other bytes again: an APDU that differs there is
      not what goes out. */
  lemma {:induction false} WrapLoses(apdu: seq<byte>, off: nat, size: nat, number: nat, at: nat)
    requires 1 <= size <= 250 && number < 2 && off <= at < |apdu| && 256 <= at
    requires at == LastStart(off, |apdu|, size) && apdu[at] == 1 && apdu[Narrow(at)] == 0
    ensures Infs(Blocks(apdu, off, size, number)) != apdu[off..]
    decreases |apdu| - off
  {
    if off == at {
      LastBlockLoses(apdu, off, size, number);
    } else {
      LastStartBounds(off, |apdu|, size);
      assert off + size < |apdu| && at == LastStart(off + size, |apdu|, size);
      LastStartLater(off + size, |apdu|, size);
      WrapLoses(apdu, off + size, size, 1 - number, at);
      EarlierBlockLoses(apdu, off, size, number);
    }
  }

  lemma LastBlockLoses(apdu: seq<byte>, off: nat, size: nat, number: nat)
    requires 1 <= size && number < 2 && off < |apdu| && apdu[off] != apdu[Narrow(off)]
    ensures Infs(Blocks(apdu, off, size, number)) != apdu[off..]
  {
    var n, i := Min(|apdu| - off, size), Narrow(off);
    InfsStep(apdu, off, size, number);
    OtherStart(apdu, off, i, n, Infs(Blocks(apdu, off + n, size, 1 - number)));
  }

  lemma EarlierBlockLoses(apdu: seq<byte>, off: nat, size: nat, number: nat)
    requires 1 <= size && number < 2 && off + size < |apdu|
    requires Infs(Blocks(apdu, off + size, size, 1 - number)) != apdu[off + size..]
    ensures Infs(Blocks(apdu, off, size, number)) != apdu[off..]
  {
    var i := Narrow(off);
    InfsStep(apdu, off, size, number);
    TailSplits(apdu, off, size);
    SamePart(apdu[i..i + size], Infs(Blocks(apdu, off + size, size, 1 - number)), apdu[off..], apdu[off + size..]);
  }

  lemma TailSplits(apdu: seq<byte>, off: nat, n: nat)
    requires off + n <= |apdu|
    ensures apdu[off..] == apdu[off..off + n] + apdu[off + n..] && apdu[off + n..] == apdu[off..][n..]
  {
  }

  lemma OtherStart(apdu: seq<byte>, off: nat, i: nat, n: nat, rest: seq<byte>)
    requires off < |apdu| && n > 0 && i + n <= |apdu| && apdu[i] != apdu[off]
    ensures apdu[i..i + n] + rest != apdu[off..]
  {
    assert (apdu[i..i + n] + rest)[0] == apdu[i];
    assert apdu[off..][0] == apdu[off];
  }

  lemma SamePart(a: seq<byte>, b: seq<byte>, whole: seq<byte>, tail: seq<byte>)
    requires |a| <= |whole| && tail == whole[|a|..] && b != tail
    ensures a + b != whole
  {
    assert (a + b)[|a|..] == b;
  }

  function OneAt(len: nat, at: nat): (s: seq<byte>)
    ensures |s| == len
    ensures forall k :: 0 <= k < len ==> s[k] == if k == at then 1 else 0
  {
    seq(len, k => if k == at then 1 else 0)
  }

  /** The INF fields are the APDU, for every APDU of a length, exactly when the last block
      starts below 256. */
  lemma SentIsApdu(len: nat, size: nat)
    requires 1 <= len && 1 <= size <= 250
    ensures (forall apdu: seq<byte> | |apdu| == len :: Infs(Blocks(apdu, 0, size, 0)) == apdu)
      <==> LastStart(0, len, size) < 256
    ensures len <= 256 ==> LastStart(0, len, size) < 256
  {
    LastStartBounds(0, len, size);
    if LastStart(0, len, size) < 256 {
      forall apdu: seq<byte> | |apdu| == len ensures Infs(Blocks(apdu, 0, size, 0)) == apdu {
        InfsAreApdu(apdu, 0, size, 0);
        assert apdu[0..] == apdu;
      }
    } else {
      var apdu := OneAt(len, LastStart(0, len, size));
      WrapLoses(apdu, 0, size, 0, LastStart(0, len, size));
      assert apdu[0..] == apdu;
      assert |apdu| == len && Infs(Blocks(apdu, 0, size, 0)) != apdu;
    }
  }

  // ------------------------------------------------------- one exchange

  const CID_ONLY := Header(false, true)

  /** The state between blocks: the block held, and the number of the next one. */
  datatype Link = Link(t: Tpdu, number: nat)

  ghost predicate Readable(replies: seq<seq<byte>>) {
    forall k :: 0 <= k < |replies| ==> 2 <= |replies[k]| <= 255
  }

  function BlockFrame(b: Block, cid: byte): seq<byte> {
    Framed(CID_ONLY, Tpdu(IBlockPcb(CID_ONLY, b.number % 2, b.chaining), 0, cid, b.inf))
  }

  /** The frames of the I-blocks: PCB, CID and INF. */
  function BlockFrames(bs: seq<Block>, cid: byte): seq<seq<byte>> {
    if bs == [] then []
    else [BlockFrame(bs[0], cid)] + BlockFrames(bs[1..], cid)
  }

  /** PCB of an R-block: 0xB2, the CID bit and its number. */
  function RBlockPcb(h: Header, number: nat): byte
    requires number < 2
  {
    0xB2 + (if h.addCid then 0x08 else 0) + number
  }

  function RBlock(l: Link): Tpdu {
    l.t.(pcb := RBlockPcb(CID_ONLY, l.number % 2), inf := [])
  }

  /** The rest of an answer: as long as the block held is chained, an R-block asks for
      the next one. Frames sent, and data received. */
  function Rest(l: Link, replies: seq<seq<byte>>): (seq<seq<byte>>, seq<byte>)
    requires l.number < 2 && forall k :: 0 <= k < |replies| ==> 2 <= |replies[k]| <= 255
    decreases |replies|
  {
    if !Chained(l.t.pcb) || replies == [] then ([], [])
    else
      var t := Parsed(CID_ONLY, replies[0], RBlock(l));
      var more := Rest(Link(t, 1 - l.number), replies[1..]);
      ([Framed(CID_ONLY, RBlock(l))] + more.0, t.inf + more.1)
  }

  /** The replies suffice: the last of them that is read is not chained. */
  predicate Complete(t: Tpdu, replies: seq<seq<byte>>)
    requires forall k :: 0 <= k < |replies| ==> 2 <= |replies[k]| <= 255
    decreases |replies|
  {
    !Chained(t.pcb) || (replies != [] && Complete(Parsed(CID_ONLY, replies[0], t), replies[1..]))
  }

  /** Where the reader is: the frames sent, the block held, and the replies read. */
  datatype Phase = Phase(sent: seq<seq<byte>>, link: Link, n: nat)

  /** The I-blocks sent one by one, each answered by the next reply. */
  function Sending(p: Phase, bs: seq<Block>, replies: seq<seq<byte>>, cid: byte): Phase
    requires p.n + |bs| <= |replies| && p.link.number < 2
    requires forall k :: 0 <= k < |replies| ==> 2 <= |replies[k]| <= 255
    decreases |bs|
  {
    if bs == [] then p
    else
      var l := Link(Parsed(CID_ONLY, replies[p.n], p.link.t), 1 - p.link.number);
      Sending(Phase(p.sent + [BlockFrame(bs[0], cid)], l, p.n + 1), bs[1..], replies, cid)
  }

  /** A request for more time is granted by sending it back, two bits cleared. */
  function WtxReply(t: Tpdu): Tpdu
    requires t.inf != []
  {
    Granting(t, t.inf[0])
  }

  function Granting(t: Tpdu, first: byte): Tpdu {
    t.(inf := [first % 0x40])
  }

  // ------------------------------------------------------- implementation

  class Session {
    var block_size: nat
    var iblock_pcb_number: nat
    var cid: byte
    var nad: byte
    var h: Header
    var tpdu: Tpdu
    const tx_buffer: array<byte>
    var tx_buffer_len: nat
    const rapdu_buffer: array<byte>
    var rapdu_len: nat
    ghost var sent: seq<seq<byte>>

    ghost predicate Valid()
      reads this
    {
      && tx_buffer.Length == rapdu_buffer.Length == BUFFER_SIZE && tx_buffer != rapdu_buffer
      && iblock_pcb_number < 2 && 1 <= block_size <= 250 && rapdu_len <= BUFFER_SIZE
    }

    constructor ()
      ensures Valid() && fresh(tx_buffer) && fresh(rapdu_buffer) && sent == []
    {
      tx_buffer, rapdu_buffer := new byte[BUFFER_SIZE], new byte[BUFFER_SIZE];
      block_size, iblock_pcb_number, cid, nad := 16, 0, 0, 0;
      h, tpdu := Header(false, false), Tpdu(0, 0, 0, []);
      tx_buffer_len, rapdu_len, sent := 0, 0, [];
    }

    method GetAndUpdateNumber() returns (number: nat)
      requires Valid()
      modifies this`iblock_pcb_number
      ensures Valid() && number == old(iblock_pcb_number) && iblock_pcb_number == 1 - number
    {
      number := iblock_pcb_number;
      iblock_pcb_number := 1 - iblock_pcb_number;
    }

    method GetIblock(inf: seq<byte>, chaining: bool)
      requires Valid()
      modifies this`iblock_pcb_number, this`tpdu
      ensures Valid() && iblock_pcb_number == 1 - old(iblock_pcb_number)
      ensures tpdu == Tpdu(IBlockPcb(h, old(iblock_pcb_number), chaining),
        if h.addNad then nad else old(tpdu.nad), if h.addCid then cid else old(tpdu.cid), inf)
      ensures var pcb: nat := tpdu.pcb;
        && pcb < 0x20 && pcb % 2 == old(iblock_pcb_number) && pcb / 0x02 % 2 == 1 && (pcb / 0x04 % 2 == 1 <==> h.addNad)
        && (pcb / 0x08 % 2 == 1 <==> h.addCid) && (pcb / 0x10 % 2 == 1 <==> chaining)
    {
      IBlockBits(h, iblock_pcb_number, chaining);
      var number := GetAndUpdateNumber();
      tpdu := tpdu.(pcb := number + 0x02);
      if h.addCid {
        tpdu := tpdu.(cid := cid, pcb := tpdu.pcb + 0x08);
      }
      if chaining {
        tpdu := tpdu.(pcb := tpdu.pcb + 0x10);
      }
      if h.addNad {
        tpdu := tpdu.(nad := nad, pcb := tpdu.pcb + 0x04);
      }
      tpdu := tpdu.(inf := inf);
    }

    /** The frame is built in the transmit buffer; whatever the transceive, also a failed
        one, leaves in the receive buffer is then parsed. */
    method SendTpdu(rx: seq<byte>, len: nat)
      requires Valid() && HeaderSize(h) + |tpdu.inf| <= BUFFER_SIZE && |rx| == BUFFER_SIZE
      modifies this`tx_buffer_len, this`tpdu, this`sent, tx_buffer
      ensures Valid() && sent == old(sent) + [Framed(h, old(tpdu))]
      ensures tpdu == Received(h, rx, len, old(tpdu))
    {
      FillTx();
      sent := sent + [tx_buffer[..tx_buffer_len]];
      ParseRTpdu(rx, len);
    }

    /** A card that answers: what lies behind its frame in the buffer does not matter. */
    method Transceive(reply: seq<byte>)
      requires Valid() && HeaderSize(h) + |tpdu.inf| <= BUFFER_SIZE && HeaderSize(h) <= |reply| <= BUFFER_SIZE
      modifies this`tx_buffer_len, this`tpdu, this`sent, tx_buffer
      ensures Valid() && sent == old(sent) + [Framed(h, old(tpdu))]
      ensures tpdu == Parsed(h, reply, old(tpdu))
    {
      var rx := reply + seq(BUFFER_SIZE - |reply|, _ => 0);
      assert rx[..|reply|] == reply;
      ReceivedIsParsed(h, rx, |reply|, tpdu);
      SendTpdu(rx, |reply|);
    }

    method FillTx()
      requires Valid() && HeaderSize(h) + |tpdu.inf| <= BUFFER_SIZE
      modifies this`tx_buffer_len, tx_buffer
      ensures Valid() && tx_buffer_len <= BUFFER_SIZE && tx_buffer[..tx_buffer_len] == Framed(h, tpdu)
    {
      tx_buffer[0] := tpdu.pcb;
      tx_buffer_len := 1;
      if h.addNad {
        tx_buffer[tx_buffer_len] := tpdu.nad;
        tx_buffer_len := tx_buffer_len + 1;
      }
      if h.addCid {
        tx_buffer[tx_buffer_len] := tpdu.cid;
        tx_buffer_len := tx_buffer_len + 1;
      }
      ghost var head := tx_buffer[..tx_buffer_len];
      assert head == [tpdu.pcb] + (if h.addNad then [tpdu.nad] else []) + (if h.addCid then [tpdu.cid] else []);
      var n := tx_buffer_len;
      Copy(tx_buffer, n, tpdu.inf);
      tx_buffer_len := n + |tpdu.inf|;
      assert tx_buffer[..tx_buffer_len] == tx_buffer[..n] + tx_buffer[n..n + |tpdu.inf|];
    }

    method ParseRTpdu(data: seq<byte>, len: nat)
      requires |data| == BUFFER_SIZE
      modifies this`tpdu
      ensures tpdu == Received(h, data, len, old(tpdu))
    {
      var index := 1;
      tpdu := tpdu.(pcb := data[0]);
      if h.addNad {
        tpdu := tpdu.(nad := data[index]);
        index := index + 1;
      }
      if h.addCid {
        tpdu := tpdu.(cid := data[index]);
        index := index + 1;
      }
      tpdu := tpdu.(inf := data[index..index + (len - index) % 256]);
    }

    method Init(fsd: nat)
      requires Valid() && 1 <= fsd <= 250
      modifies this`block_size, this`h, this`iblock_pcb_number
      ensures Valid() && block_size == fsd && h == CID_ONLY && iblock_pcb_number == 0
    {
      block_size, h, iblock_pcb_number := fsd, CID_ONLY, 0;
    }

    /** One I-block out, one block in. */
    method SendIblock(inf: seq<byte>, chaining: bool, reply: seq<byte>)
      requires Valid() && h == CID_ONLY && |inf| <= 250 && 2 <= |reply| <= 255
      modifies this`iblock_pcb_number, this`tpdu, this`tx_buffer_len, this`sent, tx_buffer
      ensures Valid() && iblock_pcb_number == 1 - old(iblock_pcb_number)
      ensures sent == old(sent) + [BlockFrame(Block(old(iblock_pcb_number), chaining, inf), cid)]
      ensures tpdu == Parsed(CID_ONLY, reply, old(tpdu))
    {
      GetIblock(inf, chaining);
      Transceive(reply);
    }

    method SendNext(inf: seq<byte>, chaining: bool, n: nat, ghost bs: seq<Block>, replies: seq<seq<byte>>)
      requires Valid() && h == CID_ONLY && |inf| <= 250 && Readable(replies) && n + |bs| <= |replies|
      requires bs != [] && bs[0] == Block(iblock_pcb_number, chaining, inf)
      modifies this`iblock_pcb_number, this`tpdu, this`tx_buffer_len, this`sent, tx_buffer
      ensures Valid() && iblock_pcb_number == 1 - old(iblock_pcb_number)
      ensures Sending(Phase(sent, Link(tpdu, iblock_pcb_number), n + 1), bs[1..], replies, cid)
        == Sending(Phase(old(sent), Link(old(tpdu), old(iblock_pcb_number)), n), bs, replies, cid)
    {
      SendIblock(inf, chaining, replies[n]);
    }

    /** The narrow counters of the send loop after a block. */
    method Advance(i0: nat, r_len0: nat, len0: nat, ghost off: nat) returns (i: nat, r_len: nat, len: nat, count: nat)
      requires Valid() && i0 == Narrow(off) && 0 < r_len0 == len0 < 0x8000_0000
      ensures count == Min(r_len0, block_size) && r_len == r_len0 - count
      ensures i == Narrow(off + count) && (r_len > 0 ==> len == r_len)
    {
      count := if len0 < block_size then len0 else block_size;
      r_len := r_len0 - count;
      len := (len0 - block_size) % 0x1_0000_0000;
      i := (i0 + count) % 256;
      NarrowIs(off);
      NarrowIs(off + count);
    }

    /** One turn of the send loop; bs are the blocks from the offset on. */
    method SendTurn(apdu: seq<byte>, i0: nat, r_len0: nat, len0: nat, n: nat, replies: seq<seq<byte>>,
                    ghost off: nat, ghost bs: seq<Block>)
        returns (i: nat, r_len: nat, len: nat, ghost off1: nat)
      requires Valid() && h == CID_ONLY && Readable(replies) && n + |bs| <= |replies|
      requires i0 == Narrow(off) && off < |apdu| && r_len0 == len0 == |apdu| - off < 0x8000_0000
      requires bs == Blocks(apdu, off, block_size, iblock_pcb_number)
      modifies this`iblock_pcb_number, this`tpdu, this`tx_buffer_len, this`sent, tx_buffer
      ensures Valid() && i == Narrow(off1) && off < off1 <= |apdu|
      ensures r_len == |apdu| - off1 && (r_len > 0 ==> len == r_len)
      ensures bs != [] && bs[1..] == Blocks(apdu, off1, block_size, iblock_pcb_number)
      ensures Sending(Phase(sent, Link(tpdu, iblock_pcb_number), n + 1), bs[1..], replies, cid)
        == Sending(Phase(old(sent), Link(old(tpdu), old(iblock_pcb_number)), n), bs, replies, cid)
    {
      BlocksStep(apdu, off, block_size, iblock_pcb_number);
      var count;
      i, r_len, len, count := Advance(i0, r_len0, len0, off);
      off1 := off + count;
      SendNext(apdu[i0..i0 + count], r_len > 0, n, bs, replies);
    }

    /** The send loop: r_len counts what is left, len wraps below zero after the last
        block, and the offset i is one byte wide. */
    method SendBlocks(apdu: seq<byte>, replies: seq<seq<byte>>) returns (n: nat)
      requires Valid() && h == CID_ONLY && iblock_pcb_number == 0 && |apdu| < 0x8000_0000
      requires Readable(replies) && |Blocks(apdu, 0, block_size, 0)| <= |replies|
      modifies this`iblock_pcb_number, this`tpdu, this`tx_buffer_len, this`sent, tx_buffer
      ensures Valid()
      ensures Phase(sent, Link(tpdu, iblock_pcb_number), n)
        == Sending(Phase(old(sent), Link(old(tpdu), 0), 0), Blocks(apdu, 0, block_size, 0), replies, cid)
    {
      var i, r_len, len := 0, |apdu|, |apdu|;
      n := 0;
      ghost var off, bs := 0, Blocks(apdu, 0, block_size, 0);
      ghost var goal := Sending(Phase(sent, Link(tpdu, 0), 0), bs, replies, cid);
      while r_len > 0
        invariant Valid() && 0 <= r_len == |apdu| - off && i == Narrow(off) && (r_len > 0 ==> len == r_len)
        invariant bs == Blocks(apdu, off, block_size, iblock_pcb_number) && n + |bs| <= |replies|
        invariant Sending(Phase(sent, Link(tpdu, iblock_pcb_number), n), bs, replies, cid) == goal
        decreases r_len
      {
        i, r_len, len, off := SendTurn(apdu, i, r_len, len, n, replies, off, bs);
        n, bs := n + 1, bs[1..];
      }
    }

    method GetRblock()
      requires Valid()
      modifies this`iblock_pcb_number, this`tpdu
      ensures Valid() && iblock_pcb_number == 1 - old(iblock_pcb_number)
      ensures tpdu == old(tpdu).(pcb := RBlockPcb(h, old(iblock_pcb_number)), inf := [])
    {
      tpdu := tpdu.(pcb := 0xB2);
      if h.addCid {
        tpdu := tpdu.(pcb := tpdu.pcb + 0x08);
      }
      var number := GetAndUpdateNumber();
      tpdu := tpdu.(pcb := tpdu.pcb + number, inf := []);
    }

    /** Append the block held to the answer. */
    method Append()
      requires Valid() && rapdu_len + |tpdu.inf| <= BUFFER_SIZE
      modifies this`rapdu_len, rapdu_buffer
      ensures Valid() && rapdu_len == old(rapdu_len) + |tpdu.inf|
      ensures rapdu_buffer[..rapdu_len] == old(rapdu_buffer[..rapdu_len]) + tpdu.inf
    {
      var n := rapdu_len;
      Copy(rapdu_buffer, n, tpdu.inf);
      rapdu_len := n + |tpdu.inf|;
      assert rapdu_buffer[..rapdu_len] == rapdu_buffer[..n] + rapdu_buffer[n..n + |tpdu.inf|];
    }

    /** One R-block out, one block in and appended. */
    method NextPart(reply: seq<byte>)
      requires Valid() && h == CID_ONLY && 2 <= |reply| <= 255 && rapdu_len + |reply| - 2 <= BUFFER_SIZE
      modifies this`iblock_pcb_number, this`tpdu, this`tx_buffer_len, this`sent, this`rapdu_len, tx_buffer, rapdu_buffer
      ensures Valid() && iblock_pcb_number == 1 - old(iblock_pcb_number)
      ensures var r := RBlock(Link(old(tpdu), old(iblock_pcb_number)));
        tpdu == Parsed(CID_ONLY, reply, r) && sent == old(sent) + [Framed(CID_ONLY, r)]
      ensures rapdu_len == old(rapdu_len) + |tpdu.inf|
      ensures rapdu_buffer[..rapdu_len] == old(rapdu_buffer[..rapdu_len]) + tpdu.inf
    {
      GetRblock();
      Transceive(reply);
      Append();
    }

    /** One turn of the reassembly loop. */
    method CollectPart(reply: seq<byte>, ghost replies: seq<seq<byte>>)
      requires Valid() && h == CID_ONLY && Readable(replies) && replies != [] && reply == replies[0]
      requires Chained(tpdu.pcb) && Complete(tpdu, replies)
      requires rapdu_len + |Rest(Link(tpdu, iblock_pcb_number), replies).1| <= BUFFER_SIZE
      modifies this`iblock_pcb_number, this`tpdu, this`tx_buffer_len, this`sent, this`rapdu_len, tx_buffer, rapdu_buffer
      ensures Valid() && Complete(tpdu, replies[1..])
      ensures rapdu_len + |Rest(Link(tpdu, iblock_pcb_number), replies[1..]).1| <= BUFFER_SIZE
      ensures Onto(sent, rapdu_buffer[..rapdu_len], Rest(Link(tpdu, iblock_pcb_number), replies[1..]))
        == old(Onto(sent, rapdu_buffer[..rapdu_len], Rest(Link(tpdu, iblock_pcb_number), replies)))
    {
      RestStep(Link(tpdu, iblock_pcb_number), replies, sent, rapdu_buffer[..rapdu_len]);
      NextPart(reply);
    }

    /** The reassembly loop. */
    method Collect(replies: seq<seq<byte>>)
      requires Valid() && h == CID_ONLY && Readable(replies) && Complete(tpdu, replies)
      requires rapdu_len + |Rest(Link(tpdu, iblock_pcb_number), replies).1| <= BUFFER_SIZE
      modifies this`iblock_pcb_number, this`tpdu, this`tx_buffer_len, this`sent, this`rapdu_len, tx_buffer, rapdu_buffer
      ensures Valid()
      ensures var r := Rest(Link(old(tpdu), old(iblock_pcb_number)), replies);
        (sent, rapdu_buffer[..rapdu_len]) == Onto(old(sent), old(rapdu_buffer[..rapdu_len]), r)
    {
      ghost var goal := Onto(sent, rapdu_buffer[..rapdu_len], Rest(Link(tpdu, iblock_pcb_number), replies));
      var n := 0;
      while Chained(tpdu.pcb)
        invariant Valid() && 0 <= n <= |replies| && Complete(tpdu, replies[n..])
        invariant rapdu_len + |Rest(Link(tpdu, iblock_pcb_number), replies[n..]).1| <= BUFFER_SIZE
        invariant Onto(sent, rapdu_buffer[..rapdu_len], Rest(Link(tpdu, iblock_pcb_number), replies[n..])) == goal
        decreases |replies| - n
      {
        CompleteGoesOn(tpdu, replies, n);
        CollectPart(replies[n], replies[n..]);
        n := n + 1;
      }
      OntoNothing(sent, rapdu_buffer[..rapdu_len]);
    }

    /** A request for more time that came with the last block is granted first. */
    method GrantTime(behind: byte, reply: seq<byte>)
      requires Valid() && IsWtx(tpdu.pcb) && HeaderSize(h) <= |reply| <= BUFFER_SIZE
      modifies this`tpdu, this`tx_buffer_len, this`sent, tx_buffer
      ensures var granting := Granting(old(tpdu), if old(tpdu).inf == [] then behind else old(tpdu).inf[0]);
        Valid() && sent == old(sent) + [Framed(h, granting)] && tpdu == Parsed(h, reply, granting)
    {
      GetWtxReply(behind);
      Transceive(reply);
    }

    /** One byte of INF goes back, without its two upper bits; where the request had none it
        is the byte that lies behind its header in the receive buffer. */
    method GetWtxReply(behind: byte)
      modifies this`tpdu
      ensures tpdu == Granting(old(tpdu), if old(tpdu).inf == [] then behind else old(tpdu).inf[0])
    {
      var first := if tpdu.inf == [] then behind else tpdu.inf[0];
      tpdu := tpdu.(inf := [first % 0x40]);
    }

    /** What follows the I-blocks. */
    method ReceiveAnswer(replies: seq<seq<byte>>)
      requires Valid() && h == CID_ONLY && Readable(replies) && Answered(Link(tpdu, iblock_pcb_number), replies)
      modifies this`iblock_pcb_number, this`tpdu, this`tx_buffer_len, this`sent, this`rapdu_len, tx_buffer, rapdu_buffer
      ensures Valid()
      ensures (sent, rapdu_buffer[..rapdu_len])
        == Onto(old(sent), [], Answer(Link(old(tpdu), old(iblock_pcb_number)), replies))
    {
      AnswerSteps(Link(tpdu, iblock_pcb_number), replies, sent);
      var n := 0;
      if IsWtx(tpdu.pcb) {
        GrantTime(tpdu.inf[0], replies[0]);
        n := 1;
      } else {
        assert sent + [] == sent;
      }
      rapdu_len := 0;
      Append();
      assert rapdu_buffer[..rapdu_len] == tpdu.inf;
      Collect(replies[n..]);
    }

    method SendApdu(apdu: seq<byte>, fsd: nat, replies: seq<seq<byte>>)
      requires Valid() && 1 <= fsd <= 250 && |apdu| < 0x8000_0000 && Readable(replies)
      requires Serves(Phase(sent, Link(tpdu, 0), 0), cid, Blocks(apdu, 0, fsd, 0), replies)
      modifies this, tx_buffer, rapdu_buffer
      ensures Valid()
      ensures (sent, rapdu_buffer[..rapdu_len])
        == Transcript(Phase(old(sent), Link(old(tpdu), 0), 0), old(cid), Blocks(apdu, 0, fsd, 0), replies)
    {
      Init(fsd);
      var n := SendBlocks(apdu, replies);
      ReceiveAnswer(replies[n..]);
    }
  }

  // ------------------------------------------------------- the whole call

  /** How the answer begins: with the block held, or with the one that follows once a
      request for more time is granted. Frames sent, link, and replies read. */
  function Begins(l: Link, replies: seq<seq<byte>>): (seq<seq<byte>>, Link, nat)
    requires forall k :: 0 <= k < |replies| ==> 2 <= |replies[k]| <= 255
  {
    if IsWtx(l.t.pcb) && l.t.inf != [] && replies != [] then
      ([Framed(CID_ONLY, WtxReply(l.t))], l.(t := Parsed(CID_ONLY, replies[0], WtxReply(l.t))), 1)
    else ([], l, 0)
  }

  /** The frames and the data of an answer. */
  function Answer(l: Link, replies: seq<seq<byte>>): (seq<seq<byte>>, seq<byte>)
    requires l.number < 2 && forall k :: 0 <= k < |replies| ==> 2 <= |replies[k]| <= 255
  {
    var (frames, l1, n) := Begins(l, replies);
    var r := Rest(l1, replies[n..]);
    (frames + r.0, l1.t.inf + r.1)
  }

  /** The replies that the answer needs are there, and its data fits the buffer. */
  ghost predicate Answered(l: Link, replies: seq<seq<byte>>)
    requires l.number < 2 && Readable(replies)
  {
    var (_, l1, n) := Begins(l, replies);
    && (IsWtx(l.t.pcb) ==> l.t.inf != [] && replies != [])
    && Complete(l1.t, replies[n..]) && |Answer(l, replies).1| <= BUFFER_SIZE
  }

  lemma AnswerSteps(l: Link, replies: seq<seq<byte>>, sent: seq<seq<byte>>)
    requires l.number < 2 && Readable(replies) && Answered(l, replies)
    ensures var (frames, l1, n) := Begins(l, replies);
      var r := Rest(l1, replies[n..]);
      |l1.t.inf| + |r.1| <= BUFFER_SIZE && Onto(sent, [], Answer(l, replies)) == Onto(sent + frames, l1.t.inf, r)
  {
    var (frames, l1, n) := Begins(l, replies);
    OntoOnto(sent, frames, l1.t.inf, Rest(l1, replies[n..]));
  }

  lemma OntoOnto(sent: seq<seq<byte>>, frames: seq<seq<byte>>, data: seq<byte>, r: (seq<seq<byte>>, seq<byte>))
    ensures Onto(sent, [], (frames + r.0, data + r.1)) == Onto(sent + frames, data, r)
  {
    assert sent + (frames + r.0) == (sent + frames) + r.0;
    assert [] + (data + r.1) == data + r.1;
  }

  /** The replies serve a whole call of send_apdu. */
  ghost predicate Serves(p: Phase, cid: byte, bs: seq<Block>, replies: seq<seq<byte>>)
    requires p.link.number < 2 && Readable(replies)
  {
    p.n + |bs| <= |replies| && var q := Sending(p, bs, replies, cid);
      q.n <= |replies| && q.link.number < 2 && Answered(q.link, replies[q.n..])
  }

  /** The frames sent and the data received by a whole call. */
  ghost function Transcript(p: Phase, cid: byte, bs: seq<Block>, replies: seq<seq<byte>>): (seq<seq<byte>>, seq<byte>)
    requires p.link.number < 2 && Readable(replies) && Serves(p, cid, bs, replies)
  {
    var q := Sending(p, bs, replies, cid);
    Onto(q.sent, [], Answer(q.link, replies[q.n..]))
  }

  /** The block held is the one received. */
  predicate HeldFrom(t: Tpdu, reply: seq<byte>)
    requires |reply| >= 2
  {
    t.pcb == reply[0] && t.cid == reply[1] && t.inf == reply[2..]
  }

  /** The I-block frames go out in order, one reply read for each, the last one held. */
  lemma {:induction false} SendingIs(p: Phase, bs: seq<Block>, replies: seq<seq<byte>>, cid: byte)
    requires Readable(replies) && p.n + |bs| <= |replies| && p.link.number < 2
    ensures var q := Sending(p, bs, replies, cid);
      && q.sent == p.sent + BlockFrames(bs, cid) && q.n == p.n + |bs| && q.link.number < 2
      && q.link.number == (p.link.number + |bs|) % 2
      && (bs != [] ==> HeldFrom(q.link.t, replies[q.n - 1]))
    decreases |bs|
  {
    if bs == [] {
      assert p.sent + [] == p.sent;
    } else {
      var l := Link(Parsed(CID_ONLY, replies[p.n], p.link.t), 1 - p.link.number);
      var f := BlockFrame(bs[0], cid);
      ParsedInf(replies[p.n], p.link.t);
      SendingIs(Phase(p.sent + [f], l, p.n + 1), bs[1..], replies, cid);
      if bs[1..] == [] {
        assert Sending(p, bs, replies, cid).link == l;
      }
      assert p.sent + ([f] + BlockFrames(bs[1..], cid)) == (p.sent + [f]) + BlockFrames(bs[1..], cid);
    }
  }

  // ---------------------------------------------------------- reassembly

  /** A block and the ones after it carry the chaining bit on all but the last. */
  predicate ChainOf(pcb: byte, replies: seq<seq<byte>>)
    requires forall k :: 0 <= k < |replies| ==> 2 <= |replies[k]| <= 255
    decreases |replies|
  {
    if replies == [] then !Chained(pcb) else Chained(pcb) && ChainOf(replies[0][0], replies[1..])
  }

  /** INF fields behind PCB and CID. */
  function ReplyInfs(replies: seq<seq<byte>>): seq<byte>
    requires forall k :: 0 <= k < |replies| ==> 2 <= |replies[k]| <= 255
  {
    if replies == [] then [] else replies[0][2..] + ReplyInfs(replies[1..])
  }

  lemma ParsedInf(data: seq<byte>, t: Tpdu)
    requires 2 <= |data| <= 255
    ensures Parsed(CID_ONLY, data, t) == Tpdu(data[0], t.nad, data[1], data[2..])
  {
  }

  /** When every block but the last is chained, the rest of the answer is the INF fields
      of all of them, and each was asked for with one R-block. */
  lemma {:induction false} RestIsAll(l: Link, replies: seq<seq<byte>>)
    requires l.number < 2 && Readable(replies) && ChainOf(l.t.pcb, replies)
    ensures Complete(l.t, replies)
    ensures Rest(l, replies).1 == ReplyInfs(replies) && |Rest(l, replies).0| == |replies|
    decreases |replies|
  {
    if replies != [] {
      var t := Parsed(CID_ONLY, replies[0], RBlock(l));
      ParsedInf(replies[0], RBlock(l));
      RestIsAll(Link(t, 1 - l.number), replies[1..]);
    }
  }

  /** The R-blocks continue the numbering of the I-blocks and carry the CID of the block
      that they answer. */
  lemma {:induction false} RBlockFrames(l: Link, replies: seq<seq<byte>>, k: nat)
    requires l.number < 2 && Readable(replies) && k < |Rest(l, replies).0| && k <= |replies|
    ensures Rest(l, replies).0[k] == [0xBA + (l.number + k) % 2, if k == 0 then l.t.cid else replies[k - 1][1]]
    decreases k
  {
    if k > 0 {
      var t := Parsed(CID_ONLY, replies[0], RBlock(l));
      ParsedInf(replies[0], RBlock(l));
      RBlockFrames(Link(t, 1 - l.number), replies[1..], k - 1);
    }
  }

  /** An answer is the INF fields of its blocks, the block held being the first; one
      R-block asks for each of the others. */
  lemma AnswerIsAll(l: Link, parts: seq<seq<byte>>)
    requires l.number < 2 && Readable(parts) && parts != [] && ChainOf(parts[0][0], parts[1..])
    requires !IsWtx(l.t.pcb) && HeldFrom(l.t, parts[0])
    ensures Answer(l, parts[1..]).1 == ReplyInfs(parts) && |Answer(l, parts[1..]).0| == |parts| - 1
    ensures |ReplyInfs(parts)| <= BUFFER_SIZE ==> Answered(l, parts[1..])
  {
    assert parts[1..][0..] == parts[1..];
    RestIsAll(l, parts[1..]);
  }

  /** The same after a leading request for more time, which is granted first. */
  lemma AnswerAfterWtx(l: Link, parts: seq<seq<byte>>)
    requires l.number < 2 && Readable(parts) && parts != [] && ChainOf(parts[0][0], parts[1..])
    requires IsWtx(l.t.pcb) && l.t.inf != []
    ensures Answer(l, parts).1 == ReplyInfs(parts) && |Answer(l, parts).0| == |parts|
    ensures Answer(l, parts).0[0] == [l.t.pcb, l.t.cid, l.t.inf[0] % 0x40]
    ensures |ReplyInfs(parts)| <= BUFFER_SIZE ==> Answered(l, parts)
  {
    var (frames, l1, n) := Begins(l, parts);
    ParsedInf(parts[0], WtxReply(l.t));
    assert n == 1 && l1.t.inf == parts[0][2..];
    RestIsAll(l1, parts[1..]);
  }

  /** A card asks for more time in its reply to the last I-block. */
  predicate AsksTime(reply: seq<byte>)
    requires |reply| >= 2
  {
    IsWtx(reply[0])
  }

  /** The frame that grants it. */
  function Grant(reply: seq<byte>): seq<seq<byte>>
    requires |reply| >= 2
  {
    if AsksTime(reply) && |reply| > 2 then [[reply[0], reply[1], reply[2] % 0x40]] else []
  }

  /** The blocks of an answer: from the reply to the last I-block on, or behind it when
      that asks for more time. */
  function Parts(last: seq<byte>, more: seq<seq<byte>>): seq<seq<byte>>
    requires |last| >= 2
  {
    if AsksTime(last) then more else [last] + more
  }

  /** They are chained on all but the last, and their data fits the answer buffer. */
  predicate ChainedParts(parts: seq<seq<byte>>) {
    && parts != [] && (forall k :: 0 <= k < |parts| ==> 2 <= |parts[k]| <= 255)
    && ChainOf(parts[0][0], parts[1..]) && |ReplyInfs(parts)| <= BUFFER_SIZE
  }

  lemma AnswerFrom(l: Link, last: seq<byte>, more: seq<seq<byte>>)
    requires l.number < 2 && 2 <= |last| <= 255 && Readable(more) && HeldFrom(l.t, last)
    requires ChainedParts(Parts(last, more)) && (AsksTime(last) ==> |last| > 2)
    ensures Answered(l, more) && Grant(last) <= Answer(l, more).0
    ensures Answer(l, more).1 == ReplyInfs(Parts(last, more))
    ensures |Answer(l, more).0| == |Grant(last)| + |Parts(last, more)| - 1
  {
    if AsksTime(last) {
      AnswerAfterWtx(l, more);
    } else {
      assert ([last] + more)[1..] == more;
      AnswerIsAll(l, [last] + more);
    }
  }

  // ----------------------------------------------------- bytes on the wire

  /** Where the k-th block starts. */
  function StartOf(off: nat, size: nat, k: nat): nat
    decreases k
  {
    if k == 0 then off else StartOf(off + size, size, k - 1)
  }

  lemma {:induction false} StartIs(off: nat, size: nat, k: nat)
    ensures StartOf(off, size, k) == off + k * size
    decreases k
  {
    if k > 0 {
      StartIs(off + size, size, k - 1);
      assert (k - 1) * size + size == k * size;
    }
  }

  /** Block k of some blocks of a short APDU is the slice at its start, and the last one is
      where the APDU ends. */
  predicate BlockAt(bs: seq<Block>, apdu: seq<byte>, size: nat, number: nat, k: nat, start: nat)
    requires number < 2
  {
    && k < |bs| && start < |apdu| && (k < |bs| - 1 <==> start + size < |apdu|)
    && bs[k] == Block((number + k) % 2, k < |bs| - 1, apdu[start..start + Min(|apdu| - start, size)])
  }

  lemma {:induction false} BlocksAt(apdu: seq<byte>, off: nat, size: nat, number: nat, k: nat)
    requires off <= |apdu| <= 256 && 1 <= size && number < 2 && k < |Blocks(apdu, off, size, number)|
    ensures BlockAt(Blocks(apdu, off, size, number), apdu, size, number, k, StartOf(off, size, k))
    decreases k
  {
    if k == 0 {
      FirstBlockAt(apdu, off, size, number);
    } else {
      MoreBlocks(apdu, off, size, number);
      BlocksAt(apdu, off + size, size, 1 - number, k - 1);
      var bs, more := Blocks(apdu, off, size, number), Blocks(apdu, off + size, size, 1 - number);
      LaterBlockAt(bs, more, apdu, size, number, k, StartOf(off + size, size, k - 1));
    }
  }

  lemma FirstBlockAt(apdu: seq<byte>, off: nat, size: nat, number: nat)
    requires off < |apdu| <= 256 && 1 <= size && number < 2
    ensures BlockAt(Blocks(apdu, off, size, number), apdu, size, number, 0, off)
  {
    BlocksStep(apdu, off, size, number);
    NoMoreBlocks(apdu, off + Min(|apdu| - off, size), size, 1 - number);
  }

  lemma LaterBlockAt(bs: seq<Block>, more: seq<Block>, apdu: seq<byte>, size: nat, number: nat, k: nat, start: nat)
    requires number < 2 && k > 0 && bs != [] && more == bs[1..]
    requires BlockAt(more, apdu, size, 1 - number, k - 1, start)
    ensures BlockAt(bs, apdu, size, number, k, start)
  {
    assert bs[k] == more[k - 1];
  }

  lemma NoMoreBlocks(apdu: seq<byte>, off: nat, size: nat, number: nat)
    requires off <= |apdu| && 1 <= size && number < 2
    ensures Blocks(apdu, off, size, number) == [] <==> off == |apdu|
  {
  }

  /** Where there is a second block the first is full. */
  lemma MoreBlocks(apdu: seq<byte>, off: nat, size: nat, number: nat)
    requires off <= |apdu| && 1 <= size && number < 2 && |Blocks(apdu, off, size, number)| > 1
    ensures off + size < |apdu|
    ensures Blocks(apdu, off, size, number)[1..] == Blocks(apdu, off + size, size, 1 - number)
  {
    BlocksStep(apdu, off, size, number);
    NoMoreBlocks(apdu, off + Min(|apdu| - off, size), size, 1 - number);
  }

  lemma {:induction false} BlockFramesAt(bs: seq<Block>, cid: byte, k: nat)
    requires k < |bs|
    ensures |BlockFrames(bs, cid)| == |bs| && BlockFrames(bs, cid)[k] == BlockFrame(bs[k], cid)
    decreases |bs|
  {
    FrameCount(bs, cid);
    if k > 0 {
      BlockFramesAt(bs[1..], cid, k - 1);
    }
  }

  /** The bytes of the k-th frame of an APDU: 0x0A or 0x0B by turns, with 0x10 on all but
      the last, then the CID and the k-th slice of the APDU. */
  ghost predicate FrameOf(frame: seq<byte>, apdu: seq<byte>, size: nat, cid: byte, k: nat, count: nat) {
    k * size < |apdu| && (k < count - 1 <==> k * size + size < |apdu|) &&
    frame == [0x0A + k % 2 + (if k < count - 1 then 0x10 else 0), cid]
      + apdu[k * size..k * size + Min(|apdu| - k * size, size)]
  }

  lemma BlockFrameBytes(bs: seq<Block>, apdu: seq<byte>, size: nat, cid: byte, k: nat, start: nat)
    requires BlockAt(bs, apdu, size, 0, k, start) && start == k * size
    ensures FrameOf(BlockFrame(bs[k], cid), apdu, size, cid, k, |bs|)
  {
  }

  lemma FrameSent(apdu: seq<byte>, size: nat, cid: byte, bs: seq<Block>, k: nat)
    requires |apdu| <= 256 && 1 <= size && bs == Blocks(apdu, 0, size, 0) && k < |bs|
    ensures |BlockFrames(bs, cid)| == |bs| && FrameOf(BlockFrames(bs, cid)[k], apdu, size, cid, k, |bs|)
  {
    BlocksAt(apdu, 0, size, 0, k);
    StartIs(0, size, k);
    BlockFramesAt(bs, cid, k);
    BlockFrameBytes(bs, apdu, size, cid, k, StartOf(0, size, k));
  }

  /** All frames of an APDU. */
  ghost predicate FramesOf(frames: seq<seq<byte>>, apdu: seq<byte>, size: nat, cid: byte) {
    forall k :: 0 <= k < |frames| ==> FrameOf(frames[k], apdu, size, cid, k, |frames|)
  }

  lemma FramesSent(apdu: seq<byte>, size: nat, cid: byte)
    requires |apdu| <= 256 && 1 <= size
    ensures FramesOf(BlockFrames(Blocks(apdu, 0, size, 0), cid), apdu, size, cid)
  {
    var bs := Blocks(apdu, 0, size, 0);
    FrameCount(bs, cid);
    forall k | 0 <= k < |bs| ensures FrameOf(BlockFrames(bs, cid)[k], apdu, size, cid, k, |bs|) {
      FrameSent(apdu, size, cid, bs, k);
    }
  }

  /** The blocks of a card's answer: I-blocks of its own numbering, chained on all but the
      last. */
  function CardBlocks(ds: seq<seq<byte>>, number: nat, cid: byte): (replies: seq<seq<byte>>)
    requires number < 2
    ensures |replies| == |ds|
  {
    if ds == [] then []
    else
      [[0x0A + number + (if |ds| > 1 then 0x10 else 0), cid] + ds[0]] + CardBlocks(ds[1..], 1 - number, cid)
  }

  function Joined(ds: seq<seq<byte>>): seq<byte> {
    if ds == [] then [] else ds[0] + Joined(ds[1..])
  }

  /** Such an answer is taken whole. */
  lemma {:induction false} CardBlocksChain(ds: seq<seq<byte>>, number: nat, cid: byte)
    requires number < 2 && ds != [] && forall k :: 0 <= k < |ds| ==> |ds[k]| <= 253
    ensures var parts := CardBlocks(ds, number, cid);
      && Readable(parts) && ChainOf(parts[0][0], parts[1..]) && ReplyInfs(parts) == Joined(ds) && !AsksTime(parts[0])
    decreases |ds|
  {
    var parts := CardBlocks(ds, number, cid);
    assert parts[0][2..] == ds[0];
    if |ds| > 1 {
      CardBlocksChain(ds[1..], 1 - number, cid);
      assert parts[1..] == CardBlocks(ds[1..], 1 - number, cid);
      forall k | 0 <= k < |parts| ensures 2 <= |parts[k]| <= 255 {
        assert k > 0 ==> parts[k] == parts[1..][k - 1];
      }
    } else {
      assert ds[1..] == [] && parts[1..] == [];
      assert ReplyInfs(parts) == parts[0][2..] + [];
    }
  }

  /** A whole exchange: the APDU goes out in well-chained blocks whose INF fields are the
      APDU; a request for more time in the reply to the last of them is granted; and the
      answer is the INF fields of the blocks that the card then chained, one R-block asking
      for each after the first. */
  lemma ApduExchange(p: Phase, cid: byte, apdu: seq<byte>, size: nat, replies: seq<seq<byte>>, bs: seq<Block>,
                     last: seq<byte>, more: seq<seq<byte>>)
    requires 1 <= |apdu| <= 256 && 1 <= size <= 250 && Readable(replies) && p.link.number == 0 && p.n == 0
    requires bs == Blocks(apdu, 0, size, 0) && 1 <= |bs| <= |replies|
    requires last == replies[|bs| - 1] && more == replies[|bs|..]
    requires ChainedParts(Parts(last, more)) && (AsksTime(last) ==> |last| > 2)
    ensures WellChained(bs, size, 0) && Infs(bs) == apdu
    ensures Serves(p, cid, bs, replies)
    ensures var t := Transcript(p, cid, bs, replies);
      && p.sent + BlockFrames(bs, cid) + Grant(last) <= t.0 && t.1 == ReplyInfs(Parts(last, more))
      && |t.0| == |p.sent| + |bs| + |Grant(last)| + |Parts(last, more)| - 1
      && FramesOf(t.0[|p.sent|..|p.sent| + |bs|], apdu, size, cid)
  {
    BlocksChain(apdu, 0, size, 0);
    SentIsApdu(|apdu|, size);
    FramesSent(apdu, size, cid);
    AnswerToBlocks(p, cid, replies, bs, last, more);
  }

  lemma Middle(a: seq<seq<byte>>, b: seq<seq<byte>>, c: seq<seq<byte>>, all: seq<seq<byte>>)
    requires a + b + c <= all
    ensures |a| + |b| <= |all| && all[|a|..|a| + |b|] == b
  {
    assert (a + b + c)[|a|..|a| + |b|] == b;
    SliceOfFront(all, |a + b + c|, |a|, |a| + |b|);
  }

  lemma GrantAt(a: seq<seq<byte>>, b: seq<seq<byte>>, c: seq<byte>, all: seq<seq<byte>>)
    requires a + b + [c] <= all
    ensures |a| + |b| < |all| && all[|a| + |b|] == c
  {
    assert (a + b + [c])[|a| + |b|] == c;
  }

  /** The same byte by byte on both sides. A card that acknowledges the blocks, asks for
      more time or not, and answers ds in chained blocks: the data received is ds joined,
      and the request comes back with the two upper bits of its byte cleared. */
  lemma ExchangeBytes(p: Phase, cid: byte, apdu: seq<byte>, size: nat, acks: seq<seq<byte>>, wtx: seq<byte>,
                      ds: seq<seq<byte>>, number: nat, cardCid: byte, bs: seq<Block>, replies: seq<seq<byte>>)
    requires 1 <= |apdu| <= 256 && 1 <= size <= 250 && p.link.number == 0 && p.n == 0 && number < 2
    requires bs == Blocks(apdu, 0, size, 0) && |bs| == |acks| + 1 && Readable(acks) && |wtx| <= 1
    requires ds != [] && (forall k :: 0 <= k < |ds| ==> |ds[k]| <= 253) && |Joined(ds)| <= BUFFER_SIZE
    requires replies == acks + (if wtx == [] then [] else [[0xFA, cardCid] + wtx]) + CardBlocks(ds, number, cardCid)
    ensures Readable(replies) && Serves(p, cid, bs, replies)
    ensures var t := Transcript(p, cid, bs, replies);
      && t.1 == Joined(ds) && |t.0| == |p.sent| + |bs| + |wtx| + |ds| - 1
      && FramesOf(t.0[|p.sent|..|p.sent| + |bs|], apdu, size, cid)
      && (wtx != [] ==> t.0[|p.sent| + |bs|] == [0xFA, cardCid, wtx[0] % 0x40])
  {
    var parts := CardBlocks(ds, number, cardCid);
    var request := if wtx == [] then [] else [[0xFA, cardCid] + wtx];
    CardBlocksChain(ds, number, cardCid);
    assert ChainedParts(parts);
    var last, more := (request + parts)[0], (request + parts)[1..];
    CardReplies(acks, request, parts, replies, last, more);
    ApduExchange(p, cid, apdu, size, replies, bs, last, more);
    if wtx != [] {
      GrantSent(p, cid, bs, replies, [0xFA, cardCid, wtx[0] % 0x40], Transcript(p, cid, bs, replies).0);
    }
  }

  lemma GrantSent(p: Phase, cid: byte, bs: seq<Block>, replies: seq<seq<byte>>, grant: seq<byte>,
                  all: seq<seq<byte>>)
    requires p.sent + BlockFrames(bs, cid) + [grant] <= all
    ensures |p.sent| + |bs| < |all| && all[|p.sent| + |bs|] == grant
  {
    FrameCount(bs, cid);
    GrantAt(p.sent, BlockFrames(bs, cid), grant, all);
  }

  /** The replies as the reader sees them: the one to the last I-block, and the rest. */
  lemma CardReplies(acks: seq<seq<byte>>, request: seq<seq<byte>>, parts: seq<seq<byte>>, replies: seq<seq<byte>>,
                    last: seq<byte>, more: seq<seq<byte>>)
    requires Readable(acks) && Readable(request) && ChainedParts(parts) && !AsksTime(parts[0]) && |request| <= 1
    requires request != [] ==> request[0][0] == 0xFA
    requires replies == acks + request + parts && last == (request + parts)[0] && more == (request + parts)[1..]
    ensures Readable(replies) && |acks| < |replies|
    ensures replies[|acks|] == last && replies[|acks| + 1..] == more
    ensures Parts(last, more) == parts && (AsksTime(last) <==> request != [])
  {
    RepliesReadable(acks, request, parts);
    LastAndMore(request, parts, last, more);
    AllSplits(acks, request + parts, replies);
    assert acks + request + parts == acks + (request + parts);
  }

  lemma AllSplits(a: seq<seq<byte>>, b: seq<seq<byte>>, all: seq<seq<byte>>)
    requires all == a + b && b != []
    ensures all[|a|] == b[0] && all[|a| + 1..] == b[1..]
  {
  }

  lemma RepliesReadable(a: seq<seq<byte>>, b: seq<seq<byte>>, c: seq<seq<byte>>)
    requires Readable(a) && Readable(b) && Readable(c)
    ensures Readable(a + b + c)
  {
  }

  lemma LastAndMore(request: seq<seq<byte>>, parts: seq<seq<byte>>, last: seq<byte>, more: seq<seq<byte>>)
    requires Readable(request) && Readable(parts) && parts != [] && !AsksTime(parts[0]) && |request| <= 1
    requires request != [] ==> request[0][0] == 0xFA
    requires last == (request + parts)[0] && more == (request + parts)[1..]
    ensures Parts(last, more) == parts && (AsksTime(last) <==> request != [])
  {
    if request == [] {
      assert request + parts == parts && parts == [parts[0]] + parts[1..];
    } else {
      assert (request + parts)[1..] == parts;
    }
  }

  lemma AnswerToBlocks(p: Phase, cid: byte, replies: seq<seq<byte>>, bs: seq<Block>, last: seq<byte>,
                       more: seq<seq<byte>>)
    requires Readable(replies) && p.link.number < 2 && p.n == 0 && 1 <= |bs| <= |replies|
    requires last == replies[|bs| - 1] && more == replies[|bs|..]
    requires ChainedParts(Parts(last, more)) && (AsksTime(last) ==> |last| > 2)
    ensures Serves(p, cid, bs, replies)
    ensures var t := Transcript(p, cid, bs, replies);
      && p.sent + BlockFrames(bs, cid) + Grant(last) <= t.0 && t.1 == ReplyInfs(Parts(last, more))
      && |t.0| == |p.sent| + |bs| + |Grant(last)| + |Parts(last, more)| - 1
      && t.0[|p.sent|..|p.sent| + |bs|] == BlockFrames(bs, cid)
  {
    SendingIs(p, bs, replies, cid);
    var q := Sending(p, bs, replies, cid);
    FrameCount(bs, cid);
    AnswerFrom(q.link, last, more);
    Called(p, cid, bs, replies, q, more, Grant(last));
    Middle(p.sent, BlockFrames(bs, cid), Grant(last), Transcript(p, cid, bs, replies).0);
  }

  lemma {:induction false} FrameCount(bs: seq<Block>, cid: byte)
    ensures |BlockFrames(bs, cid)| == |bs|
    decreases |bs|
  {
    if bs != [] {
      FrameCount(bs[1..], cid);
    }
  }

  /** The transcript of a call, once its sending and its answer are known. */
  lemma Called(p: Phase, cid: byte, bs: seq<Block>, replies: seq<seq<byte>>, q: Phase, more: seq<seq<byte>>,
               first: seq<seq<byte>>)
    requires Readable(replies) && Readable(more) && p.link.number < 2 && p.n + |bs| <= |replies|
    requires q == Sending(p, bs, replies, cid) && q.n <= |replies| && q.link.number < 2 && more == replies[q.n..]
    requires Answered(q.link, more) && first <= Answer(q.link, more).0
    ensures Serves(p, cid, bs, replies)
    ensures var t, r := Transcript(p, cid, bs, replies), Answer(q.link, more);
      q.sent + first <= t.0 && t.1 == r.1 && |t.0| == |q.sent| + |r.0|
  {
    OntoPrefix(q.sent, first, Answer(q.link, more));
  }

  lemma OntoPrefix(sent: seq<seq<byte>>, first: seq<seq<byte>>, r: (seq<seq<byte>>, seq<byte>))
    requires first <= r.0
    ensures sent + first <= Onto(sent, [], r).0 && Onto(sent, [], r).1 == r.1
  {
    assert [] + r.1 == r.1;
    assert sent + r.0 == (sent + first) + r.0[|first|..];
  }

  /** Frames and data added to what there was. */
  function Onto(sent: seq<seq<byte>>, data: seq<byte>, r: (seq<seq<byte>>, seq<byte>)): (seq<seq<byte>>, seq<byte>) {
    (sent + r.0, data + r.1)
  }

  lemma OntoNothing(sent: seq<seq<byte>>, data: seq<byte>)
    ensures Onto(sent, data, ([], [])) == (sent, data)
  {
    assert sent + [] == sent && data + [] == data;
  }

  lemma CompleteGoesOn(t: Tpdu, replies: seq<seq<byte>>, n: nat)
    requires Readable(replies) && n <= |replies| && Chained(t.pcb) && Complete(t, replies[n..])
    ensures n < |replies| && replies[n..][0] == replies[n] && replies[n..][1..] == replies[n + 1..]
  {
  }

  lemma RestStep(l: Link, replies: seq<seq<byte>>, sent: seq<seq<byte>>, data: seq<byte>)
    requires l.number < 2 && Readable(replies) && Chained(l.t.pcb) && Complete(l.t, replies)
    ensures replies != []
    ensures var t := Parsed(CID_ONLY, replies[0], RBlock(l));
      && Complete(t, replies[1..])
      && |Rest(l, replies).1| == |t.inf| + |Rest(Link(t, 1 - l.number), replies[1..]).1|
      && Onto(sent, data, Rest(l, replies))
        == Onto(sent + [Framed(CID_ONLY, RBlock(l))], data + t.inf, Rest(Link(t, 1 - l.number), replies[1..]))
  {
    var t := Parsed(CID_ONLY, replies[0], RBlock(l));
    var more := Rest(Link(t, 1 - l.number), replies[1..]);
    assert sent + ([Framed(CID_ONLY, RBlock(l))] + more.0) == (sent + [Framed(CID_ONLY, RBlock(l))]) + more.0;
    assert data + (t.inf + more.1) == (data + t.inf) + more.1;
  }
}