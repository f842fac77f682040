/** The receive and transmit protocol of ce.c, over whatever the NFC library answers. */
module CardEmu {
  import opened Bytes
  import opened ListenMode
  import T = Type4
  import U = Ultralight

  /** Return codes of the library, as far as the protocol tells them apart. */
  datatype Status = ErrNone | ErrBusy | ErrAgain | ErrLinkLoss | ErrSleepReq | ErrNotFound | ErrOther

  /** Calls into the library, with the reply where one is sent. */
  datatype Call =
    | ListenSetState(to: ListenState)
    | ListenSleepStart
    | ListenStop
    | ListenStart
    | StartActivation
    | GetActivationStatus
    | IsoDepGetStatus
    | IsoDepStart(reply: seq<byte>)
    | GetStatus
    | StartTransceive(reply: seq<byte>, bits: nat)

  /** The flags of ce.c, and ul_cwrite_page_set of hydranfc_v2_ce.c, which it clears. */
  datatype Ce = Ce(enabled: bool, activated: bool, firstA3: bool, rxReady: bool, txReady: bool, pending: nat)

  function Initial(): Ce {
    Ce(false, false, true, false, false, 0)
  }

  function BytesOf(bits: nat): nat {
    (bits + 7) / 8
  }

  // ------------------------------------------------------------- one step

  /** What the library shows to ceHandler. */
  datatype Look = Look(lm: ListenState, dataFlag: bool, isRats: bool, isSleepReq: bool, rcvd: nat, status: Status)

  function OnData(s: Ce, k: Look, level4: bool): (Ce, seq<Call>) {
    if k.isRats then
      if level4 then (s, [ListenSetState(CardEmu4A), StartActivation])
      else if k.rcvd == 0 then (s, [])
      else (s, [if k.lm.ActiveAx? then ListenSleepStart else ListenSetState(Idle)])
    else if k.isSleepReq then (s, [ListenSleepStart])
    else (if k.rcvd > 0 then s.(rxReady := true) else s, [])
  }

  function OnHandler(s: Ce, k: Look, level4: bool): (Ce, seq<Call>) {
    if !s.enabled then (s, [])
    else if Active(k.lm) then
      if k.dataFlag then OnData(s, k, level4)
      else if s.firstA3 then (s, [])
      else if k.status.ErrLinkLoss? then
        (s.(rxReady := false, txReady := false, firstA3 := true, pending := 0), [GetStatus, ListenStop, ListenStart])
      else (s, [GetStatus])
    else if k.lm.CardEmu4A? && !s.activated then
      if k.status.ErrLinkLoss? then
        (s.(firstA3 := true, pending := 0), [GetActivationStatus, ListenStop, ListenStart])
      else (s.(activated := k.status.ErrNone?), [GetActivationStatus])
    else (s, [])
  }

  /** What the library has for ceGetRx: its receive buffer and the length received, in
      bytes once the card is activated and in bits before. */
  datatype Rx = Rx(status: Status, data: seq<byte>, rcvd: nat)

  /** The size of rxBuf_ce. */
  const RX_BUF_LENGTH: nat := 259

  /** The copy of the received length stays inside both buffers. */
  predicate Fits(k: Rx) {
    k.rcvd <= |k.data| && k.rcvd <= BUF_SIZE
  }

  function Taken(s: Ce): Ce {
    s.(rxReady := false, txReady := true)
  }

  /** New flags, calls, result and the length delivered. */
  function OnGetRx(s: Ce, k: Rx): (Ce, seq<Call>, Status, nat) {
    if s.activated then
      match k.status
      case ErrNone => (Taken(s), [IsoDepGetStatus], ErrNone, k.rcvd)
      case ErrBusy => (s, [IsoDepGetStatus], ErrBusy, 0)
      case ErrAgain => (s, [IsoDepGetStatus], ErrAgain, 0)
      case _ =>
        (s.(rxReady := false, txReady := false, activated := false, firstA3 := true, pending := 0),
         [IsoDepGetStatus, ListenStop, ListenStart], k.status, 0)
    else if s.firstA3 then
      if s.rxReady then (Taken(s), [], ErrNone, BytesOf(k.rcvd)) else (s, [], ErrBusy, 0)
    else
      match k.status
      case ErrNone =>
        if k.rcvd > 0 then (Taken(s), [GetStatus], ErrNone, BytesOf(k.rcvd)) else (s, [GetStatus], ErrBusy, 0)
      case ErrBusy => (s, [GetStatus], ErrBusy, 0)
      case _ =>
        (s.(rxReady := false, txReady := false, firstA3 := true, pending := 0),
         [GetStatus, ListenStop, ListenStart], k.status, 0)
  }

  /** One look of the blocking transmission at the library. */
  datatype Poll = Poll(status: Status, inTx: bool)

  predicate Goes(p: Poll) {
    p.inTx && p.status.ErrBusy?
  }

  /** What the library answers to ceSetTx: the result of the start, and for a blocking
      transmission the polls up to the first that ends it. */
  datatype Tx = Tx(status: Status, polls: seq<Poll>, inRx: bool)

  ghost predicate ValidTx(k: Tx) {
    k.polls != [] && (forall i :: 0 <= i < |k.polls| - 1 ==> Goes(k.polls[i])) && !Goes(k.polls[|k.polls| - 1])
  }

  function Polls(n: nat): (calls: seq<Call>)
    ensures |calls| == n
  {
    if n == 0 then [] else [GetStatus] + Polls(n - 1)
  }

  function OnSetTx(s: Ce, reply: seq<byte>, bits: nat, reset: bool, k: Tx): (Ce, seq<Call>, Status) {
    if !s.txReady then (s, [], ErrNotFound)
    else if s.activated then
      (if k.status.ErrNone? then s.(rxReady := false, txReady := false) else s, [IsoDepStart(reply)], k.status)
    else if reset then
      var calls := if bits > 0 then [StartTransceive(reply, bits)] + Polls(|k.polls|) else [];
      var err :=
        if bits == 0 then ErrNotFound
        else if k.inRx || k.polls == [] then ErrNone
        else k.polls[|k.polls| - 1].status;
      (s.(rxReady := false, txReady := false, firstA3 := true, pending := 0), calls + [ListenSleepStart], err)
    else
      (if k.status.ErrNone? then s.(rxReady := false, txReady := false, firstA3 := false) else s,
       [StartTransceive(reply, bits)], k.status)
  }

  // ------------------------------------------------------------ the handler

  /** The Ultralight image and the Type 4 files. */
  datatype Store = Store(mem: seq<byte>, files: T.Files)

  predicate ValidStore(m: Store) {
    |m.mem| == U.DATA_SIZE && T.ValidFiles(m.files)
  }

  /** The pending page, the memories and the reply after one command, where it has one. */
  datatype Processed = Processed(pending: nat, store: Store, reply: U.Reply) | Undefined

  /** The handler in current_processCmdPtr: processCmdMifUL or processCmd. */
  function OnProcess(pending: nat, m: Store, mifare: bool, lm: ListenState, f: U.Frame): (p: Processed)
    requires ValidStore(m) && |f.buf| == BUF_SIZE
    ensures p.Processed? ==> ValidStore(p.store) && |p.reply.bytes| <= BUF_SIZE
  {
    if mifare then
      var (tag, reply) := U.Step(U.Tag(m.mem, pending), lm, f);
      Processed(tag.pending, m.(mem := tag.mem), reply)
    else
      var (files, answer) := T.Step(m.files, lm, f.buf);
      if answer.Undefined? then Undefined
      else Processed(pending, m.(files := files), U.Reply(8 * |answer.bytes|, answer.bytes, Active(lm)))
  }

  /** What the Type 4 handler leaves of a command: the files and the answer of one step,
      whole bytes, with a reset in the two active states only. The Ultralight handler is
      the tag. */
  lemma HandlersMean(pending: nat, m: Store, lm: ListenState, f: U.Frame)
    requires ValidStore(m) && |f.buf| == BUF_SIZE
    ensures var (files, answer) := T.Step(m.files, lm, f.buf);
      OnProcess(pending, m, false, lm, f) ==
        if answer.Undefined? then Undefined
        else Processed(pending, Store(m.mem, files),
          U.Reply(8 * |answer.bytes|, answer.bytes, lm.ActiveA? || lm.ActiveAx?))
    ensures var (tag, reply) := U.Step(U.Tag(m.mem, pending), lm, f);
      OnProcess(pending, m, true, lm, f) == Processed(tag.pending, Store(tag.mem, m.files), reply)
  {
  }

  // ------------------------------------------------------ the implementation

  class Emulator {
    var ceEnabled: bool
    var isActivatedA: bool
    var isFirstA3_Frame: bool
    var rxReady: bool
    var txReady: bool
    const card: U.Card
    const files: T.Card4
    const level4: bool
    const mifare: bool
    ghost var calls: seq<Call>

    ghost predicate Valid()
      reads this, card, card.ul_image, files
    {
      && card.Valid() && files.Valid()
      && card.ul_image != files.ccfile && card.ul_image != files.ndefFile
    }

    ghost function Memory(): (m: Store)
      reads this, card, card.ul_image, files, files.ccfile, files.ndefFile
      requires Valid()
      ensures ValidStore(m)
    {
      Store(card.ul_image[..U.DATA_SIZE], files.Contents())
    }

    /** The shared buffer is none of the memories. */
    ghost predicate Apart(rxtx: array<byte>)
      reads this
    {
      rxtx.Length == BUF_SIZE && rxtx != card.ul_image && rxtx != files.ccfile && rxtx != files.ndefFile
    }

    ghost function Flags(): Ce
      reads this, card
    {
      Ce(ceEnabled, isActivatedA, isFirstA3_Frame, rxReady, txReady, card.ul_cwrite_page_set)
    }

    /** The emulator and the buffer are as an outcome says. */
    ghost predicate Left(o: Outcome, rxtx: seq<byte>)
      reads this, card, card.ul_image, files, files.ccfile, files.ndefFile
      requires Valid() && o.Done?
    {
      Flags() == o.ce && Memory() == o.store && calls == o.calls && rxtx == o.rxtx
    }

    constructor (c: U.Card, f: T.Card4, level4: bool, mifare: bool)
      requires c.Valid() && f.Valid() && c.ul_image != f.ccfile && c.ul_image != f.ndefFile
      ensures Valid() && card == c && files == f && this.level4 == level4 && this.mifare == mifare && calls == []
      ensures Flags() == Initial().(pending := c.ul_cwrite_page_set)
    {
      card, files, this.level4, this.mifare, calls := c, f, level4, mifare, [];
      ceEnabled, isActivatedA, isFirstA3_Frame, rxReady, txReady := false, false, true, false, false;
    }

    method Init()
      requires Valid()
      modifies this, card`ul_cwrite_page_set
      ensures Valid() && Flags() == Initial() && calls == old(calls)
    {
      isActivatedA, isFirstA3_Frame, rxReady, txReady := false, true, false, false;
      ceEnabled := false;
      card.ul_cwrite_page_set := 0;
    }

    /** The flag is set even when the library then refuses to listen. */
    method Start(k: Status) returns (err: Status)
      requires Valid()
      modifies this
      ensures Valid() && Flags() == old(Flags()).(enabled := true) && calls == old(calls) + [ListenStart] && err == k
    {
      ceEnabled := true;
      calls := calls + [ListenStart];
      err := k;
    }

    method Stop()
      requires Valid()
      modifies this, card`ul_cwrite_page_set
      ensures Valid() && Flags() == Initial() && calls == old(calls) + [ListenStop]
    {
      calls := calls + [ListenStop];
      Init();
    }

    /** The link is lost: listen again, from the first frame on. */
    method Relisten(call: Call)
      requires Valid()
      modifies this`isFirstA3_Frame, this`calls, card`ul_cwrite_page_set
      ensures Valid() && Flags() == old(Flags()).(firstA3 := true, pending := 0)
      ensures calls == old(calls) + [call, ListenStop, ListenStart]
    {
      calls := calls + [call, ListenStop, ListenStart];
      isFirstA3_Frame := true;
      card.ul_cwrite_page_set := 0;
    }

    method Handler(k: Look)
      requires Valid()
      modifies this, card`ul_cwrite_page_set
      ensures Valid() && Flags() == OnHandler(old(Flags()), k, level4).0
      ensures calls == old(calls) + OnHandler(old(Flags()), k, level4).1
    {
      if !ceEnabled {
        return;
      }
      if Active(k.lm) {
        if k.dataFlag {
          HandleData(k);
        } else if !isFirstA3_Frame {
          if k.status.ErrLinkLoss? {
            Relisten(GetStatus);
            rxReady, txReady := false, false;
          } else {
            calls := calls + [GetStatus];
          }
        }
      } else if k.lm.CardEmu4A? && !isActivatedA {
        if k.status.ErrLinkLoss? {
          Relisten(GetActivationStatus);
          isActivatedA := false;
        } else {
          calls := calls + [GetActivationStatus];
          if k.status.ErrNone? {
            isActivatedA := true;
          }
        }
      }
    }

    method HandleData(k: Look)
      requires Valid()
      modifies this`rxReady, this`calls
      ensures Valid() && Flags() == OnData(old(Flags()), k, level4).0
      ensures calls == old(calls) + OnData(old(Flags()), k, level4).1
    {
      if k.isRats {
        if level4 {
          calls := calls + [ListenSetState(CardEmu4A), StartActivation];
        } else if k.rcvd > 0 {
          calls := calls + [if k.lm.ActiveAx? then ListenSleepStart else ListenSetState(Idle)];
        }
      } else if k.isSleepReq {
        calls := calls + [ListenSleepStart];
      } else if k.rcvd > 0 {
        rxReady := true;
      }
    }

    /** The layer-3 length counts bits, and that many bytes are copied; past the end of a
        buffer the copy has no defined outcome. */
    method GetRx(txData: array<byte>, k: Rx) returns (defined: bool, err: Status, size: nat)
      requires Valid() && Apart(txData)
      modifies this, card`ul_cwrite_page_set, txData
      ensures Valid() && Flags() == OnGetRx(old(Flags()), k).0
      ensures calls == old(calls) + OnGetRx(old(Flags()), k).1
      ensures err == OnGetRx(old(Flags()), k).2
      ensures defined <==> (err.ErrNone? ==> Fits(k))
      ensures err.ErrNone? ==> size == OnGetRx(old(Flags()), k).3
      ensures txData[..] ==
        if err.ErrNone? && defined then k.data[..k.rcvd] + old(txData[k.rcvd..]) else old(txData[..])
    {
      err, size := k.status, 0;
      defined := true;
      var deliver := false;
      if isActivatedA {
        deliver := TakeIsoDep(k);
        size := k.rcvd;
      } else if isFirstA3_Frame {
        deliver, size := rxReady, BytesOf(k.rcvd);
        err := if rxReady then ErrNone else ErrBusy;
      } else {
        deliver := TakeLayer3(k);
        size := BytesOf(k.rcvd);
        if err.ErrNone? && !deliver {
          err := ErrBusy;
        }
      }
      if deliver {
        rxReady, txReady := false, true;
        if Fits(k) {
          Copy(txData, 0, k.data[..k.rcvd]);
          assert txData[..] == txData[..k.rcvd] + txData[k.rcvd..];
        } else {
          defined := false;
        }
      }
    }

    method TakeIsoDep(k: Rx) returns (deliver: bool)
      requires Valid()
      modifies this, card`ul_cwrite_page_set
      ensures Valid() && deliver == k.status.ErrNone?
      ensures Flags() == if k.status.ErrNone? || k.status.ErrBusy? || k.status.ErrAgain? then old(Flags())
        else old(Flags()).(rxReady := false, txReady := false, activated := false, firstA3 := true, pending := 0)
      ensures calls == old(calls) +
        if k.status.ErrNone? || k.status.ErrBusy? || k.status.ErrAgain? then [IsoDepGetStatus]
        else [IsoDepGetStatus, ListenStop, ListenStart]
    {
      match k.status
      case ErrNone | ErrBusy | ErrAgain =>
        calls := calls + [IsoDepGetStatus];
        deliver := k.status.ErrNone?;
      case _ =>
        Relisten(IsoDepGetStatus);
        rxReady, txReady, isActivatedA := false, false, false;
        deliver := false;
    }

    method TakeLayer3(k: Rx) returns (deliver: bool)
      requires Valid()
      modifies this, card`ul_cwrite_page_set
      ensures Valid() && deliver == (k.status.ErrNone? && k.rcvd > 0)
      ensures Flags() == if k.status.ErrNone? || k.status.ErrBusy? then old(Flags())
        else old(Flags()).(rxReady := false, txReady := false, firstA3 := true, pending := 0)
      ensures calls == old(calls) +
        if k.status.ErrNone? || k.status.ErrBusy? then [GetStatus] else [GetStatus, ListenStop, ListenStart]
    {
      match k.status
      case ErrNone | ErrBusy =>
        calls := calls + [GetStatus];
        deliver := k.status.ErrNone? && k.rcvd > 0;
      case _ =>
        Relisten(GetStatus);
        rxReady, txReady := false, false;
        deliver := false;
    }

    method SetTx(rxData: array<byte>, rxSize: nat, reset: bool, k: Tx) returns (err: Status)
      requires Valid() && ValidTx(k) && BytesOf(rxSize) <= rxData.Length
      modifies this, card`ul_cwrite_page_set
      ensures Valid()
      ensures var (s, sent, result) := OnSetTx(old(Flags()), rxData[..BytesOf(rxSize)], rxSize, reset, k);
        Flags() == s && calls == old(calls) + sent && err == result
    {
      var reply := rxData[..BytesOf(rxSize)];
      if !txReady {
        return ErrNotFound;
      }
      if isActivatedA {
        calls := calls + [IsoDepStart(reply)];
        err := k.status;
        if err.ErrNone? {
          rxReady, txReady := false, false;
        }
      } else if reset {
        err := TransmitAndSleep(reply, rxSize, k);
      } else {
        calls := calls + [StartTransceive(reply, rxSize)];
        err := k.status;
        if err.ErrNone? {
          isFirstA3_Frame, rxReady, txReady := false, false, false;
        }
      }
    }

    /** The branch that ends in sleep, after a blocking transmission when there is
        anything to send. */
    method TransmitAndSleep(reply: seq<byte>, rxSize: nat, k: Tx) returns (err: Status)
      requires Valid() && ValidTx(k) && txReady && !isActivatedA
      modifies this, card`ul_cwrite_page_set
      ensures Valid() && Flags() == OnSetTx(old(Flags()), reply, rxSize, true, k).0
      ensures calls == old(calls) + OnSetTx(old(Flags()), reply, rxSize, true, k).1
      ensures err == OnSetTx(old(Flags()), reply, rxSize, true, k).2
    {
      err := ErrNotFound;
      if rxSize > 0 {
        err := TransmitBlocking(reply, rxSize, k);
      }
      calls := calls + [ListenSleepStart];
      rxReady, txReady, isActivatedA := false, false, false;
      isFirstA3_Frame := true;
      card.ul_cwrite_page_set := 0;
    }

    method TransmitBlocking(reply: seq<byte>, rxSize: nat, k: Tx) returns (err: Status)
      requires ValidTx(k)
      modifies this`calls
      ensures calls == old(calls) + ([StartTransceive(reply, rxSize)] + Polls(|k.polls|))
      ensures err == if k.inRx then ErrNone else k.polls[|k.polls| - 1].status
    {
      ghost var before := calls + [StartTransceive(reply, rxSize)];
      calls := before;
      var i := 0;
      err := k.polls[0].status;
      var goes := true;
      while goes
        invariant 0 <= i <= |k.polls| && calls == before + Polls(i)
        invariant if goes then i < |k.polls| else i == |k.polls| && err == k.polls[i - 1].status
        decreases |k.polls| - i, goes
      {
        err := k.polls[i].status;
        goes := Goes(k.polls[i]);
        calls := calls + [GetStatus];
        PollsSnoc(i);
        i := i + 1;
      }
      if k.inRx {
        err := ErrNone;
      }
    }

    /** One turn of ceRun: command and response share the one buffer. */
    method Turn(rxtx: array<byte>, round: Round) returns (defined: bool)
      requires Valid() && Apart(rxtx) && ValidTx(round.tx)
      modifies this, card`ul_cwrite_page_set, card.ul_image, files, files.ndefFile, rxtx
      ensures Valid()
      ensures var o := OnTurn(old(Flags()), old(Memory()), old(rxtx[..]), round, level4, mifare);
        defined == o.Done? && (defined ==> Left(o.(calls := old(calls) + o.calls), rxtx[..]))
    {
      var err, size;
      defined, err, size := Receive(rxtx, round);
      if err.ErrNone? && defined {
        ghost var before := calls;
        defined := Exchange(rxtx, size, round);
        if defined {
          Join(old(calls), OnReceive(old(Flags()), round, level4).1, calls[|before|..]);
        }
      }
    }

    method Receive(rxtx: array<byte>, round: Round) returns (defined: bool, err: Status, size: nat)
      requires Valid() && Apart(rxtx)
      modifies this, card`ul_cwrite_page_set, rxtx
      ensures Valid()
      ensures var (s2, calls2, err2, size2) := OnReceive(old(Flags()), round, level4);
        && Flags() == s2 && calls == old(calls) + calls2 && err == err2 && (err.ErrNone? ==> size == size2)
        && (defined <==> (err.ErrNone? ==> Fits(round.rx)))
        && (!err.ErrNone? ==> rxtx[..] == old(rxtx[..]))
        && (err.ErrNone? && defined ==>
              U.Frame(rxtx[..], size) == Frame(round.rx.data, round.rx.rcvd, size2, old(rxtx[..])))
    {
      Handler(round.look);
      ghost var s1, c1 := Flags(), OnHandler(old(Flags()), round.look, level4).1;
      defined, err, size := GetRx(rxtx, round.rx);
      Join(old(calls), c1, OnGetRx(s1, round.rx).1);
    }

    /** A delivered frame is answered. */
    method Exchange(rxtx: array<byte>, size: nat, round: Round) returns (defined: bool)
      requires Valid() && Apart(rxtx) && ValidTx(round.tx)
      modifies this, card`ul_cwrite_page_set, card.ul_image, files, files.ndefFile, rxtx
      ensures Valid()
      ensures var o := OnExchange(old(Flags()), old(Memory()), U.Frame(old(rxtx[..]), size), round, mifare);
        defined == o.Done? && (defined ==> Left(o.(calls := old(calls) + o.calls), rxtx[..]))
    {
      ghost var s := Flags();
      ghost var p := OnProcess(s.pending, Memory(), mifare, round.lm, U.Frame(rxtx[..], size));
      var bits, reset;
      defined, bits, reset := Process(rxtx, size, round.lm);
      if defined {
        assert Flags() == s.(pending := p.pending);
        var err := SetTx(rxtx, bits, reset, round.tx);
      }
    }

    method Process(rxtx: array<byte>, size: nat, lm: ListenState) returns (defined: bool, bits: nat, reset: bool)
      requires Valid() && Apart(rxtx)
      modifies card`ul_cwrite_page_set, card.ul_image, files, files.ndefFile, rxtx
      ensures Valid()
      ensures var p := OnProcess(old(card.ul_cwrite_page_set), old(Memory()), mifare, lm, U.Frame(old(rxtx[..]), size));
        && defined == p.Processed?
        && (defined ==> Processes(p, card.ul_cwrite_page_set, Memory(), bits, reset, old(rxtx[..]), rxtx[..]))
    {
      ghost var pending, m, f := card.ul_cwrite_page_set, Memory(), U.Frame(rxtx[..], size);
      if mifare {
        ReplyLength(U.Tag(m.mem, pending), lm, f);
        bits, reset := card.ProcessCmdMifUL(lm, rxtx, size, rxtx);
        defined := true;
      } else {
        defined, bits, reset := files.ProcessCmd(lm, rxtx, rxtx);
        assert defined ==> rxtx[..] == rxtx[..bits / 8] + rxtx[bits / 8..] && BytesOf(bits) == bits / 8;
      }
    }
  }

  /** What a handler leaves is what the specification says. */
  predicate Processes(p: Processed, pending: nat, m: Store, bits: nat, reset: bool, cmd: seq<byte>, rsp: seq<byte>)
    requires p.Processed?
  {
    && pending == p.pending && m == p.store && bits == p.reply.bits && reset == p.reply.reset
    && BytesOf(bits) == |p.reply.bytes| <= |cmd| && rsp == Overlaid(cmd, p.reply.bytes)
  }

  lemma Join(a: seq<Call>, b: seq<Call>, c: seq<Call>)
    ensures a + b + c == a + (b + c)
  {
  }

  lemma ReplyLength(t: U.Tag, lm: ListenState, f: U.Frame)
    requires U.ValidTag(t) && U.ValidFrame(f)
    ensures BytesOf(U.Step(t, lm, f).1.bits) == |U.Step(t, lm, f).1.bytes|
  {
  }

  lemma {:induction false} PollsSnoc(n: nat)
    ensures Polls(n) + [GetStatus] == Polls(n + 1)
  {
    if n > 0 {
      PollsSnoc(n - 1);
    }
  }

  // ----------------------------------------------------------------- ceRun

  /** What the library answers during one turn of ceRun. */
  datatype Round = Round(look: Look, rx: Rx, lm: ListenState, tx: Tx)

  function Frame(data: seq<byte>, rcvd: nat, size: nat, before: seq<byte>): (f: U.Frame)
    requires rcvd <= |data| && rcvd <= |before|
    ensures |f.buf| == |before|
  {
    U.Frame(data[..rcvd] + before[rcvd..], size)
  }

  /** Flags, memories, calls and the shared buffer after a turn. */
  datatype Outcome = Done(ce: Ce, store: Store, calls: seq<Call>, rxtx: seq<byte>) | Lost

  predicate ValidOutcome(o: Outcome) {
    o.Done? ==> ValidStore(o.store) && |o.rxtx| == BUF_SIZE
  }

  function OnExchange(s: Ce, m: Store, frame: U.Frame, r: Round, mifare: bool): (o: Outcome)
    requires ValidStore(m) && |frame.buf| == BUF_SIZE
    ensures ValidOutcome(o)
  {
    var p := OnProcess(s.pending, m, mifare, r.lm, frame);
    if p.Undefined? then Lost
    else
      var (s1, calls, _) := OnSetTx(s.(pending := p.pending), p.reply.bytes, p.reply.bits, p.reply.reset, r.tx);
      Done(s1, p.store, calls, Overlaid(frame.buf, p.reply.bytes))
  }

  /** ceHandler and ceGetRx: new flags, calls, result and the length delivered. */
  function OnReceive(s: Ce, r: Round, level4: bool): (Ce, seq<Call>, Status, nat) {
    var (s1, c1) := OnHandler(s, r.look, level4);
    var (s2, c2, err, size) := OnGetRx(s1, r.rx);
    (s2, c1 + c2, err, size)
  }

  function OnTurn(s: Ce, m: Store, rxtx: seq<byte>, r: Round, level4: bool, mifare: bool): (o: Outcome)
    requires ValidStore(m) && |rxtx| == BUF_SIZE
    ensures ValidOutcome(o)
  {
    var (s2, calls, err, size) := OnReceive(s, r, level4);
    if !err.ErrNone? then Done(s2, m, calls, rxtx)
    else if !Fits(r.rx) then Lost
    else
      var x := OnExchange(s2, m, Frame(r.rx.data, r.rx.rcvd, size, rxtx), r, mifare);
      if x.Lost? then Lost else x.(calls := calls + x.calls)
  }
}
