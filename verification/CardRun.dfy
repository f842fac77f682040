/** What every run of the card emulation keeps, whatever the NFC library answers. */
module CardRun {
  import opened Bytes
  import opened ListenMode
  import opened CardEmu
  import opened Memory
  import T = Type4
  import U = Ultralight

  // ------------------------------------------------------- legal call orders

  /** Whether a transceive was started since the last start of listening. */
  function Since(calls: seq<Call>, started: bool): bool
    decreases |calls|
  {
    if calls == [] then started
    else Since(calls[1..], calls[0].StartTransceive? || (started && !calls[0].ListenStart?))
  }

  /** The transceive status is only asked for while that is so. */
  predicate Legal(calls: seq<Call>, started: bool)
    decreases |calls|
  {
    calls != [] ==>
      && (calls[0].GetStatus? ==> started)
      && Legal(calls[1..], calls[0].StartTransceive? || (started && !calls[0].ListenStart?))
  }

  lemma {:induction false} LegalConcat(a: seq<Call>, b: seq<Call>, started: bool)
    ensures Since(a + b, started) == Since(b, Since(a, started))
    ensures Legal(a + b, started) == (Legal(a, started) && Legal(b, Since(a, started)))
    decreases |a|
  {
    if a == [] {
      assert a + b == b;
    } else {
      assert (a + b)[1..] == a[1..] + b;
      LegalConcat(a[1..], b, a[0].StartTransceive? || (started && !a[0].ListenStart?));
    }
  }

  /** A transceive was started at j, and listening was not started again before k. */
  predicate StartedAt(calls: seq<Call>, j: nat, k: nat)
    requires j < k <= |calls|
  {
    calls[j].StartTransceive? && forall i :: j < i < k ==> !calls[i].ListenStart?
  }

  lemma {:induction false} SinceMeans(calls: seq<Call>) returns (j: nat)
    requires Since(calls, false)
    ensures j < |calls| && StartedAt(calls, j, |calls|)
    decreases |calls|
  {
    var n := |calls| - 1;
    assert calls != [];
    assert calls == calls[..n] + [calls[n]];
    LegalConcat(calls[..n], [calls[n]], false);
    if calls[n].StartTransceive? {
      j := n;
    } else {
      assert [calls[n]][1..] == [];
      j := SinceMeans(calls[..n]);
      assert StartedAt(calls[..n], j, n);
      forall i | j < i < |calls| ensures !calls[i].ListenStart? {
        assert i < n ==> calls[i] == calls[..n][i];
      }
    }
  }

  /** In a legal order every request for the status comes after a start of a transceive
      that no start of listening followed. */
  lemma LegalMeans(calls: seq<Call>, k: nat) returns (j: nat)
    requires Legal(calls, false) && k < |calls| && calls[k].GetStatus?
    ensures j < k && StartedAt(calls, j, k)
  {
    assert calls == calls[..k] + calls[k..];
    LegalConcat(calls[..k], calls[k..], false);
    j := SinceMeans(calls[..k]);
    assert forall i :: 0 <= i < k ==> calls[..k][i] == calls[i];
  }

  // ------------------------------------------------------------- the steps

  /** Not being at the first frame means that a transceive was started. */
  predicate Tracks(s: Ce, started: bool) {
    s.firstA3 || started
  }

  predicate Keeps(calls: seq<Call>, s1: Ce, started: bool) {
    Legal(calls, started) && Tracks(s1, Since(calls, started))
  }

  lemma HandlerKeeps(s: Ce, k: Look, level4: bool, started: bool)
    requires Tracks(s, started)
    ensures var (s1, calls) := OnHandler(s, k, level4); Keeps(calls, s1, started)
  {
    OneCall(GetStatus, started);
    OneCall(GetActivationStatus, started);
    DataKeeps(s, k, level4, started);
  }

  lemma OneCall(c: Call, started: bool)
    ensures Legal([c], started) == (c.GetStatus? ==> started)
    ensures Since([c], started) == (c.StartTransceive? || (started && !c.ListenStart?))
    ensures Legal([c, ListenStop, ListenStart], started) == (c.GetStatus? ==> started)
  {
    assert [c][1..] == [];
    assert [c, ListenStop, ListenStart][1..] == [ListenStop, ListenStart];
    assert [ListenStop, ListenStart][1..] == [ListenStart];
    assert [ListenStart][1..] == [];
  }

  lemma DataKeeps(s: Ce, k: Look, level4: bool, started: bool)
    requires Tracks(s, started)
    ensures var (s1, calls) := OnData(s, k, level4); Keeps(calls, s1, started)
  {
    OneCall(ListenSetState(CardEmu4A), started);
    assert [ListenSetState(CardEmu4A), StartActivation][1..] == [StartActivation];
    OneCall(StartActivation, started);
    OneCall(ListenSetState(Idle), started);
    OneCall(ListenSleepStart, started);
  }

  lemma GetRxKeeps(s: Ce, k: Rx, started: bool)
    requires Tracks(s, started)
    ensures var (s1, calls, _, _) := OnGetRx(s, k); Keeps(calls, s1, started)
  {
    OneCall(GetStatus, started);
    OneCall(IsoDepGetStatus, started);
  }

  lemma {:induction false} PollsLegal(n: nat)
    ensures Legal(Polls(n), true) && Since(Polls(n), true)
  {
    if n > 0 {
      PollsLegal(n - 1);
      assert Polls(n)[1..] == Polls(n - 1);
    }
  }

  lemma BlockingLegal(reply: seq<byte>, bits: nat, n: nat, started: bool)
    ensures Legal([StartTransceive(reply, bits)] + Polls(n), started)
    ensures Legal([StartTransceive(reply, bits)] + Polls(n) + [ListenSleepStart], started)
  {
    PollsLegal(n);
    var c := StartTransceive(reply, bits);
    OneCall(c, started);
    LegalConcat([c], Polls(n), started);
    LegalConcat([c] + Polls(n), [ListenSleepStart], started);
    OneCall(ListenSleepStart, true);
  }

  lemma SetTxKeeps(s: Ce, reply: seq<byte>, bits: nat, reset: bool, k: Tx, started: bool)
    requires Tracks(s, started)
    ensures var (s1, calls, _) := OnSetTx(s, reply, bits, reset, k); Keeps(calls, s1, started)
  {
    BlockingLegal(reply, bits, |k.polls|, started);
    OneCall(IsoDepStart(reply), started);
    OneCall(StartTransceive(reply, bits), started);
    OneCall(ListenSleepStart, started);
    assert [] + [ListenSleepStart] == [ListenSleepStart];
  }

  // ------------------------------------------------------------------ runs

  /** What may happen to the protocol, in any order: ceHandler, ceGetRx, a command handler
      that leaves any pending page, ceSetTx with any reply, and ceStop with ceStart. */
  datatype Event =
    | Handle(look: Look)
    | Get(rx: Rx)
    | Process(pending: nat)
    | Set(reply: seq<byte>, bits: nat, reset: bool, tx: Tx)
    | Restart

  /** Flags, the calls made, the frames delivered and the replies started. */
  datatype World = World(ce: Ce, calls: seq<Call>, delivered: nat, replied: nat)

  /** Replies that the library started to send. */
  function Started(calls: seq<Call>, err: Status): nat {
    if calls != [] && calls[0].IsoDepStart? && err.ErrNone? then 1
    else if calls != [] && calls[0].StartTransceive? && (err.ErrNone? || |calls| > 1) then 1
    else 0
  }

  /** ceInit, then ceStart. */
  function Begun(): Ce {
    Initial().(enabled := true)
  }

  function Effect(s: Ce, e: Event, level4: bool): World {
    match e
    case Handle(look) => var (s1, calls) := OnHandler(s, look, level4); World(s1, calls, 0, 0)
    case Get(rx) => var (s1, calls, err, _) := OnGetRx(s, rx); World(s1, calls, if err.ErrNone? then 1 else 0, 0)
    case Process(pending) => World(s.(pending := pending), [], 0, 0)
    case Set(reply, bits, reset, tx) =>
      var (s1, calls, err) := OnSetTx(s, reply, bits, reset, tx); World(s1, calls, 0, Started(calls, err))
    case Restart => World(Begun(), [ListenStop, ListenStart], 0, 0)
  }

  function Then(a: World, b: World): World {
    World(b.ce, a.calls + b.calls, a.delivered + b.delivered, a.replied + b.replied)
  }

  /** Events in sequence, whatever each of them does. */
  function Play(step: (Ce, Event) -> World, s: Ce, es: seq<Event>): World
    decreases |es|
  {
    if es == [] then World(s, [], 0, 0)
    else
      var x := step(s, es[0]);
      Then(x, Play(step, x.ce, es[1..]))
  }

  function Protocol(level4: bool): (Ce, Event) -> World {
    (s, e) => Effect(s, e, level4)
  }

  lemma ThenGroups(a: World, b: World, c: World)
    ensures Then(Then(a, b), c) == Then(a, Then(b, c))
    ensures Then(World(a.ce, [], 0, 0), b) == b && Then(a, World(a.ce, [], 0, 0)) == a
  {
    Join(a.calls, b.calls, c.calls);
    assert [] + b.calls == b.calls && a.calls + [] == a.calls;
  }

  lemma {:induction false} PlayConcat(step: (Ce, Event) -> World, s: Ce, a: seq<Event>, b: seq<Event>)
    ensures Play(step, s, a + b) == Then(Play(step, s, a), Play(step, Play(step, s, a).ce, b))
    decreases |a|
  {
    if a == [] {
      assert a + b == b;
      ThenGroups(World(s, [], 0, 0), Play(step, s, b), World(s, [], 0, 0));
    } else {
      assert (a + b)[1..] == a[1..] + b;
      var x := step(s, a[0]);
      PlayConcat(step, x.ce, a[1..], b);
      ThenGroups(x, Play(step, x.ce, a[1..]), Play(step, Play(step, s, a).ce, b));
    }
  }

  lemma PlayOne(step: (Ce, Event) -> World, s: Ce, a: Event)
    ensures Play(step, s, [a]) == step(s, a)
  {
    assert [a][1..] == [];
    var x := step(s, a);
    ThenGroups(x, x, x);
  }

  lemma PlayTwo(step: (Ce, Event) -> World, s: Ce, a: Event, b: Event)
    ensures Play(step, s, [a, b]) == Then(step(s, a), step(step(s, a).ce, b))
  {
    assert [a] + [b] == [a, b];
    PlayConcat(step, s, [a], [b]);
    PlayOne(step, s, a);
    PlayOne(step, step(s, a).ce, b);
  }

  // -------------------------------------------------- what every run keeps

  /** A delivered frame waits for its reply. */
  function Due(s: Ce): nat {
    if s.txReady then 1 else 0
  }

  lemma EffectOrder(s: Ce, e: Event, level4: bool, started: bool)
    requires Tracks(s, started)
    ensures Keeps(Effect(s, e, level4).calls, Effect(s, e, level4).ce, started)
  {
    match e
    case Handle(look) => HandlerKeeps(s, look, level4, started);
    case Get(rx) => GetRxKeeps(s, rx, started);
    case Process(pending) =>
    case Set(reply, bits, reset, tx) => SetTxKeeps(s, reply, bits, reset, tx, started);
    case Restart => assert [ListenStop, ListenStart][1..] == [ListenStart]; OneCall(ListenStart, started);
  }

  /** A delivery makes a reply due and nothing else does; a reply that starts settles it. */
  lemma EffectBalance(s: Ce, e: Event, level4: bool)
    ensures var x := Effect(s, e, level4); x.replied + Due(x.ce) <= x.delivered + Due(s)
  {
    if e.Set? && s.txReady && !s.activated && !e.reset {
      assert |OnSetTx(s, e.reply, e.bits, e.reset, e.tx).1| == 1;
    }
  }

  lemma KeepsTwice(a: seq<Call>, b: seq<Call>, s1: Ce, s2: Ce, started: bool)
    requires Keeps(a, s1, started) && Keeps(b, s2, Since(a, started))
    ensures Keeps(a + b, s2, started)
  {
    LegalConcat(a, b, started);
  }

  /** Over any stretch of events, from any flags. */
  lemma {:induction false} PlayKeeps(s: Ce, es: seq<Event>, level4: bool, started: bool)
    requires Tracks(s, started)
    ensures Keeps(Play(Protocol(level4), s, es).calls, Play(Protocol(level4), s, es).ce, started)
    ensures var w := Play(Protocol(level4), s, es); w.replied + Due(w.ce) <= w.delivered + Due(s)
    decreases |es|
  {
    if es != [] {
      var x := Effect(s, es[0], level4);
      EffectOrder(s, es[0], level4, started);
      EffectBalance(s, es[0], level4);
      PlayKeeps(x.ce, es[1..], level4, Since(x.calls, started));
      KeepsTwice(x.calls, Play(Protocol(level4), x.ce, es[1..]).calls, x.ce, Play(Protocol(level4), s, es).ce, started);
    }
  }

  /** Every sequence of events after ceInit and ceStart: the status of a transceive is only
      asked for after one was started since listening last began, and the replies started,
      with one more while txReady is set, never outnumber the frames delivered. */
  lemma EventsKeep(es: seq<Event>, level4: bool, k: nat)
    ensures var w := Play(Protocol(level4), Begun(), es); w.replied + Due(w.ce) <= w.delivered
    ensures var calls := Play(Protocol(level4), Begun(), es).calls;
      k < |calls| && calls[k].GetStatus? ==> exists j: nat :: j < k && StartedAt(calls, j, k)
  {
    PlayKeeps(Begun(), es, level4, false);
    var calls := Play(Protocol(level4), Begun(), es).calls;
    if k < |calls| && calls[k].GetStatus? {
      var j := LegalMeans(calls, k);
      assert StartedAt(calls, j, k);
    }
  }

  /** Between two replies there is a delivery, from any flags on. */
  lemma ReplyNeedsFrame(s: Ce, first: Event, es: seq<Event>, last: Event, level4: bool)
    requires Effect(s, first, level4).replied == 1
    requires Effect(Play(Protocol(level4), Effect(s, first, level4).ce, es).ce, last, level4).replied == 1
    ensures Play(Protocol(level4), Effect(s, first, level4).ce, es).delivered >= 1
  {
    var s1 := Effect(s, first, level4).ce;
    EffectBalance(s, first, level4);
    PlayKeeps(s1, es, level4, true);
    EffectBalance(Play(Protocol(level4), s1, es).ce, last, level4);
  }

  // ---------------------------------------------- what each step decides

  /** Looks that ceHandler acts on: a frame that has arrived, and the request of a reader
      for ISO-DEP among them. */
  predicate SeesFrame(s: Ce, k: Look) {
    s.enabled && (k.lm.ActiveA? || k.lm.ActiveAx?) && k.dataFlag
  }

  predicate SeesRats(s: Ce, k: Look) {
    SeesFrame(s, k) && k.isRats
  }

  /** Call by call, when ceHandler makes it. */
  lemma HandlerCalls(s: Ce, k: Look, level4: bool)
    ensures var calls := OnHandler(s, k, level4).1;
      && (StartActivation in calls <==> level4 && SeesRats(s, k))
      && (ListenSetState(CardEmu4A) in calls <==> level4 && SeesRats(s, k))
      && (ListenSetState(Idle) in calls <==> !level4 && SeesRats(s, k) && k.rcvd > 0 && k.lm.ActiveA?)
      && (ListenSleepStart in calls <==>
            SeesFrame(s, k) && if k.isRats then !level4 && k.rcvd > 0 && k.lm.ActiveAx? else k.isSleepReq)
      && (GetStatus in calls <==>
            s.enabled && (k.lm.ActiveA? || k.lm.ActiveAx?) && !k.dataFlag && !s.firstA3)
      && (GetActivationStatus in calls <==> s.enabled && k.lm.CardEmu4A? && !s.activated)
      && (ListenStart in calls <==> k.status.ErrLinkLoss? && (GetStatus in calls || GetActivationStatus in calls))
  {
  }

  /** And which flags it leaves. A link that is lost forgets everything but the activation. */
  lemma HandlerFlags(s: Ce, k: Look, level4: bool)
    ensures var (s1, calls) := OnHandler(s, k, level4);
      && s1.enabled == s.enabled
      && (s1.activated <==> s.activated || (GetActivationStatus in calls && k.status.ErrNone?))
      && (s1.firstA3 <==> s.firstA3 || ListenStart in calls)
      && (s1.rxReady <==>
            (SeesFrame(s, k) && !k.isRats && !k.isSleepReq && k.rcvd > 0)
            || (s.rxReady && !(ListenStart in calls && GetStatus in calls)))
      && (s1.txReady <==> s.txReady && !(ListenStart in calls && GetStatus in calls))
  {
  }

  /** When ceGetRx delivers, and how many bytes: the length counts bytes once the card is
      activated, and bits, of which a last group of fewer than eight counts as a byte. */
  lemma Deliveries(s: Ce, k: Rx)
    ensures var (s1, calls, err, size) := OnGetRx(s, k);
      && (err.ErrNone? <==>
            if s.activated then k.status.ErrNone?
            else if s.firstA3 then s.rxReady
            else k.status.ErrNone? && k.rcvd > 0)
      && (err.ErrNone? ==> if s.activated then size == k.rcvd else 8 * size < k.rcvd + 8 && k.rcvd <= 8 * size)
      && (err.ErrNone? ==> s1 == s.(rxReady := false, txReady := true))
      && (ListenStart in calls <==>
            (s.activated || !s.firstA3) && !k.status.ErrNone? && !k.status.ErrBusy?
            && !(s.activated && k.status.ErrAgain?))
      && (s1.activated <==> s.activated && ListenStart !in calls)
      && (s1.firstA3 <==> s.firstA3 || ListenStart in calls)
      && (IsoDepGetStatus in calls <==> s.activated)
  {
  }

  /** Which call a reply goes out through, when ceSetTx puts the card to sleep, and what is
      left waiting: nothing goes out unless a frame was delivered. */
  lemma Replies(s: Ce, reply: seq<byte>, bits: nat, reset: bool, k: Tx)
    ensures var (s1, calls, err) := OnSetTx(s, reply, bits, reset, k);
      && (IsoDepStart(reply) in calls <==> s.txReady && s.activated)
      && (StartTransceive(reply, bits) in calls <==> s.txReady && !s.activated && (reset ==> bits > 0))
      && (ListenSleepStart in calls <==> s.txReady && !s.activated && reset)
      && (s1.txReady <==> s.txReady && !(reset && !s.activated) && !k.status.ErrNone?)
      && (s1.firstA3 <==>
            if s.txReady && !s.activated then reset || (s.firstA3 && !k.status.ErrNone?) else s.firstA3)
      && (s1.rxReady <==> s.rxReady && !(s.txReady && (k.status.ErrNone? || (reset && !s.activated))))
      && s1.activated == s.activated && (!s.txReady ==> calls == [] && err.ErrNotFound?)
      && (s.txReady && (s.activated || !reset) ==> err == k.status)
      && (s.txReady && !s.activated && reset ==>
            if bits == 0 then err.ErrNotFound?
            else if k.inRx then err.ErrNone?
            else k.polls != [] ==> err == k.polls[|k.polls| - 1].status)
  {
    NoListenInPolls(|k.polls|);
  }

  /** A reader that asks for ISO-DEP is answered: with level 4 the request, an activation
      that the library reports done, and a command lead to these calls, with the reply of
      the command handler in the last. */
  lemma ActivatedExchange(s: Ce, rats: Look, done: Look, rx: Rx, pending: nat, reply: seq<byte>, bits: nat,
                          reset: bool, tx: Tx)
    requires s.enabled && !s.activated && (rats.lm.ActiveA? || rats.lm.ActiveAx?) && rats.dataFlag && rats.isRats
    requires done.lm.CardEmu4A? && done.status.ErrNone? && rx.status.ErrNone?
    ensures var es := [Handle(rats), Handle(done), Get(rx), Process(pending), Set(reply, bits, reset, tx)];
      var w := Play(Protocol(true), s, es);
      && w.calls == [ListenSetState(CardEmu4A), StartActivation]
           + [GetActivationStatus, IsoDepGetStatus, IsoDepStart(reply)]
      && w.delivered == 1 && w.ce.activated && w.replied == if tx.status.ErrNone? then 1 else 0
  {
    var step := Protocol(true);
    var s1 := Effect(s, Handle(rats), true).ce;
    var s2 := Effect(s1, Handle(done), true).ce;
    var s3 := Effect(s2, Get(rx), true).ce;
    var front, back := [Handle(rats), Handle(done)], [Process(pending), Set(reply, bits, reset, tx)];
    PlayTwo(step, s, Handle(rats), Handle(done));
    PlayTwo(step, s3, Process(pending), Set(reply, bits, reset, tx));
    PlayOne(step, s2, Get(rx));
    PlayConcat(step, s2, [Get(rx)], back);
    PlayConcat(step, s, front, [Get(rx)] + back);
    assert front + ([Get(rx)] + back)
      == [Handle(rats), Handle(done), Get(rx), Process(pending), Set(reply, bits, reset, tx)];
  }

  /** Without level 4 nothing ever starts an activation. */
  lemma {:induction false} NeverActivates(s: Ce, es: seq<Event>)
    ensures var calls := Play(Protocol(false), s, es).calls;
      StartActivation !in calls && ListenSetState(CardEmu4A) !in calls
    decreases |es|
  {
    if es != [] {
      EffectActivates(s, es[0], false);
      NeverActivates(Effect(s, es[0], false).ce, es[1..]);
    }
  }

  /** Only ceHandler on such a request does. */
  lemma EffectActivates(s: Ce, e: Event, level4: bool)
    ensures StartActivation in Effect(s, e, level4).calls <==> e.Handle? && level4 && SeesRats(s, e.look)
    ensures ListenSetState(CardEmu4A) in Effect(s, e, level4).calls <==> e.Handle? && level4 && SeesRats(s, e.look)
  {
    match e
    case Handle(look) => HandlerCalls(s, look, level4);
    case Set(reply, bits, reset, tx) => NoListenInPolls(|tx.polls|);
    case _ =>
  }

  /** The card counts as activated only after its status was asked for and found good. */
  lemma {:induction false} ActivatedBy(s: Ce, es: seq<Event>, level4: bool) returns (k: nat)
    requires !s.activated && Play(Protocol(level4), s, es).ce.activated
    ensures k < |es| && es[k].Handle? && es[k].look.lm.CardEmu4A? && es[k].look.status.ErrNone?
    ensures GetActivationStatus in Effect(Play(Protocol(level4), s, es[..k]).ce, es[k], level4).calls
    decreases |es|
  {
    var s1 := Effect(s, es[0], level4).ce;
    if s1.activated {
      k := 0;
      assert es[..0] == [];
    } else {
      k := ActivatedBy(s1, es[1..], level4);
      assert es[..k + 1][0] == es[0] && es[..k + 1][1..] == es[1..][..k];
      k := k + 1;
    }
  }

  /** An event that forgets a pending compatibility write: listening starts again, or
      ceSetTx puts the card to sleep. A halt that ceHandler sees itself is none. */
  predicate Forgets(s: Ce, e: Event, level4: bool) {
    var calls := Effect(s, e, level4).calls;
    ListenStart in calls || (e.Set? && ListenSleepStart in calls)
  }

  predicate Forgotten(s: Ce, es: seq<Event>, level4: bool)
    decreases |es|
  {
    es != [] && (Forgets(s, es[0], level4) || Forgotten(Effect(s, es[0], level4).ce, es[1..], level4))
  }

  /** While no command is processed the pending page stays exactly until such an event. */
  lemma {:induction false} PendingAfter(s: Ce, es: seq<Event>, level4: bool)
    requires forall k :: 0 <= k < |es| ==> !es[k].Process?
    ensures Play(Protocol(level4), s, es).ce.pending == if Forgotten(s, es, level4) then 0 else s.pending
    decreases |es|
  {
    if es != [] {
      EffectPending(s, es[0], level4);
      PendingAfter(Effect(s, es[0], level4).ce, es[1..], level4);
    }
  }

  lemma EffectPending(s: Ce, e: Event, level4: bool)
    requires !e.Process?
    ensures Effect(s, e, level4).ce.pending == if Forgets(s, e, level4) then 0 else s.pending
  {
    match e
    case Handle(look) => HandlerPending(s, look, level4);
    case Get(rx) => GetRxPending(s, rx);
    case Set(reply, bits, reset, tx) => SetTxPending(s, reply, bits, reset, tx);
    case Restart =>
  }

  lemma HandlerPending(s: Ce, k: Look, level4: bool)
    ensures OnHandler(s, k, level4).0.pending == if ListenStart in OnHandler(s, k, level4).1 then 0 else s.pending
  {
  }

  lemma GetRxPending(s: Ce, k: Rx)
    ensures OnGetRx(s, k).0.pending == if ListenStart in OnGetRx(s, k).1 then 0 else s.pending
  {
  }

  lemma {:induction false} NoListenInPolls(n: nat)
    ensures ListenStart !in Polls(n) && ListenSleepStart !in Polls(n) && forall c <- Polls(n) :: c.GetStatus?
  {
    if n > 0 {
      NoListenInPolls(n - 1);
    }
  }

  lemma SetTxPending(s: Ce, reply: seq<byte>, bits: nat, reset: bool, k: Tx)
    ensures var (s1, calls, _) := OnSetTx(s, reply, bits, reset, k);
      ListenStart !in calls && s1.pending == if ListenSleepStart in calls then 0 else s.pending
  {
    NoListenInPolls(|k.polls|);
  }

  /** ceStart without ceInit before it does not put isFirstA3_Frame back: what follows is
      in order, whatever it is, exactly when the flag happens to be set. */
  lemma StartAlone(s: Ce)
    ensures (forall es: seq<Event>, level4: bool ::
      Legal([ListenStart] + Play(Protocol(level4), s.(enabled := true), es).calls, false)) <==> s.firstA3
  {
    var s1 := s.(enabled := true);
    if s.firstA3 {
      forall es: seq<Event>, level4: bool
        ensures Legal([ListenStart] + Play(Protocol(level4), s1, es).calls, false)
      {
        PlayKeeps(s1, es, level4, false);
        OneCall(ListenStart, false);
        LegalConcat([ListenStart], Play(Protocol(level4), s1, es).calls, false);
      }
    } else {
      var look := Handle(Look(ActiveA, false, false, false, 0, ErrBusy));
      StatusAtOnce(s1, look.look);
      assert !Legal([ListenStart] + Play(Protocol(false), s1, [look]).calls, false);
    }
  }

  lemma StatusAtOnce(s: Ce, k: Look)
    requires s.enabled && !s.firstA3 && Active(k.lm) && !k.dataFlag && k.status.ErrBusy?
    ensures !Legal([ListenStart] + Play(Protocol(false), s, [Handle(k)]).calls, false)
  {
    PlayOne(Protocol(false), s, Handle(k));
    var calls := [ListenStart] + Play(Protocol(false), s, [Handle(k)]).calls;
    assert calls == [ListenStart, GetStatus] && calls[1..] == [GetStatus];
  }

  // -------------------------------------------------------------- sessions

  /** The frame that a turn delivers. */
  function Delivered(s: Ce, rxtx: seq<byte>, r: Round, level4: bool): (f: seq<U.Frame>)
    requires |rxtx| == BUF_SIZE
    ensures |f| <= 1 && forall k :: 0 <= k < |f| ==> |f[k].buf| == BUF_SIZE
  {
    var (_, _, err, size) := OnReceive(s, r, level4);
    if err.ErrNone? && Fits(r.rx) then [Frame(r.rx.data, r.rx.rcvd, size, rxtx)] else []
  }

  /** The events of a turn. */
  function Events(s: Ce, m: Store, rxtx: seq<byte>, r: Round, level4: bool, mifare: bool): seq<Event>
    requires ValidStore(m) && |rxtx| == BUF_SIZE
  {
    var fs := Delivered(s, rxtx, r, level4);
    [Handle(r.look), Get(r.rx)] + (if fs == [] then [] else Answered(s, m, rxtx, r, fs[0], level4, mifare))
  }

  function Answered(s: Ce, m: Store, rxtx: seq<byte>, r: Round, f: U.Frame, level4: bool, mifare: bool): seq<Event>
    requires ValidStore(m) && |f.buf| == BUF_SIZE
  {
    var p := OnProcess(OnReceive(s, r, level4).0.pending, m, mifare, r.lm, f);
    if p.Undefined? then [] else [Process(p.pending), Set(p.reply.bytes, p.reply.bits, p.reply.reset, r.tx)]
  }

  /** The turn's two steps before the handler, and its two after it. */
  lemma FourEvents(step: (Ce, Event) -> World, s: Ce, a: Event, b: Event, es: seq<Event>)
    requires |es| == 2
    ensures var s2 := step(step(s, a).ce, b).ce; var s3 := step(s2, es[0]).ce;
      Play(step, s, [a, b] + es)
        == Then(Then(step(s, a), step(step(s, a).ce, b)), Then(step(s2, es[0]), step(s3, es[1])))
  {
    PlayTwo(step, s, a, b);
    assert es == [es[0], es[1]];
    PlayConcat(step, s, [a, b], es);
    PlayTwo(step, step(step(s, a).ce, b).ce, es[0], es[1]);
  }

  lemma Received(s: Ce, rxtx: seq<byte>, r: Round, level4: bool)
    ensures var (s2, c2, _, _) := OnReceive(s, r, level4);
      var x := Effect(s, Handle(r.look), level4);
      var w := Then(x, Effect(x.ce, Get(r.rx), level4));
      w.ce == s2 && w.calls == c2
  {
  }

  lemma Replied(s: Ce, m: Store, f: U.Frame, r: Round, level4: bool, mifare: bool)
    requires ValidStore(m) && |f.buf| == BUF_SIZE && OnProcess(s.pending, m, mifare, r.lm, f).Processed?
    ensures var p := OnProcess(s.pending, m, mifare, r.lm, f);
      var x := Effect(s, Process(p.pending), level4);
      var y := Effect(x.ce, Set(p.reply.bytes, p.reply.bits, p.reply.reset, r.tx), level4);
      OnExchange(s, m, f, r, mifare)
        == Done(Then(x, y).ce, p.store, Then(x, y).calls, Overlaid(f.buf, p.reply.bytes))
  {
    var p := OnProcess(s.pending, m, mifare, r.lm, f);
    assert forall calls: seq<Call> :: [] + calls == calls;
  }

  lemma QuietTurn(s: Ce, m: Store, rxtx: seq<byte>, r: Round, level4: bool, mifare: bool)
    requires ValidStore(m) && |rxtx| == BUF_SIZE && OnTurn(s, m, rxtx, r, level4, mifare).Done?
    requires Delivered(s, rxtx, r, level4) == []
    ensures var o := OnTurn(s, m, rxtx, r, level4, mifare);
      var w := Play(Protocol(level4), s, Events(s, m, rxtx, r, level4, mifare));
      o.ce == w.ce && o.calls == w.calls
  {
    var a, b := Handle(r.look), Get(r.rx);
    assert [a, b] + [] == [a, b];
    PlayTwo(Protocol(level4), s, a, b);
    Received(s, rxtx, r, level4);
  }

  lemma AnsweredTurn(s: Ce, m: Store, rxtx: seq<byte>, r: Round, level4: bool, mifare: bool)
    requires ValidStore(m) && |rxtx| == BUF_SIZE && OnTurn(s, m, rxtx, r, level4, mifare).Done?
    requires Delivered(s, rxtx, r, level4) != []
    ensures var o := OnTurn(s, m, rxtx, r, level4, mifare);
      var w := Play(Protocol(level4), s, Events(s, m, rxtx, r, level4, mifare));
      o.ce == w.ce && o.calls == w.calls
  {
    var f := Delivered(s, rxtx, r, level4)[0];
    var a, b := Handle(r.look), Get(r.rx);
    var es := Answered(s, m, rxtx, r, f, level4, mifare);
    FourEvents(Protocol(level4), s, a, b, es);
    Received(s, rxtx, r, level4);
    Replied(OnReceive(s, r, level4).0, m, f, r, level4, mifare);
  }

  lemma TurnIsEvents(s: Ce, m: Store, rxtx: seq<byte>, r: Round, level4: bool, mifare: bool)
    requires ValidStore(m) && |rxtx| == BUF_SIZE && OnTurn(s, m, rxtx, r, level4, mifare).Done?
    ensures var o := OnTurn(s, m, rxtx, r, level4, mifare);
      var w := Play(Protocol(level4), s, Events(s, m, rxtx, r, level4, mifare));
      o.ce == w.ce && o.calls == w.calls
  {
    if Delivered(s, rxtx, r, level4) == [] {
      QuietTurn(s, m, rxtx, r, level4, mifare);
    } else {
      AnsweredTurn(s, m, rxtx, r, level4, mifare);
    }
  }

  function Begin(m: Store, rxtx: seq<byte>): Outcome {
    Done(Begun(), m, [ListenStart], rxtx)
  }

  /** Another turn. The buffer is as the turn before left it. */
  function Next(o: Outcome, r: Round, level4: bool, mifare: bool): (o1: Outcome)
    requires o.Done? && ValidOutcome(o)
    ensures ValidOutcome(o1)
  {
    var x := OnTurn(o.ce, o.store, o.rxtx, r, level4, mifare);
    if x.Lost? then Lost else x.(calls := o.calls + x.calls)
  }

  /** A run of turns, as far as the handler and the copies have a defined outcome. */
  function Run(o: Outcome, rs: seq<Round>, level4: bool, mifare: bool): (o1: Outcome)
    requires ValidOutcome(o)
    ensures ValidOutcome(o1) && (o1.Done? ==> o.Done?)
    decreases |rs|
  {
    if o.Lost? || rs == [] then o else Run(Next(o, rs[0], level4, mifare), rs[1..], level4, mifare)
  }

  function AllEvents(o: Outcome, rs: seq<Round>, level4: bool, mifare: bool): seq<Event>
    requires ValidOutcome(o)
    decreases |rs|
  {
    if o.Lost? || rs == [] then []
    else
      var o1 := Next(o, rs[0], level4, mifare);
      Events(o.ce, o.store, o.rxtx, rs[0], level4, mifare) + AllEvents(o1, rs[1..], level4, mifare)
  }

  /** A session is a run of events, so all that those keep is kept. */
  lemma {:induction false} SessionIsEvents(o: Outcome, rs: seq<Round>, level4: bool, mifare: bool)
    requires o.Done? && ValidOutcome(o) && Run(o, rs, level4, mifare).Done?
    ensures var w := Play(Protocol(level4), o.ce, AllEvents(o, rs, level4, mifare));
      Run(o, rs, level4, mifare).ce == w.ce && Run(o, rs, level4, mifare).calls == o.calls + w.calls
    decreases |rs|
  {
    if rs == [] {
      assert o.calls + [] == o.calls;
    } else {
      var o1 := Next(o, rs[0], level4, mifare);
      var a, b := Events(o.ce, o.store, o.rxtx, rs[0], level4, mifare), AllEvents(o1, rs[1..], level4, mifare);
      TurnIsEvents(o.ce, o.store, o.rxtx, rs[0], level4, mifare);
      SessionIsEvents(o1, rs[1..], level4, mifare);
      PlayConcat(Protocol(level4), o.ce, a, b);
      Join(o.calls, Play(Protocol(level4), o.ce, a).calls, Play(Protocol(level4), o1.ce, b).calls);
    }
  }

  /** Every session from ceInit and ceStart, with either command handler: the calls are in
      order, and the frames delivered and replies started are those of its events. */
  lemma SessionKeeps(m: Store, rxtx: seq<byte>, rs: seq<Round>, level4: bool, mifare: bool, k: nat)
    requires ValidStore(m) && |rxtx| == BUF_SIZE && Run(Begin(m, rxtx), rs, level4, mifare).Done?
    ensures var o := Run(Begin(m, rxtx), rs, level4, mifare);
      k < |o.calls| && o.calls[k].GetStatus? ==> exists j: nat :: j < k && StartedAt(o.calls, j, k)
    ensures var o := Run(Begin(m, rxtx), rs, level4, mifare);
      var w := Play(Protocol(level4), Begun(), AllEvents(Begin(m, rxtx), rs, level4, mifare));
      o.ce == w.ce && o.calls == [ListenStart] + w.calls && w.replied + Due(o.ce) <= w.delivered
  {
    var es := AllEvents(Begin(m, rxtx), rs, level4, mifare);
    SessionIsEvents(Begin(m, rxtx), rs, level4, mifare);
    PlayKeeps(Begun(), es, level4, false);
    OneCall(ListenStart, false);
    var calls := Run(Begin(m, rxtx), rs, level4, mifare).calls;
    LegalConcat([ListenStart], Play(Protocol(level4), Begun(), es).calls, false);
    if k < |calls| && calls[k].GetStatus? {
      var j := LegalMeans(calls, k);
      assert StartedAt(calls, j, k);
    }
  }

  // ------------------------------------------------- sessions of each handler

  /** Forgetting the pending page is what the loss of the field does to the tag. */
  function Off(forgotten: bool): (es: seq<U.Event>)
    ensures forall k :: 0 <= k < |es| ==> |es[k].frame.buf| >= 16
  {
    if forgotten then [U.Event(OtherState, U.Frame(U.BLANK, 0))] else []
  }

  /** What the tag sees of a turn. */
  function TagEvents(s: Ce, m: Store, rxtx: seq<byte>, r: Round, level4: bool): (es: seq<U.Event>)
    requires ValidStore(m) && |rxtx| == BUF_SIZE
    ensures forall k :: 0 <= k < |es| ==> |es[k].frame.buf| >= 16
  {
    var (s2, calls, _, _) := OnReceive(s, r, level4);
    var fs := Delivered(s, rxtx, r, level4);
    Off(ListenStart in calls) + if fs == [] then [] else FrameEvents(s2, m, fs[0], r)
  }

  function FrameEvents(s: Ce, m: Store, f: U.Frame, r: Round): (es: seq<U.Event>)
    requires ValidStore(m) && |f.buf| == BUF_SIZE
    ensures forall k :: 0 <= k < |es| ==> |es[k].frame.buf| >= 16
  {
    [U.Event(r.lm, f)] + Off(Sleeps(s, m, f, r))
  }

  predicate Sleeps(s: Ce, m: Store, f: U.Frame, r: Round)
    requires ValidStore(m) && |f.buf| == BUF_SIZE
  {
    var o := OnExchange(s, m, f, r, true);
    o.Done? && ListenSleepStart in o.calls
  }

  lemma {:induction false} TagRunConcat(t: U.Tag, a: seq<U.Event>, b: seq<U.Event>)
    requires |t.mem| == U.DATA_SIZE && U.ValidEvents(a) && U.ValidEvents(b)
    ensures U.ValidEvents(a + b) && U.Run(t, a + b) == U.Run(U.Run(t, a), b)
    decreases |a|
  {
    if a == [] {
      assert a + b == b;
    } else {
      assert U.ValidFrame(a[0].frame) && (a + b)[1..] == a[1..] + b;
      TagRunConcat(U.Step(t, a[0].state, a[0].frame).0, a[1..], b);
    }
  }

  lemma OneTagEvent(t: U.Tag, e: U.Event)
    requires |t.mem| == U.DATA_SIZE && U.ValidFrame(e.frame)
    ensures U.Run(t, [e]) == U.Step(t, e.state, e.frame).0
  {
    assert [e][1..] == [];
  }

  lemma OffRuns(t: U.Tag, forgotten: bool)
    requires |t.mem| == U.DATA_SIZE
    ensures U.Run(t, Off(forgotten)) == if forgotten then U.Tag(t.mem, 0) else t
  {
    OneTagEvent(t, U.Event(OtherState, U.Frame(U.BLANK, 0)));
  }

  lemma ReceivedTag(s: Ce, mem: seq<byte>, r: Round, level4: bool)
    requires |mem| == U.DATA_SIZE
    ensures var (s2, calls, _, _) := OnReceive(s, r, level4);
      U.Run(U.Tag(mem, s.pending), Off(ListenStart in calls)) == U.Tag(mem, s2.pending)
  {
    HandlerPending(s, r.look, level4);
    GetRxPending(OnHandler(s, r.look, level4).0, r.rx);
    OffRuns(U.Tag(mem, s.pending), ListenStart in OnReceive(s, r, level4).1);
  }

  lemma RepliedTag(s: Ce, m: Store, f: U.Frame, r: Round)
    requires ValidStore(m) && |f.buf| == BUF_SIZE
    ensures var o := OnExchange(s, m, f, r, true);
      o.Done? && o.store.files == m.files
      && U.Run(U.Tag(m.mem, s.pending), FrameEvents(s, m, f, r)) == U.Tag(o.store.mem, o.ce.pending)
  {
    var tag, e := U.Tag(m.mem, s.pending), U.Event(r.lm, f);
    var (tag1, reply) := U.Step(tag, r.lm, f);
    SetTxPending(s.(pending := tag1.pending), reply.bytes, reply.bits, reply.reset, r.tx);
    OneTagEvent(tag, e);
    OffRuns(tag1, Sleeps(s, m, f, r));
    TagRunConcat(tag, [e], Off(Sleeps(s, m, f, r)));
  }

  lemma TurnTag(s: Ce, m: Store, rxtx: seq<byte>, r: Round, level4: bool)
    requires ValidStore(m) && |rxtx| == BUF_SIZE && OnTurn(s, m, rxtx, r, level4, true).Done?
    ensures var o := OnTurn(s, m, rxtx, r, level4, true);
      && o.store.files == m.files
      && U.Run(U.Tag(m.mem, s.pending), TagEvents(s, m, rxtx, r, level4)) == U.Tag(o.store.mem, o.ce.pending)
  {
    var (s2, calls, _, _) := OnReceive(s, r, level4);
    var off := Off(ListenStart in calls);
    ReceivedTag(s, m.mem, r, level4);
    var fs := Delivered(s, rxtx, r, level4);
    if fs == [] {
      assert off + [] == off;
    } else {
      RepliedTag(s2, m, fs[0], r);
      TagRunConcat(U.Tag(m.mem, s.pending), off, FrameEvents(s2, m, fs[0], r));
    }
  }

  function AllTagEvents(o: Outcome, rs: seq<Round>, level4: bool): (es: seq<U.Event>)
    requires ValidOutcome(o)
    ensures forall k :: 0 <= k < |es| ==> |es[k].frame.buf| >= 16
    decreases |rs|
  {
    if o.Lost? || rs == [] then []
    else TagEvents(o.ce, o.store, o.rxtx, rs[0], level4) + AllTagEvents(Next(o, rs[0], level4, true), rs[1..], level4)
  }

  /** A session of the Ultralight handler is a run of the tag over the frames delivered, in
      which a forgotten page counts as a loss of the field. */
  lemma {:induction false} TagSession(o: Outcome, rs: seq<Round>, level4: bool)
    requires o.Done? && ValidOutcome(o) && Run(o, rs, level4, true).Done?
    ensures var o1 := Run(o, rs, level4, true);
      && U.Tag(o1.store.mem, o1.ce.pending) == U.Run(U.Tag(o.store.mem, o.ce.pending), AllTagEvents(o, rs, level4))
      && o1.store.files == o.store.files
    decreases |rs|
  {
    if rs != [] {
      var o1 := Next(o, rs[0], level4, true);
      TurnTag(o.ce, o.store, o.rxtx, rs[0], level4);
      TagSession(o1, rs[1..], level4);
      var a, b := TagEvents(o.ce, o.store, o.rxtx, rs[0], level4), AllTagEvents(o1, rs[1..], level4);
      TagRunConcat(U.Tag(o.store.mem, o.ce.pending), a, b);
    }
  }

  /** So what the tag never loses is kept over every such session. */
  lemma TagSessionKeeps(m: Store, rxtx: seq<byte>, rs: seq<Round>, level4: bool)
    requires ValidStore(m) && |rxtx| == BUF_SIZE && Run(Begin(m, rxtx), rs, level4, true).Done?
    ensures U.Kept(m.mem, Run(Begin(m, rxtx), rs, level4, true).store.mem)
  {
    TagSession(Begin(m, rxtx), rs, level4);
    U.RunKeeps(U.Tag(m.mem, 0), AllTagEvents(Begin(m, rxtx), rs, level4));
  }

  /** The commands that the Type 4 handler is given. */
  function Commands(o: Outcome, rs: seq<Round>, level4: bool): (cs: seq<T.Call>)
    requires ValidOutcome(o)
    ensures forall k :: 0 <= k < |cs| ==> |cs[k].buf| == BUF_SIZE
    decreases |rs|
  {
    if o.Lost? || rs == [] then []
    else Command(o.ce, o.rxtx, rs[0], level4) + Commands(Next(o, rs[0], level4, false), rs[1..], level4)
  }

  function Command(s: Ce, rxtx: seq<byte>, r: Round, level4: bool): (cs: seq<T.Call>)
    requires |rxtx| == BUF_SIZE
    ensures |cs| <= 1 && forall k :: 0 <= k < |cs| ==> |cs[k].buf| == BUF_SIZE
  {
    var fs := Delivered(s, rxtx, r, level4);
    if fs == [] then [] else [T.Call(r.lm, fs[0].buf)]
  }

  lemma TurnFiles(s: Ce, m: Store, rxtx: seq<byte>, r: Round, level4: bool, more: seq<T.Call>)
    requires ValidStore(m) && |rxtx| == BUF_SIZE && OnTurn(s, m, rxtx, r, level4, false).Done?
    requires T.ValidCalls(more)
    ensures T.ValidCalls(Command(s, rxtx, r, level4) + more)
    ensures var o := OnTurn(s, m, rxtx, r, level4, false);
      o.store.mem == m.mem && T.Run(m.files, Command(s, rxtx, r, level4) + more) == T.Run(o.store.files, more)
  {
    var cs := Command(s, rxtx, r, level4);
    if cs == [] {
      assert cs + more == more;
    } else {
      assert (cs + more)[1..] == more;
    }
  }

  /** A session of the Type 4 handler is a run of the file system over the commands
      delivered, so that what holds of such runs holds of sessions. */
  lemma {:induction false} FileSession(o: Outcome, rs: seq<Round>, level4: bool)
    requires o.Done? && ValidOutcome(o) && Run(o, rs, level4, false).Done?
    ensures var o1 := Run(o, rs, level4, false);
      o1.store.files == T.Run(o.store.files, Commands(o, rs, level4)) && o1.store.mem == o.store.mem
    decreases |rs|
  {
    if rs != [] {
      var o1 := Next(o, rs[0], level4, false);
      TurnFiles(o.ce, o.store, o.rxtx, rs[0], level4, Commands(o1, rs[1..], level4));
      FileSession(o1, rs[1..], level4);
    }
  }

  /** Each byte of the NDEF file after a session is that of the last UPDATE in it that was
      answered with success, and the capability container is as before. */
  lemma FileSessionBytes(m: Store, rxtx: seq<byte>, rs: seq<Round>, level4: bool, a: nat)
    requires ValidStore(m) && |rxtx| == BUF_SIZE && Run(Begin(m, rxtx), rs, level4, false).Done? && a < T.NDEF_SIZE
    ensures var cs := Commands(Begin(m, rxtx), rs, level4);
      var f := Run(Begin(m, rxtx), rs, level4, false).store.files;
      f.ndef[a] == ByteAt(m.files.ndef, T.Patches(m.files, cs), a) && f.cc == m.files.cc
  {
    FileSession(Begin(m, rxtx), rs, level4);
    T.RunBytes(m.files, Commands(Begin(m, rxtx), rs, level4), a);
    T.CcKept(m.files, Commands(Begin(m, rxtx), rs, level4));
  }

  // --------------------------------------------------- a frame and its reply

  /** A layer-3 frame is there for the taking: the first one because the handler saw it
      arrive, a later one because the transceive is over. */
  predicate Arrived(s: Ce, r: Round) {
    s.enabled && !s.activated && Active(r.look.lm) && r.rx.rcvd > 0 &&
    if s.firstA3 then r.look.dataFlag && !r.look.isRats && !r.look.isSleepReq && r.look.rcvd > 0
    else !r.look.dataFlag && !r.look.status.ErrLinkLoss? && r.rx.status.ErrNone?
  }

  /** The calls and flags after a reply of a handler to a layer-3 frame. */
  predicate Sent(calls: seq<Call>, s: Ce, p: Processed, k: Tx)
    requires p.Processed?
  {
    var start := StartTransceive(p.reply.bytes, p.reply.bits);
    calls != [] &&
    if p.reply.reset then
      && (p.reply.bits > 0 ==> start in calls) && calls[|calls| - 1] == ListenSleepStart
      && s.pending == 0 && s.firstA3 && !s.txReady
    else
      && calls[|calls| - 1] == start && s.pending == p.pending
      && (k.status.ErrNone? <==> !s.txReady) && (k.status.ErrNone? ==> !s.firstA3)
  }

  lemma ReplySent(s: Ce, p: Processed, k: Tx)
    requires p.Processed? && s.txReady && !s.activated
    ensures var (s1, calls, _) := OnSetTx(s.(pending := p.pending), p.reply.bytes, p.reply.bits, p.reply.reset, k);
      Sent(calls, s1, p, k)
  {
  }

  lemma SentAfter(a: seq<Call>, b: seq<Call>, s: Ce, p: Processed, k: Tx)
    requires p.Processed? && Sent(b, s, p, k)
    ensures Sent(a + b, s, p, k)
  {
    assert forall c <- b :: c in a + b;
  }

  lemma ArrivedIsTaken(s: Ce, r: Round, level4: bool)
    requires Arrived(s, r)
    ensures var (s2, _, err, size) := OnReceive(s, r, level4);
      err.ErrNone? && s2.txReady && !s2.activated && s2.pending == s.pending && size == BytesOf(r.rx.rcvd)
  {
  }

  /** Such a frame is delivered as received, and what goes out in the same turn is the
      handler's reply to it; after a negative reply, or none, the emulation goes to sleep. */
  lemma FrameAnswered(s: Ce, m: Store, rxtx: seq<byte>, r: Round, level4: bool, mifare: bool)
    requires |rxtx| == BUF_SIZE && ValidStore(m) && Arrived(s, r) && Fits(r.rx)
    ensures var o, rx := OnTurn(s, m, rxtx, r, level4, mifare), r.rx;
      var p := OnProcess(s.pending, m, mifare, r.lm, Frame(rx.data, rx.rcvd, BytesOf(rx.rcvd), rxtx));
      if p.Undefined? then o.Lost? else o.Done? && o.store == p.store && Sent(o.calls, o.ce, p, r.tx)
  {
    var (s2, calls, _, size) := OnReceive(s, r, level4);
    ArrivedIsTaken(s, r, level4);
    AnswerSent(s2, m, Frame(r.rx.data, r.rx.rcvd, size, rxtx), r, calls, mifare);
  }

  /** The length of such a frame counts bits and as many bytes are copied, so with the
      receive buffer as large as it is, a turn has a defined outcome for a frame of whole
      bytes only up to 32 of them; with the Ultralight handler exactly up to there. */
  lemma FrameFits(s: Ce, m: Store, rxtx: seq<byte>, r: Round, b: nat, level4: bool, mifare: bool)
    requires |rxtx| == BUF_SIZE && ValidStore(m) && Arrived(s, r)
    requires |r.rx.data| == RX_BUF_LENGTH && r.rx.rcvd == 8 * b
    ensures Fits(r.rx) <==> b <= 32
    ensures OnTurn(s, m, rxtx, r, level4, mifare).Done? ==> b <= 32
    ensures OnTurn(s, m, rxtx, r, level4, true).Done? <==> b <= 32
  {
    ArrivedIsTaken(s, r, level4);
    if b <= 32 {
      FrameAnswered(s, m, rxtx, r, level4, true);
    }
  }

  lemma AnswerSent(s: Ce, m: Store, f: U.Frame, r: Round, before: seq<Call>, mifare: bool)
    requires ValidStore(m) && |f.buf| == BUF_SIZE && s.txReady && !s.activated
    ensures var p, x := OnProcess(s.pending, m, mifare, r.lm, f), OnExchange(s, m, f, r, mifare);
      if p.Undefined? then x.Lost? else x.Done? && x.store == p.store && Sent(before + x.calls, x.ce, p, r.tx)
  {
    var p, x := OnProcess(s.pending, m, mifare, r.lm, f), OnExchange(s, m, f, r, mifare);
    if p.Processed? {
      ReplySent(s, p, r.tx);
      SentAfter(before, x.calls, x.ce, p, r.tx);
    }
  }

  /** Once the card is activated a command that the library has is answered in the same
      turn through ISO-DEP, with the handler's reply. */
  lemma CommandAnswered(s: Ce, m: Store, rxtx: seq<byte>, r: Round, level4: bool, mifare: bool)
    requires |rxtx| == BUF_SIZE && ValidStore(m) && s.activated && r.look.lm.CardEmu4A?
    requires r.rx.status.ErrNone? && Fits(r.rx)
    ensures var o, rx := OnTurn(s, m, rxtx, r, level4, mifare), r.rx;
      var p := OnProcess(s.pending, m, mifare, r.lm, Frame(rx.data, rx.rcvd, rx.rcvd, rxtx));
      if p.Undefined? then o.Lost?
      else
        && o.Done? && o.store == p.store && o.ce.activated
        && o.calls == [IsoDepGetStatus, IsoDepStart(p.reply.bytes)] && (o.ce.txReady <==> !r.tx.status.ErrNone?)
  {
  }

  // ------------------------------------------------------------- the firmware

  /** The emulator and the shared buffer are where a run of the specification leaves them. */
  ghost predicate At(e: Emulator, rxtx: array<byte>, o: Outcome)
    reads e, e.card, e.card.ul_image, e.files, e.files.ccfile, e.files.ndefFile, rxtx
  {
    e.Valid() && o.Done? && e.Left(o, rxtx[..])
  }

  method Advance(e: Emulator, rxtx: array<byte>, round: Round, ghost o: Outcome) returns (defined: bool)
    requires o.Done? && ValidOutcome(o) && At(e, rxtx, o) && e.Apart(rxtx) && ValidTx(round.tx)
    modifies e, e.card`ul_cwrite_page_set, e.card.ul_image, e.files, e.files.ndefFile, rxtx
    ensures e.Valid() && defined == Next(o, round, e.level4, e.mifare).Done?
    ensures defined ==> At(e, rxtx, Next(o, round, e.level4, e.mifare))
  {
    defined := e.Turn(rxtx, round);
  }

  /** ceRun over and over, as far as its outcome is defined. */
  method Rounds(e: Emulator, rxtx: array<byte>, rounds: seq<Round>, ghost o: Outcome) returns (defined: bool)
    requires o.Done? && ValidOutcome(o) && At(e, rxtx, o) && e.Apart(rxtx)
    requires forall k :: 0 <= k < |rounds| ==> ValidTx(rounds[k].tx)
    modifies e, e.card`ul_cwrite_page_set, e.card.ul_image, e.files, e.files.ndefFile, rxtx
    ensures e.Valid() && defined == Run(o, rounds, e.level4, e.mifare).Done?
    ensures defined ==> At(e, rxtx, Run(o, rounds, e.level4, e.mifare))
  {
    defined := true;
    var i := 0;
    ghost var now := o;
    while i < |rounds| && defined
      invariant 0 <= i <= |rounds| && e.Valid()
      invariant ValidOutcome(now) && Run(now, rounds[i..], e.level4, e.mifare) == Run(o, rounds, e.level4, e.mifare)
      invariant defined == now.Done? && (defined ==> At(e, rxtx, now))
    {
      assert rounds[i..][0] == rounds[i] && rounds[i..][1..] == rounds[i + 1..];
      defined := Advance(e, rxtx, rounds[i], now);
      now := Next(now, rounds[i], e.level4, e.mifare);
      i := i + 1;
    }
  }

  /** The session of hydranfc_ce_common: ceInit, ceStart, and while that succeeded ceRun
      over and over, then ceStop. What the buffer held before it counts, too. */
  method Session(e: Emulator, rxtx: array<byte>, start: Status, rounds: seq<Round>) returns (defined: bool)
    requires e.Valid() && e.calls == [] && e.Apart(rxtx)
    requires forall k :: 0 <= k < |rounds| ==> ValidTx(rounds[k].tx)
    modifies e, e.card`ul_cwrite_page_set, e.card.ul_image, e.files, e.files.ndefFile, rxtx
    ensures !start.ErrNone? ==> defined && At(e, rxtx, Begin(old(e.Memory()), old(rxtx[..])))
    ensures start.ErrNone? ==>
      defined == Run(Begin(old(e.Memory()), old(rxtx[..])), rounds, e.level4, e.mifare).Done?
    ensures start.ErrNone? && defined ==>
      var o := Run(Begin(old(e.Memory()), old(rxtx[..])), rounds, e.level4, e.mifare);
      At(e, rxtx, o.(ce := Initial(), calls := o.calls + [ListenStop]))
  {
    ghost var o := Begin(e.Memory(), rxtx[..]);
    e.Init();
    var err := e.Start(start);
    defined := true;
    if err.ErrNone? {
      defined := Rounds(e, rxtx, rounds, o);
      if defined {
        e.Stop();
      }
    }
  }
}
