/** Reading identification codes: jtag_scan_idcode and jtag_print_idcodes of
    hydrabus_mode_jtag.c. */
module Idcode {
  import opened Bits
  import opened Bytes
  import opened Jtag
  import opened Pins
  import opened Registers
  import opened Tap
  import opened Words

  /** The tests of the loops on a word. */
  predicate Accepted(w: bv32) {
    w != 0xffffffff && Odd(w)
  }

  // -------------------------------------------------------- the two loops

  /** The n-th word as the code gets it. */
  function Shown<S>(e: Env<S>, s: S, msb: bool, n: nat): bv32 {
    Received(WordBits(e, s, n), msb)
  }

  /** Words without end, and the states between them: what a circuit shows to reads with
      TDI low. */
  datatype Tape<!S> = Tape(word: nat -> bv32, state: nat -> S)

  ghost predicate Plays<S>(e: Env<S>, msb: bool, t: Tape<S>) {
    forall n: nat {:trigger Shown(e, t.state(0), msb, n)} ::
      t.word(n) == Shown(e, t.state(0), msb, n) && t.state(n) == AfterWords(e, t.state(0), n)
  }

  function TapeOf<S>(e: Env<S>, s: S, w: nat -> bv32): Tape<S> {
    Tape(w, (n: nat) => AfterWords(e, s, n))
  }

  function FirstWords(w: nat -> bv32, n: nat): (ws: seq<bv32>)
    ensures |ws| == n
  {
    if n == 0 then [] else FirstWords(w, n - 1) + [w(n - 1)]
  }

  predicate AllAccepted(w: nat -> bv32, n: nat) {
    forall k :: 0 <= k < n ==> Accepted(w(k))
  }

  ghost predicate Ready<S>(m: Master<S>)
    reads m
  {
    !m.tck && !m.tms && !m.tdi
  }

  /** jtag_read_u32 as the loops use it. */
  method ReadIdcode<S>(m: Master<S>, ghost t: Tape<S>, ghost n: nat) returns (idcode: bv32)
    requires Ready(m) && Plays(m.env, m.msbFirst, t) && m.board == t.state(n)
    modifies m
    ensures Ready(m) && m.board == t.state(n + 1) && idcode == t.word(n)
  {
    ghost var s := t.state(0);
    assert t.word(n) == Shown(m.env, s, m.msbFirst, n);
    assert t.word(n + 1) == Shown(m.env, s, m.msbFirst, n + 1);
    NextWord(m.env, s, n, WORD);
    idcode := m.ReadU32();
  }

  /** The reading loop of the scan stops at the first word refused, or at the cap. */
  method CountIdcodes<S>(m: Master<S>, ghost t: Tape<S>) returns (n: nat, ghost words: seq<bv32>)
    requires Ready(m) && Plays(m.env, m.msbFirst, t) && m.board == t.state(0)
    modifies m
    ensures Ready(m) && n <= MAX_CHAIN_LEN && words == FirstWords(t.word, n) && AllAccepted(t.word, n)
    ensures n < MAX_CHAIN_LEN ==> !Accepted(t.word(n))
  {
    n, words := 0, [];
    var idcode := ReadIdcode(m, t, 0);
    while Accepted(idcode) && n < MAX_CHAIN_LEN
      invariant 0 <= n <= MAX_CHAIN_LEN && Ready(m) && m.board == t.state(n + 1)
      invariant idcode == t.word(n) && words == FirstWords(t.word, n) && AllAccepted(t.word, n)
      decreases MAX_CHAIN_LEN - n
    {
      words := words + [idcode];
      n := n + 1;
      idcode := ReadIdcode(m, t, n);
    }
  }

  /** The listing loop has no cap; it ends at the latest where some word is refused. */
  method ListIdcodes<S>(m: Master<S>, ghost t: Tape<S>, ghost last: nat) returns (printed: seq<bv32>, ghost n: nat)
    requires Ready(m) && Plays(m.env, m.msbFirst, t) && m.board == t.state(0) && !Accepted(t.word(last))
    modifies m
    ensures Ready(m) && printed == FirstWords(t.word, n) && AllAccepted(t.word, n) && !Accepted(t.word(n))
  {
    n, printed := 0, [];
    var idcode := ReadIdcode(m, t, 0);
    while Accepted(idcode)
      invariant 0 <= n <= last && Ready(m) && m.board == t.state(n + 1)
      invariant idcode == t.word(n) && printed == FirstWords(t.word, n) && AllAccepted(t.word, n)
      decreases last - n
    {
      printed := printed + [idcode];
      n := n + 1;
      idcode := ReadIdcode(m, t, n);
    }
  }

  // ------------------------------------------------------ codes of a chain

  /** The device answers with a code: it has an identification register, its code is not
      the all-ones word that the code takes for an idle line, and turned around for
      MSB-first mode its last bit passes the test that is meant for the first. */
  ghost predicate Answers(d: Device, msb: bool) {
    d.part.id.HasIdcode? && Passes(d.part.id.code, msb)
  }

  predicate Passes(bits: seq<bool>, msb: bool) {
    |bits| == 32 && !AllOnes(bits) && bits[if msb then 31 else 0]
  }

  /** The number of devices from the TDO end that answer without a gap. */
  ghost function Run(c: Chain, msb: bool): (n: nat)
    ensures n <= |c|
  {
    if c == [] || !Answers(c[0], msb) then 0 else 1 + Run(c[1..], msb)
  }

  function CodeOf(d: Device, msb: bool): bv32 {
    if d.part.id.HasIdcode? then Received(d.part.id.code, msb) else 0
  }

  /** The codes of the first n devices, in chain order. */
  function Codes(c: Chain, msb: bool, n: nat): (ws: seq<bv32>)
    requires n <= |c|
    ensures |ws| == n
  {
    if n == 0 then [] else Codes(c, msb, n - 1) + [CodeOf(c[n - 1], msb)]
  }

  /** Whether the first word behind the run is refused. MSB first, the bypass bit of a
      device without a code moves all that follows it by one, and the test then looks at
      bit 30 of what lies behind. */
  ghost predicate EndShows(c: Chain, msb: bool) {
    var r := Run(c, msb);
    msb && r < |c| && c[r].part.id.NoIdcode? ==>
      |IdPath(c[r + 1..])| <= 30 || !IdPath(c[r + 1..])[30]
  }

  /** What a loop that stops at the first word refused, or at a cap, then has: the codes of
      the run first, and no more exactly when its end shows. */
  lemma LoopFindsRun(c: Chain, pull: bool, msb: bool, n: nat, capped: bool)
    requires WfChain(c) && Found(c, pull, msb, n, FirstWords(ChainWords(c, pull, msb), n), capped)
    ensures n > Run(c, msb) ==> !EndShows(c, msb)
    ensures !capped ==> n >= Run(c, msb) && (n == Run(c, msb) ==> EndShows(c, msb))
    ensures var m := Min(n, Run(c, msb)); FirstWords(ChainWords(c, pull, msb), n)[..m] == Codes(c, msb, m)
  {
    var w, r := ChainWords(c, pull, msb), Run(c, msb);
    EndWord(c, pull, msb, r);
    assert w(r) == ChainWord(c, pull, msb, r);
    if n < r {
      AnsweringWord(c, pull, msb, n);
      assert w(n) == ChainWord(c, pull, msb, n);
    }
    FirstOfWords(w, n, Min(n, r));
    WordsAreCodes(c, pull, msb, Min(n, r));
  }

  lemma {:induction false} FirstOfWords(w: nat -> bv32, n: nat, m: nat)
    requires m <= n
    ensures FirstWords(w, n)[..m] == FirstWords(w, m)
    decreases n
  {
    if m < n {
      FirstOfWords(w, n - 1, m);
      assert FirstWords(w, n)[..m] == FirstWords(w, n - 1)[..m];
    }
  }

  lemma WordsAreCodes(c: Chain, pull: bool, msb: bool, n: nat)
    requires WfChain(c) && n <= Run(c, msb)
    ensures FirstWords(ChainWords(c, pull, msb), n) == Codes(c, msb, n)
  {
    var w, codes := ChainWords(c, pull, msb), Codes(c, msb, n);
    forall k | 0 <= k < n ensures w(k) == codes[k] {
      AnsweringWord(c, pull, msb, k);
      CodesAt(c, msb, n, k);
    }
    WordsAre(w, codes);
  }

  lemma {:induction false} CodesAt(c: Chain, msb: bool, n: nat, k: nat)
    requires k < n <= |c|
    ensures Codes(c, msb, n)[k] == CodeOf(c[k], msb)
    decreases n
  {
    if k < n - 1 {
      CodesAt(c, msb, n - 1, k);
    }
  }

  lemma {:induction false} WordsAre(w: nat -> bv32, ws: seq<bv32>)
    requires forall k :: 0 <= k < |ws| ==> w(k) == ws[k]
    ensures FirstWords(w, |ws|) == ws
    decreases |ws|
  {
    if ws != [] {
      var front := ws[..|ws| - 1];
      WordsAre(w, front);
      assert ws == front + [ws[|ws| - 1]];
    }
  }

  /** A word is a code bit by bit: LSB first bit j of the word is bit j of the code, MSB
      first bit 31 - j of the word. */
  ghost predicate ShowsCode(w: bv32, id: IdRegister, msb: bool) {
    && id.HasIdcode? && |id.code| == 32
    && forall j: nat :: j < 32 ==> BitAt(w, if msb then 31 - j else j) == id.code[j]
  }

  lemma CodeShown(c: Chain, msb: bool, k: nat)
    requires WfChain(c) && k < Run(c, msb)
    ensures ShowsCode(CodeOf(c[k], msb), c[k].part.id, msb)
  {
    RunPath(c, msb, Run(c, msb));
    assert Answers(c[k], msb) && Wf(c[k]);
    var code := c[k].part.id.code;
    forall j: nat | j < 32 ensures BitAt(Received(code, msb), if msb then 31 - j else j) == code[j] {
      ReceivedBit(code, msb, j);
    }
  }

  lemma CodesShown(c: Chain, msb: bool, r: nat, words: seq<bv32>)
    requires WfChain(c) && r <= Run(c, msb) && r <= |words| && words[..r] == Codes(c, msb, r)
    ensures forall k :: 0 <= k < r ==> ShowsCode(words[k], c[k].part.id, msb)
  {
    forall k | 0 <= k < r ensures ShowsCode(words[k], c[k].part.id, msb) {
      CodesAt(c, msb, r, k);
      CodeShown(c, msb, k);
      assert words[k] == words[..r][k];
    }
  }

  /** And every word found, also behind the run, has the bits that the chain shows. */
  lemma FoundBits(c: Chain, pull: bool, msb: bool, n: nat, words: seq<bv32>, capped: bool, k: nat, j: nat)
    requires Found(c, pull, msb, n, words, capped) && k < n && j < 32
    ensures BitAt(words[k], if msb then 31 - j else j) == StreamBit(c, IdPath(c), 32 * k + j, pull)
  {
    FirstWordsAt(ChainWords(c, pull, msb), n, k);
    ReceivedBit(Window(c, pull, k), msb, j);
  }

  lemma {:induction false} FirstWordsAt(w: nat -> bv32, n: nat, k: nat)
    requires k < n
    ensures FirstWords(w, n)[k] == w(k)
    decreases n
  {
    if k < n - 1 {
      FirstWordsAt(w, n - 1, k);
    }
  }

  // ------------------------------------------------------------- the scans

  /** Resets and clocks to Shift-DR: each device shows the register that its reset
      instruction selects. */
  method ResetToShiftDR(m: Master<Chain>, ghost pull: bool)
    requires m.env == ChainEnv(pull) && WfChain(m.board)
    modifies m
    ensures !m.tck && !m.tms && !m.tdi && SameParts(old(m.board), m.board)
    ensures ShiftingDR(m.board) && DrPath(m.board) == IdPath(m.board)
  {
    ResetState(m, pull);
    ghost var c0 := m.board;
    StepKeeping(m, pull, c0, TestLogicReset, false);
    StepKeeping(m, pull, c0, RunTestIdle, true);
    EnterShiftDR(m, pull, c0);
  }

  method EnterShiftDR(m: Master<Chain>, ghost pull: bool, ghost c0: Chain)
    requires m.env == ChainEnv(pull) && !m.tck && At(c0, m.board, SelectDR) && SameInstructions(c0, m.board)
    requires forall k :: 0 <= k < |c0| ==> AtReset(c0[k])
    modifies m
    ensures !m.tck && !m.tms && !m.tdi && SameParts(c0, m.board)
    ensures ShiftingDR(m.board) && DrPath(m.board) == IdPath(m.board)
  {
    StepKeeping(m, pull, c0, SelectDR, false);
    CaptureDr(m.board, Pulse(false, false), pull);
    Step(m, pull, c0, CaptureDR, false, false);
    CapturedIds(m.board);
  }

  /** The bits of the n-th word that a chain shows with TDI low after a reset: its
      registers, then zeros. */
  function Window(c: Chain, pull: bool, n: nat): (bits: seq<bool>)
    ensures |bits| == 32
    ensures forall j :: 0 <= j < 32 ==> bits[j] == StreamBit(c, IdPath(c), 32 * n + j, pull)
  {
    seq(32, j requires 0 <= j < 32 => StreamBit(c, IdPath(c), 32 * n + j, pull))
  }

  function ChainWord(c: Chain, pull: bool, msb: bool, n: nat): bv32 {
    Received(Window(c, pull, n), msb)
  }

  function ChainWords(c: Chain, pull: bool, msb: bool): nat -> bv32 {
    (n: nat) => ChainWord(c, pull, msb, n)
  }

  /** The words found are the first n of the chain's, all of them accepted, and without a
      cap the next one is refused. */
  ghost predicate Found(c: Chain, pull: bool, msb: bool, n: nat, words: seq<bv32>, capped: bool) {
    && words == FirstWords(ChainWords(c, pull, msb), n) && AllAccepted(ChainWords(c, pull, msb), n)
    && (!capped ==> !Accepted(ChainWords(c, pull, msb)(n)))
  }

  /** The words accepted are those of the chain up to the first that is refused, or up to
      32. They start with the codes of the devices that answer without a gap from the TDO
      end, and are no more than these exactly when the end of that run shows. */
  method ScanIdcode(m: Master<Chain>, ghost pull: bool) returns (n: nat, ghost words: seq<bv32>)
    requires m.env == ChainEnv(pull) && WfChain(m.board)
    modifies m
    ensures n <= MAX_CHAIN_LEN && Found(old(m.board), pull, m.msbFirst, n, words, n == MAX_CHAIN_LEN)
    ensures var r := Min(Run(old(m.board), m.msbFirst), MAX_CHAIN_LEN);
      && r <= n && words[..r] == Codes(old(m.board), m.msbFirst, r)
      && (forall k :: 0 <= k < r ==> ShowsCode(words[k], old(m.board)[k].part.id, m.msbFirst))
      && (n == r <==> r == MAX_CHAIN_LEN || EndShows(old(m.board), m.msbFirst))
  {
    ghost var c := m.board;
    ResetToShiftDR(m, pull);
    ChainShows(c, m.board, pull, m.msbFirst);
    n, words := CountIdcodes(m, TapeOf(m.env, m.board, ChainWords(c, pull, m.msbFirst)));
    LoopFindsRun(c, pull, m.msbFirst, n, n == MAX_CHAIN_LEN);
    CodesShown(c, m.msbFirst, Min(Run(c, m.msbFirst), MAX_CHAIN_LEN), words);
  }

  /** The same without the cap, for the listing. */
  method PrintIdcodes(m: Master<Chain>, ghost pull: bool) returns (printed: seq<bv32>, ghost n: nat)
    requires m.env == ChainEnv(pull) && WfChain(m.board)
    modifies m
    ensures Found(old(m.board), pull, m.msbFirst, n, printed, false)
    ensures var r := Run(old(m.board), m.msbFirst);
      && r <= n && printed[..r] == Codes(old(m.board), m.msbFirst, r)
      && (forall k :: 0 <= k < r ==> ShowsCode(printed[k], old(m.board)[k].part.id, m.msbFirst))
      && (n == r <==> EndShows(old(m.board), m.msbFirst))
  {
    ghost var c := m.board;
    ResetToShiftDR(m, pull);
    ChainShows(c, m.board, pull, m.msbFirst);
    ghost var last := |IdPath(c)| + 1;
    LastRefused(c, pull, m.msbFirst, last);
    printed, n := ListIdcodes(m, TapeOf(m.env, m.board, ChainWords(c, pull, m.msbFirst)), last);
    LoopFindsRun(c, pull, m.msbFirst, n, false);
    CodesShown(c, m.msbFirst, Run(c, m.msbFirst), printed);
  }

  /** LSB first, and when every device has a code, the end of the run always shows. */
  lemma EndAlwaysShows(c: Chain, msb: bool)
    requires !msb || forall k :: 0 <= k < |c| ==> c[k].part.id.HasIdcode?
    ensures EndShows(c, msb)
  {
  }

  /** The chain in Shift-DR shows the words of the chain as it was before the reset. */
  lemma ChainShows(c0: Chain, c: Chain, pull: bool, msb: bool)
    requires SameParts(c0, c) && Showing(c, IdPath(c))
    ensures var t := TapeOf(ChainEnv(pull), c, ChainWords(c0, pull, msb));
      Plays(ChainEnv(pull), msb, t) && t.state(0) == c
  {
    var t := TapeOf(ChainEnv(pull), c, ChainWords(c0, pull, msb));
    assert t.state(0) == AfterWords(ChainEnv(pull), c, 0) == c;
    PathShown(c, IdPath(c), pull);
    PathKept(c0, c);
    forall n: nat
      ensures t.word(n) == Shown(ChainEnv(pull), t.state(0), msb, n)
      ensures t.state(n) == AfterWords(ChainEnv(pull), t.state(0), n)
    {
      WindowShown(ChainEnv(pull), c, c, pull, n);
      SameWindow(c0, c, pull, n);
    }
  }

  lemma WindowShown<S>(e: Env<S>, s: S, c: Chain, pull: bool, n: nat)
    requires ShowsPath(e, s, c, IdPath(c), pull)
    ensures WordBits(e, s, n) == Window(c, pull, n)
  {
    forall j | 0 <= j < 32 ensures WordBits(e, s, n)[j] == Window(c, pull, n)[j] {
      WindowBit(e, s, c, IdPath(c), n, j, pull);
    }
  }

  lemma SameWindow(c: Chain, d: Chain, pull: bool, n: nat)
    requires |c| == |d| && IdPath(c) == IdPath(d)
    ensures Window(c, pull, n) == Window(d, pull, n)
  {
    assert forall m: nat :: StreamBit(c, IdPath(c), m, pull) == StreamBit(d, IdPath(d), m, pull);
  }

  /** The tests on a received word, in either bit order. */
  lemma ReceivedTests(bits: seq<bool>, msb: bool)
    requires |bits| == 32
    ensures Accepted(Received(bits, msb)) <==> Passes(bits, msb)
  {
    if msb {
      ReverseWord(bits);
      WordTests(Reversed(bits));
      ReversedEnds(bits);
    } else {
      WordTests(bits);
    }
  }

  lemma ReversedEnds(bits: seq<bool>)
    requires bits != []
    ensures Reversed(bits)[0] == bits[|bits| - 1] && (AllOnes(Reversed(bits)) <==> AllOnes(bits))
  {
    ReversedAt(bits, 0);
    forall k | 0 <= k < |bits| ensures Reversed(bits)[k] == bits[|bits| - 1 - k] {
      ReversedAt(bits, k);
    }
    forall k | 0 <= k < |bits| ensures bits[k] == Reversed(bits)[|bits| - 1 - k] {
      ReversedAt(bits, |bits| - 1 - k);
    }
  }

  lemma {:induction false} PathKept(c: Chain, d: Chain)
    requires SameParts(c, d)
    ensures IdPath(c) == IdPath(d)
    decreases |c|
  {
    if c != [] {
      forall k | 0 <= k < |c| - 1 ensures c[1..][k].part == d[1..][k].part {
        assert c[k + 1].part == d[k + 1].part;
      }
      PathKept(c[1..], d[1..]);
    }
  }

  // ------------------------------------------------- what a chain shows

  /** What the reset instruction puts between TDI and TDO. */
  function IdContent(p: Part): seq<bool> {
    Captured(p, ResetInstruction(p))
  }

  function IdPath(c: Chain): seq<bool> {
    if c == [] then [] else IdContent(c[0].part) + IdPath(c[1..])
  }

  lemma {:induction false} CapturedIds(c: Chain)
    requires forall k :: 0 <= k < |c| ==> c[k].dr == IdContent(c[k].part)
    ensures DrPath(c) == IdPath(c)
  {
    if c != [] {
      CapturedIds(c[1..]);
    }
  }

  /** What is left of a register after m shifts of zeros. */
  function Stream(path: seq<bool>, m: nat): (s: seq<bool>)
    ensures |s| == |path|
    ensures forall k :: 0 <= k < |path| ==> s[k] == (k + m < |path| && path[k + m])
  {
    seq(|path|, k requires 0 <= k < |path| => k + m < |path| && path[k + m])
  }

  lemma StreamStep(path: seq<bool>, m: nat)
    ensures Stream(path, 0) == path
    ensures Shifted(Stream(path, m), false) == Stream(path, m + 1)
  {
  }

  /** A chain of which the remaining data register is path. */
  ghost predicate Showing(c: Chain, path: seq<bool>) {
    ShiftingDR(c) && DrPath(c) == path
  }

  /** One read with TDI low, seen from the pins. */
  lemma ZeroRead(c: Chain, path: seq<bool>, m: nat, pull: bool)
    requires Showing(c, Stream(path, m))
    ensures Showing(Pulsed(ChainEnv(pull), c, Pulse(false, false)), Stream(path, m + 1))
    ensures Seen(ChainEnv(pull), c, Pulse(false, false)) == if c == [] then pull else m < |path| && path[m]
    ensures |Pulsed(ChainEnv(pull), c, Pulse(false, false))| == |c|
  {
    ShiftDr(c, Pulse(false, false), pull);
    StreamStep(path, m);
    ChainPulse(c, Pulse(false, false), pull);
    if c != [] {
      TdoIsHead(c, pull);
    }
  }

  lemma ZeroReads(c: Chain, path: seq<bool>, m: nat, pull: bool)
    requires Showing(c, path)
    ensures Showing(After(ChainEnv(pull), c, Pulse(false, false), m), Stream(path, m))
    ensures |After(ChainEnv(pull), c, Pulse(false, false), m)| == |c|
  {
    var inv := (k: nat, t: Chain) => Showing(t, Stream(path, k)) && |t| == |c|;
    StreamStep(path, 0);
    forall k: nat, t: Chain | inv(k, t) ensures inv(k + 1, Pulsed(ChainEnv(pull), t, Pulse(false, false))) {
      ZeroRead(t, path, k, pull);
    }
    AfterKeeps(ChainEnv(pull), c, Pulse(false, false), inv, m);
  }

  /** What the m-th read with TDI low sees of a register: its bits, then zeros; without
      devices, the undriven line. */
  function StreamBit(c: Chain, path: seq<bool>, m: nat, pull: bool): bool {
    if c == [] then pull else m < |path| && path[m]
  }

  ghost predicate ShowsPath<S>(e: Env<S>, s: S, c: Chain, path: seq<bool>, pull: bool) {
    forall m: nat ::
      Seen(e, After(e, s, Pulse(false, false), m), Pulse(false, false)) == StreamBit(c, path, m, pull)
  }

  lemma PathShown(c: Chain, path: seq<bool>, pull: bool)
    requires Showing(c, path)
    ensures ShowsPath(ChainEnv(pull), c, c, path, pull)
  {
    forall m: nat
      ensures Seen(ChainEnv(pull), After(ChainEnv(pull), c, Pulse(false, false), m), Pulse(false, false))
        == StreamBit(c, path, m, pull)
    {
      ZeroReads(c, path, m, pull);
      ZeroRead(After(ChainEnv(pull), c, Pulse(false, false), m), path, m, pull);
    }
  }

  lemma WindowBit<S>(e: Env<S>, s: S, c: Chain, path: seq<bool>, n: nat, j: nat, pull: bool)
    requires ShowsPath(e, s, c, path, pull) && j < 32
    ensures WordBits(e, s, n)[j] == StreamBit(c, path, 32 * n + j, pull)
  {
    WordBitAt(e, s, n, j);
  }

  /** Behind the codes of n answering devices comes the register of device n. */
  lemma {:induction false} RunPath(c: Chain, msb: bool, n: nat)
    requires WfChain(c) && n <= Run(c, msb)
    ensures |IdPath(c)| >= 32 * n && IdPath(c)[32 * n..] == IdPath(c[n..])
    ensures forall k :: 0 <= k < n ==> Answers(c[k], msb)
    ensures n == Run(c, msb) && n < |c| ==> !Answers(c[n], msb)
    decreases n
  {
    if n == 0 {
      assert c[0..] == c && IdPath(c)[0..] == IdPath(c);
    } else {
      var d := c[1..];
      RunPath(d, msb, n - 1);
      assert |IdContent(c[0].part)| == 32;
      assert d[n - 1..] == c[n..];
      assert IdPath(c)[32 * n..] == IdPath(d)[32 * (n - 1)..];
      forall k | 0 <= k < n ensures Answers(c[k], msb) {
        assert k > 0 ==> Answers(d[k - 1], msb);
      }
      assert n < |c| ==> c[n] == d[n - 1];
    }
  }

  /** The code of a device behind n answering ones starts at bit 32 * n. */
  lemma PathCode(c: Chain, msb: bool, n: nat, j: nat)
    requires WfChain(c) && n <= Run(c, msb) && n < |c| && c[n].part.id.HasIdcode? && j < 32
    ensures |c[n].part.id.code| == 32
    ensures 32 * n + j < |IdPath(c)| && IdPath(c)[32 * n + j] == c[n].part.id.code[j]
  {
    RunPath(c, msb, n);
    assert Wf(c[n]);
    var rest := c[n..];
    assert rest[0] == c[n];
    assert IdPath(rest)[j] == c[n].part.id.code[j];
    assert IdPath(c)[32 * n..][j] == IdPath(c)[32 * n + j];
  }

  /** A device with an identification register gives its code. */
  lemma CodeWindow(c: Chain, pull: bool, msb: bool, n: nat)
    requires WfChain(c) && n <= Run(c, msb) && n < |c| && c[n].part.id.HasIdcode?
    ensures Window(c, pull, n) == c[n].part.id.code
  {
    var code := c[n].part.id.code;
    PathCode(c, msb, n, 0);
    forall j | 0 <= j < 32 ensures Window(c, pull, n)[j] == code[j] {
      PathCode(c, msb, n, j);
    }
  }

  /** The words of the run are its codes, and accepted. */
  lemma AnsweringWord(c: Chain, pull: bool, msb: bool, n: nat)
    requires WfChain(c) && n < Run(c, msb)
    ensures ChainWord(c, pull, msb, n) == CodeOf(c[n], msb) && Accepted(ChainWord(c, pull, msb, n))
    ensures ShowsCode(ChainWord(c, pull, msb, n), c[n].part.id, msb)
  {
    CodeShown(c, msb, n);
    RunPath(c, msb, Run(c, msb));
    assert Answers(c[n], msb) && Wf(c[n]);
    CodeWindow(c, pull, msb, n);
    ReceivedTests(c[n].part.id.code, msb);
  }

  /** After the run comes an idle line, zeros, a code that does not pass, or the zero of a
      bypass register and what lies behind it. */
  lemma EndBits(c: Chain, pull: bool, msb: bool, n: nat)
    requires WfChain(c) && n == Run(c, msb)
    ensures Passes(Window(c, pull, n), msb) <==> !EndShows(c, msb)
  {
    RunPath(c, msb, n);
    if n < |c| {
      if c[n].part.id.HasIdcode? {
        CodeWindow(c, pull, msb, n);
      } else {
        BypassWindow(c, pull, n);
      }
    } else {
      assert c[n..] == [];
      PastEnd(c, pull, msb, n);
    }
  }

  lemma BypassWindow(c: Chain, pull: bool, n: nat)
    requires n < |c| && c[n].part.id.NoIdcode?
    requires |IdPath(c)| >= 32 * n && IdPath(c)[32 * n..] == IdPath(c[n..])
    ensures !Window(c, pull, n)[0]
    ensures var rest := IdPath(c[n + 1..]); Window(c, pull, n)[31] == (30 < |rest| && rest[30])
  {
    var path, rest := IdPath(c), IdPath(c[n + 1..]);
    assert c[n..][0] == c[n] && c[n..][1..] == c[n + 1..];
    assert path[32 * n..] == [false] + rest;
    assert path[32 * n] == path[32 * n..][0];
    if 30 < |rest| {
      assert path[32 * n + 31] == path[32 * n..][31] == rest[30];
    }
  }

  /** Behind the registers come zeros, and on a line without devices always its level. */
  lemma PastEnd(c: Chain, pull: bool, msb: bool, n: nat)
    requires 32 * n >= |IdPath(c)|
    ensures !Passes(Window(c, pull, n), msb)
  {
    assert forall j :: 0 <= j < 32 ==> Window(c, pull, n)[j] == (c == [] && pull);
  }

  /** So some word is always refused. */
  lemma LastRefused(c: Chain, pull: bool, msb: bool, n: nat)
    requires n >= |IdPath(c)|
    ensures !Accepted(ChainWords(c, pull, msb)(n))
  {
    PastEnd(c, pull, msb, n);
    ReceivedTests(Window(c, pull, n), msb);
  }

  lemma EndWord(c: Chain, pull: bool, msb: bool, n: nat)
    requires WfChain(c) && n == Run(c, msb)
    ensures Accepted(ChainWord(c, pull, msb, n)) <==> !EndShows(c, msb)
  {
    EndBits(c, pull, msb, n);
    ReceivedTests(Window(c, pull, n), msb);
  }

  // ------------------------------------------------- an end that is not seen

  /** A device with a two-bit instruction register. */
  function Plain(id: IdRegister): Device {
    Device(Part(id, [true, false], map[]), TestLogicReset, [true, false], Bypass, [false], false, false)
  }

  /** A code whose bits 0 and 30 are set. */
  function Code30(): (code: seq<bool>)
    ensures |code| == 32 && code[0] && code[30] && !code[1]
  {
    seq(32, (j: nat) => j == 0 || j == 30)
  }

  /** MSB first, the end before a device without a code stays hidden when such a code lies
      behind it: no device answers, and a word is taken all the same. */
  lemma HiddenEnd(pull: bool)
    ensures var c := [Plain(NoIdcode), Plain(HasIdcode(Code30()))];
      && WfChain(c) && Run(c, true) == 0
      && !EndShows(c, true) && Accepted(ChainWord(c, pull, true, 0)) && !Accepted(ChainWord(c, pull, false, 0))
  {
    var c := [Plain(NoIdcode), Plain(HasIdcode(Code30()))];
    assert c[1..] == [Plain(HasIdcode(Code30()))] && c[1..][1..] == [];
    assert IdPath(c[1..]) == Code30() + [] == Code30();
    EndWord(c, pull, true, 0);
    EndWord(c, pull, false, 0);
  }
}
