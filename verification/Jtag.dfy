/** The chain scans of hydrabus_mode_jtag.c, run against a scan chain. */
module Jtag {
  import opened Pins
  import opened Tap
  import opened Words

  const MAX_CHAIN_LEN: nat := 32

  // ------------------------------------------------------------- reset

  /** From any states of the controllers, however different, and from either level of TCK,
      all devices end in Test-Logic-Reset with their reset instruction. */
  method ResetState(m: Master<Chain>, ghost pull: bool)
    requires m.env == ChainEnv(pull) && WfChain(m.board)
    modifies m
    ensures !m.tck && !m.tms && !m.tdi
    ensures WfChain(m.board) && SameParts(old(m.board), m.board)
    ensures forall k :: 0 <= k < |m.board| ==> AtReset(m.board[k])
  {
    var i := 7;
    while i > 0
      invariant 0 <= i <= 7 && (i < 7 ==> !m.tck && !m.tdi)
      invariant WfChain(m.board) && SameParts(old(m.board), m.board)
      invariant forall k :: 0 <= k < |m.board| ==> ToReset(m.board[k].state) <= (if i >= 1 then i - 1 else 0)
      invariant i <= 1 ==> forall k :: 0 <= k < |m.board| ==> AtReset(m.board[k])
    {
      if m.tck {
        FallKeeps(m.board);
      }
      TowardsReset(m.board, Pulse(true, false), pull, if i >= 2 then i - 2 else 0);
      ChainPulse(m.board, Pulse(true, false), pull);
      m.SendBit(false, true);
      i := i - 1;
    }
    m.tms := false;
  }

  // ------------------------------------------------------ chain length

  /** One pulse that moves the devices of c0 from a common state to the next one. */
  method Step(m: Master<Chain>, ghost pull: bool, ghost c0: Chain, ghost s: State, tdi: bool, tms: bool)
    requires m.env == ChainEnv(pull) && !m.tck && At(c0, m.board, s)
    modifies m
    ensures !m.tck && m.tms == tms && m.tdi == tdi
    ensures At(c0, m.board, Next(s, tms))
    ensures m.board == Clock(old(m.board), Pulse(tms, tdi), pull)
  {
    Walk(c0, m.board, Pulse(tms, tdi), pull, s);
    ChainPulse(m.board, Pulse(tms, tdi), pull);
    m.SendBit(tdi, tms);
  }

  /** From Test-Logic-Reset to Shift-IR. */
  method ToShiftIR(m: Master<Chain>, ghost pull: bool)
    requires m.env == ChainEnv(pull) && !m.tck && At(m.board, m.board, TestLogicReset)
    modifies m
    ensures !m.tck && ShiftingIR(m.board) && SameParts(old(m.board), m.board)
  {
    ghost var c0 := m.board;
    TwoSteps(m, pull, c0, TestLogicReset, false, true);
    TwoSteps(m, pull, c0, SelectDR, true, false);
    EnterShiftIR(m, pull, c0);
  }

  method TwoSteps(m: Master<Chain>, ghost pull: bool, ghost c0: Chain, ghost s: State, tms1: bool, tms2: bool)
    requires m.env == ChainEnv(pull) && !m.tck && At(c0, m.board, s)
    modifies m
    ensures !m.tck && At(c0, m.board, Next(Next(s, tms1), tms2))
  {
    Step(m, pull, c0, s, false, tms1);
    Step(m, pull, c0, Next(s, tms1), false, tms2);
  }

  method EnterShiftIR(m: Master<Chain>, ghost pull: bool, ghost c0: Chain)
    requires m.env == ChainEnv(pull) && !m.tck && At(c0, m.board, CaptureIR)
    modifies m
    ensures !m.tck && ShiftingIR(m.board) && SameParts(c0, m.board)
  {
    CaptureIr(m.board, Pulse(false, false), pull);
    ChainPulse(m.board, Pulse(false, false), pull);
    m.SendBit(false, false);
  }

  /** 1000 ones: enough for every instruction register when they total 1000 bits. */
  method FillIR(m: Master<Chain>, ghost pull: bool)
    requires m.env == ChainEnv(pull) && !m.tck && ShiftingIR(m.board) && IrTotal(m.board) <= 1000
    modifies m
    ensures !m.tck && At(old(m.board), m.board, Exit1IR) && AllOnes(IrPath(m.board))
  {
    ghost var c0 := m.board;
    var i := 0;
    while i < 999
      invariant 0 <= i <= 999 && !m.tck
      invariant ShiftingIR(m.board) && SameParts(c0, m.board)
      invariant TailOnes(IrPath(m.board), i)
    {
      ShiftIr(m.board, Pulse(false, true), pull);
      ShiftOne(IrPath(m.board), i);
      ChainPulse(m.board, Pulse(false, true), pull);
      m.SendBit(true, false);
      i := i + 1;
    }
    IrPathLength(m.board);
    IrTotalKept(c0, m.board);
    ShiftIr(m.board, Pulse(true, true), pull);
    ShiftOne(IrPath(m.board), i);
    ChainPulse(m.board, Pulse(true, true), pull);
    m.SendBit(true, true);
  }

  /** From Exit1-IR through Update-IR to Shift-DR. */
  method ToShiftDR(m: Master<Chain>, ghost pull: bool)
    requires m.env == ChainEnv(pull) && !m.tck && At(m.board, m.board, Exit1IR) && AllOnes(IrPath(m.board))
    modifies m
    ensures !m.tck && !m.tms && !m.tdi && SameParts(old(m.board), m.board)
    ensures Counting(m.board, m.board, 0)
  {
    LatchBypass(m, pull);
    LeaveUpdateIR(m, pull);
    EnterShiftDR(m, pull);
  }

  /** Update-IR. */
  method LatchBypass(m: Master<Chain>, ghost pull: bool)
    requires m.env == ChainEnv(pull) && !m.tck && At(m.board, m.board, Exit1IR) && AllOnes(IrPath(m.board))
    modifies m
    ensures !m.tck && At(old(m.board), m.board, UpdateIR) && InBypass(m.board)
  {
    ghost var c0 := m.board;
    UpdateIr(m.board, Pulse(true, false), pull);
    Step(m, pull, c0, Exit1IR, false, true);
  }

  /** One pulse that neither resets nor updates keeps the instructions. */
  method StepKeeping(m: Master<Chain>, ghost pull: bool, ghost c0: Chain, ghost s: State, tms: bool)
    requires m.env == ChainEnv(pull) && !m.tck && At(c0, m.board, s) && SameInstructions(c0, m.board)
    requires Next(s, tms) != TestLogicReset && Next(s, tms) != UpdateIR
    modifies m
    ensures !m.tck && At(c0, m.board, Next(s, tms)) && SameInstructions(c0, m.board)
  {
    MoveTo(m.board, Pulse(tms, false), pull, s);
    Step(m, pull, c0, s, false, tms);
  }

  /** Select-DR and Capture-DR. */
  method LeaveUpdateIR(m: Master<Chain>, ghost pull: bool)
    requires m.env == ChainEnv(pull) && !m.tck && At(m.board, m.board, UpdateIR) && InBypass(m.board)
    modifies m
    ensures !m.tck && At(old(m.board), m.board, CaptureDR) && InBypass(m.board)
  {
    ghost var c0 := m.board;
    StepKeeping(m, pull, c0, UpdateIR, true);
    StepKeeping(m, pull, c0, SelectDR, false);
  }

  method EnterShiftDR(m: Master<Chain>, ghost pull: bool)
    requires m.env == ChainEnv(pull) && !m.tck && At(m.board, m.board, CaptureDR) && InBypass(m.board)
    modifies m
    ensures !m.tck && !m.tms && !m.tdi && SameParts(old(m.board), m.board)
    ensures Counting(m.board, m.board, 0)
  {
    CaptureDr(m.board, Pulse(false, false), pull);
    Step(m, pull, m.board, CaptureDR, false, false);
    CapturedBypass(m.board);
  }

  /** The part of the scan before the reads. */
  method AllToBypass(m: Master<Chain>, ghost pull: bool)
    requires m.env == ChainEnv(pull) && WfChain(m.board) && IrTotal(m.board) <= 1000
    modifies m
    ensures !m.tck && !m.tms && !m.tdi && SameParts(old(m.board), m.board)
    ensures Counting(m.board, m.board, 0)
  {
    ResetState(m, pull);
    ToShiftIR(m, pull);
    IrTotalKept(old(m.board), m.board);
    FillIR(m, pull);
    ToShiftDR(m, pull);
    var i := 0;
    while i < 1000
      invariant 0 <= i <= 1000 && !m.tck && !m.tms && !m.tdi && SameParts(old(m.board), m.board)
      invariant Counting(m.board, m.board, 0)
    {
      ZeroStep(m.board, pull);
      ChainPulse(m.board, Pulse(false, false), pull);
      m.SendBit(false, false);
      i := i + 1;
    }
  }

  /** From any controller states, a chain of n devices whose instruction registers
      total at most 1000 bits is put in BYPASS and its length is returned, with 0
      for a chain of MAX_CHAIN_LEN devices or more. */
  method ScanBypass(m: Master<Chain>, ghost pull: bool) returns (r: nat)
    requires m.env == ChainEnv(pull) && WfChain(m.board) && IrTotal(m.board) <= 1000
    modifies m
    ensures !m.tck && !m.tdi && SameParts(old(m.board), m.board)
    ensures InBypass(m.board) && ShiftingDR(m.board)
    ensures r == if |m.board| < MAX_CHAIN_LEN then |m.board| else 0
  {
    AllToBypass(m, pull);
    ghost var c := m.board;
    BypassReads(c, pull);
    ghost var steps;
    r, steps := CountReads(m, |c|, pull);
    PathAfter(c, pull, steps);
  }

  /** The counting part of the scan, for anything that reads like n bypass stages. */
  method CountReads<S>(m: Master<S>, ghost n: nat, ghost pull: bool) returns (r: nat, ghost steps: nat)
    requires !m.tck && !m.tms && ReadsAs(m.env, m.board, n, pull)
    modifies m
    ensures !m.tck && !m.tdi && m.board == After(m.env, old(m.board), Pulse(false, true), steps)
    ensures r == if n < MAX_CHAIN_LEN then n else 0
  {
    m.tdi := true;
    r := CountZeros(m, n, pull);
    steps := r + 1;
    m.tdi := false;
    ZerosTell(n, r, pull);
    if r == MAX_CHAIN_LEN {
      r := 0;
    }
  }

  /** The number of zeros read tells the number of devices. */
  lemma ZerosTell(n: nat, r: nat, pull: bool)
    requires r <= MAX_CHAIN_LEN && (r < MAX_CHAIN_LEN ==> ReadValue(n, r, pull))
    requires forall k :: 0 <= k < r ==> !ReadValue(n, k, pull)
    ensures (if r == MAX_CHAIN_LEN then 0 else r) == if n < MAX_CHAIN_LEN then n else 0
  {
    assert n < r ==> !ReadValue(n, n, pull);
    assert 0 < r ==> !ReadValue(n, r - 1, pull);
  }

  /** The counting loop: the number of reads before the first one, capped. */
  method CountZeros<S>(m: Master<S>, ghost n: nat, ghost pull: bool) returns (r: nat)
    requires !m.tck && !m.tms && m.tdi && ReadsAs(m.env, m.board, n, pull)
    modifies m
    ensures !m.tck && m.board == After(m.env, old(m.board), Pulse(false, true), r + 1)
    ensures r <= MAX_CHAIN_LEN
    ensures r < MAX_CHAIN_LEN ==> ReadValue(n, r, pull)
    ensures forall k :: 0 <= k < r ==> !ReadValue(n, k, pull)
  {
    ghost var s, p := m.board, Pulse(false, true);
    r := 0;
    assert After(m.env, s, p, 0) == s;
    var bit := m.ReadBitClock();
    while !bit && r < MAX_CHAIN_LEN
      invariant 0 <= r <= MAX_CHAIN_LEN && !m.tck && !m.tms && m.tdi
      invariant bit == ReadValue(n, r, pull)
      invariant forall k :: 0 <= k < r ==> !ReadValue(n, k, pull)
      invariant m.board == After(m.env, s, p, r + 1)
    {
      r := r + 1;
      bit := m.ReadBitClock();
    }
  }

  /** What the m-th read of n zeroed bypass registers sees: a zero for each of them,
      then ones; without devices, the undriven line. */
  predicate ReadValue(n: nat, m: nat, pull: bool) {
    if n == 0 then pull else m >= n
  }

  ghost predicate ReadsAs<S>(e: Env<S>, s: S, n: nat, pull: bool) {
    forall m: nat :: Seen(e, After(e, s, Pulse(false, true), m), Pulse(false, true)) == ReadValue(n, m, pull)
  }

  /** After m ones have come in behind the bypass stages of a chain c0. */
  ghost predicate Counting(c0: Chain, c: Chain, m: nat) {
    ShiftingDR(c) && InBypass(c) && SameParts(c0, c) && DrPath(c) == BypassPath(|c0|, m)
  }

  /** One more read. */
  lemma PathStep(c0: Chain, c: Chain, pull: bool, m: nat)
    requires Counting(c0, c, m)
    ensures Counting(c0, Clock(c, Pulse(false, true), pull), m + 1)
    ensures Tdo(c, pull) == ReadValue(|c0|, m, pull)
  {
    ShiftDr(c, Pulse(false, true), pull);
    ShiftBypass(|c0|, m);
    if c0 != [] {
      TdoIsHead(c, pull);
    }
  }

  /** Shifting in another zero changes nothing. */
  lemma ZeroStep(c: Chain, pull: bool)
    requires Counting(c, c, 0)
    ensures Counting(Clock(c, Pulse(false, false), pull), Clock(c, Pulse(false, false), pull), 0)
    ensures SameParts(c, Clock(c, Pulse(false, false), pull))
  {
    ShiftDr(c, Pulse(false, false), pull);
    ShiftBypass(|c|, 0);
  }

  /** The same, seen from the pins. */
  lemma PathNext(c0: Chain, c: Chain, pull: bool, m: nat)
    requires Counting(c0, c, m)
    ensures Counting(c0, Pulsed(ChainEnv(pull), c, Pulse(false, true)), m + 1)
    ensures Seen(ChainEnv(pull), c, Pulse(false, true)) == ReadValue(|c0|, m, pull)
  {
    PathStep(c0, c, pull, m);
    ChainPulse(c, Pulse(false, true), pull);
  }

  lemma PathAfter(c: Chain, pull: bool, m: nat)
    requires Counting(c, c, 0)
    ensures Counting(c, After(ChainEnv(pull), c, Pulse(false, true), m), m)
  {
    var inv := (k: nat, t: Chain) => Counting(c, t, k);
    forall k: nat, t: Chain | inv(k, t) ensures inv(k + 1, Pulsed(ChainEnv(pull), t, Pulse(false, true))) {
      PathNext(c, t, pull, k);
    }
    AfterKeeps(ChainEnv(pull), c, Pulse(false, true), inv, m);
  }

  /** A chain in BYPASS that has been filled with zeros is read as one zero per device,
      then ones. */
  lemma BypassReads(c: Chain, pull: bool)
    requires Counting(c, c, 0)
    ensures ReadsAs(ChainEnv(pull), c, |c|, pull)
  {
    forall m: nat
      ensures Seen(ChainEnv(pull), After(ChainEnv(pull), c, Pulse(false, true), m), Pulse(false, true))
        == ReadValue(|c|, m, pull)
    {
      PathAfter(c, pull, m);
      PathNext(c, After(ChainEnv(pull), c, Pulse(false, true), m), pull, m);
    }
  }
}
