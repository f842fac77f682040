/** A scan chain of IEEE 1149.1 devices: the environment that the JTAG code drives.
    A device acts on the rising edge of TCK according to the state its controller is
    in, then moves; TDO and the latched instruction change on the falling edge.
    Devices are listed from the TDO end of the chain to the TDI end, and every
    register is listed from its TDO end, so the bit that leaves next is always first.
    Each device has its own controller: nothing says that they start in step. */
module Tap {
  import opened Pins
  import opened Words

  datatype State =
    | TestLogicReset | RunTestIdle
    | SelectDR | CaptureDR | ShiftDR | Exit1DR | PauseDR | Exit2DR | UpdateDR
    | SelectIR | CaptureIR | ShiftIR | Exit1IR | PauseIR | Exit2IR | UpdateIR

  function Next(s: State, tms: bool): State {
    match s
    case TestLogicReset => if tms then TestLogicReset else RunTestIdle
    case RunTestIdle => if tms then SelectDR else RunTestIdle
    case SelectDR => if tms then SelectIR else CaptureDR
    case CaptureDR => if tms then Exit1DR else ShiftDR
    case ShiftDR => if tms then Exit1DR else ShiftDR
    case Exit1DR => if tms then UpdateDR else PauseDR
    case PauseDR => if tms then Exit2DR else PauseDR
    case Exit2DR => if tms then UpdateDR else ShiftDR
    case UpdateDR => if tms then SelectDR else RunTestIdle
    case SelectIR => if tms then TestLogicReset else CaptureIR
    case CaptureIR => if tms then Exit1IR else ShiftIR
    case ShiftIR => if tms then Exit1IR else ShiftIR
    case Exit1IR => if tms then UpdateIR else PauseIR
    case PauseIR => if tms then Exit2IR else PauseIR
    case Exit2IR => if tms then UpdateIR else ShiftIR
    case UpdateIR => if tms then SelectDR else RunTestIdle
  }

  /** What the latched instruction puts between TDI and TDO. */
  datatype Instruction = Bypass | Idcode | Private(capture: seq<bool>)

  /** The content of an identification register, as it is shifted out. */
  datatype IdRegister = NoIdcode | HasIdcode(code: seq<bool>)

  /** What is fixed in a device. */
  datatype Part = Part(
    id: IdRegister,
    irCapture: seq<bool>,                      // loaded in Capture-IR
    opcodes: map<seq<bool>, Instruction>)      // any other code selects BYPASS

  datatype Device = Device(
    part: Part,
    state: State,
    ir: seq<bool>,                             // instruction shift stage
    instruction: Instruction,                  // latched instruction
    dr: seq<bool>,                             // shift stage of the selected data register
    driving: bool,                             // is TDO driven, and
    tdo: bool)                                 // with which level

  type Chain = seq<Device>

  /** An identification code is a 32-bit word whose lowest bit is 1 (clause 12);
      no selected register is empty. */
  ghost predicate WfPart(p: Part) {
    && (p.id.HasIdcode? ==> |p.id.code| == 32 && p.id.code[0])
    && forall code <- p.opcodes :: WfInstruction(p, p.opcodes[code])
  }

  ghost predicate WfInstruction(p: Part, i: Instruction) {
    && (i.Private? ==> |i.capture| >= 1)
    && (i.Idcode? ==> p.id.HasIdcode?)
  }

  ghost predicate Wf(d: Device) {
    && WfPart(d.part)
    && WfInstruction(d.part, d.instruction)
    && |d.ir| == |d.part.irCapture| >= 1
    && |d.dr| >= 1
  }

  ghost predicate WfChain(c: Chain) {
    forall k :: 0 <= k < |c| ==> Wf(c[k])
  }

  /** The all-ones code is BYPASS for every device (clause 8.4). */
  function Decode(p: Part, code: seq<bool>): Instruction {
    if AllOnes(code) then Bypass
    else if code in p.opcodes then p.opcodes[code]
    else Bypass
  }

  function ResetInstruction(p: Part): Instruction {
    if p.id.HasIdcode? then Idcode else Bypass
  }

  /** The content that Capture-DR loads. */
  function Captured(p: Part, i: Instruction): seq<bool> {
    match i
    case Bypass => [false]
    case Idcode => if p.id.HasIdcode? then p.id.code else [false]
    case Private(capture) => capture
  }

  function Shifted(s: seq<bool>, tdi: bool): seq<bool> {
    if s == [] then [] else s[1..] + [tdi]
  }

  function RiseDevice(d: Device, tms: bool, tdi: bool): Device {
    var d1 := match d.state
      case CaptureDR => d.(dr := Captured(d.part, d.instruction))
      case ShiftDR => d.(dr := Shifted(d.dr, tdi))
      case CaptureIR => d.(ir := d.part.irCapture)
      case ShiftIR => d.(ir := Shifted(d.ir, tdi))
      case _ => d;
    d1.(state := Next(d.state, tms))
  }

  function FallDevice(d: Device): Device {
    match d.state
    case TestLogicReset => d.(instruction := ResetInstruction(d.part), driving := false)
    case UpdateIR => d.(instruction := Decode(d.part, d.ir), driving := false)
    case ShiftDR => d.(driving := true, tdo := d.dr != [] && d.dr[0])
    case ShiftIR => d.(driving := true, tdo := d.ir != [] && d.ir[0])
    case _ => d.(driving := false)
  }

  /** The level on a device's TDO; an undriven line sits at the board's pull level. */
  function Level(d: Device, pull: bool): bool {
    if d.driving then d.tdo else pull
  }

  /** Device k takes its TDI from the TDO of device k + 1, the last one from the host. */
  function InputOf(c: Chain, k: nat, tdi: bool, pull: bool): bool
    requires k < |c|
  {
    if k + 1 < |c| then Level(c[k + 1], pull) else tdi
  }

  /** One TCK pulse as a device sees it: a rising edge, then a falling edge. */
  function ClockDevice(d: Device, tms: bool, tdi: bool): Device {
    FallDevice(RiseDevice(d, tms, tdi))
  }

  /** All devices see the rising edge at once: each takes the level its neighbour
      showed before the edge. */
  function Rise(c: Chain, p: Pulse, pull: bool): (r: Chain)
    ensures |r| == |c|
  {
    if c == [] then []
    else [RiseDevice(c[0], p.tms, InputOf(c, 0, p.tdi, pull))] + Rise(c[1..], p, pull)
  }

  function Fall(c: Chain): (r: Chain)
    ensures |r| == |c|
  {
    if c == [] then [] else [FallDevice(c[0])] + Fall(c[1..])
  }

  /** What the host samples on its TDO pin. */
  function Tdo(c: Chain, pull: bool): bool {
    if c == [] then pull else Level(c[0], pull)
  }

  /** One full TCK pulse. */
  function Clock(c: Chain, p: Pulse, pull: bool): (r: Chain)
    ensures |r| == |c|
  {
    Fall(Rise(c, p, pull))
  }

  lemma ClockAt(c: Chain, p: Pulse, pull: bool, k: nat)
    requires k < |c|
    ensures Clock(c, p, pull)[k] == ClockDevice(c[k], p.tms, InputOf(c, k, p.tdi, pull))
  {
    RiseAt(c, p, pull, k);
    FallAt(Rise(c, p, pull), k);
  }

  lemma {:induction false} RiseAt(c: Chain, p: Pulse, pull: bool, k: nat)
    requires k < |c|
    ensures Rise(c, p, pull)[k] == RiseDevice(c[k], p.tms, InputOf(c, k, p.tdi, pull))
  {
    if k > 0 {
      RiseAt(c[1..], p, pull, k - 1);
      assert InputOf(c[1..], k - 1, p.tdi, pull) == InputOf(c, k, p.tdi, pull);
    }
  }

  lemma {:induction false} FallAt(c: Chain, k: nat)
    requires k < |c|
    ensures Fall(c)[k] == FallDevice(c[k])
  {
    if k > 0 {
      FallAt(c[1..], k - 1);
    }
  }

  // --------------------------------------------------- chains in step

  ghost predicate InStep(c: Chain, s: State) {
    forall k :: 0 <= k < |c| ==> c[k].state == s
  }

  /** In Shift-DR after a falling edge a device shows its next bit. */
  ghost predicate ShowsDr(d: Device) {
    d.state == ShiftDR && d.driving && d.dr != [] && d.tdo == d.dr[0]
  }

  ghost predicate ShowsIr(d: Device) {
    d.state == ShiftIR && d.driving && d.ir != [] && d.tdo == d.ir[0]
  }

  ghost predicate ShiftingDR(c: Chain) {
    WfChain(c) && forall k :: 0 <= k < |c| ==> ShowsDr(c[k])
  }

  ghost predicate ShiftingIR(c: Chain) {
    WfChain(c) && forall k :: 0 <= k < |c| ==> ShowsIr(c[k])
  }

  /** All data registers joined into the one register the host sees. */
  function DrPath(c: Chain): seq<bool> {
    if c == [] then [] else c[0].dr + DrPath(c[1..])
  }

  function IrPath(c: Chain): seq<bool> {
    if c == [] then [] else c[0].ir + IrPath(c[1..])
  }

  /** What a pulse never changes. */
  ghost predicate SameParts(c: Chain, d: Chain) {
    && |c| == |d|
    && forall k :: 0 <= k < |c| ==> c[k].part == d[k].part
  }

  ghost predicate SameInstructions(c: Chain, d: Chain) {
    && |c| == |d|
    && forall k :: 0 <= k < |c| ==> c[k].instruction == d[k].instruction
  }

  lemma ClockDeviceWf(d: Device, tms: bool, tdi: bool)
    requires Wf(d)
    ensures Wf(ClockDevice(d, tms, tdi)) && ClockDevice(d, tms, tdi).part == d.part
  {
    RiseWf(d, tms, tdi);
    FallWf(RiseDevice(d, tms, tdi));
  }

  lemma RiseWf(d: Device, tms: bool, tdi: bool)
    requires Wf(d)
    ensures Wf(RiseDevice(d, tms, tdi)) && RiseDevice(d, tms, tdi).part == d.part
  {
  }

  lemma FallWf(d: Device)
    requires Wf(d)
    ensures Wf(FallDevice(d)) && FallDevice(d).part == d.part
  {
  }

  lemma ClockWf(c: Chain, p: Pulse, pull: bool)
    requires WfChain(c)
    ensures WfChain(Clock(c, p, pull)) && SameParts(c, Clock(c, p, pull))
  {
    forall k | 0 <= k < |c|
      ensures Wf(Clock(c, p, pull)[k]) && c[k].part == Clock(c, p, pull)[k].part
    {
      ClockAt(c, p, pull, k);
      ClockDeviceWf(c[k], p.tms, InputOf(c, k, p.tdi, pull));
    }
  }

  // ------------------------------------------------------- shifting

  function HeadOr(s: seq<bool>, tdi: bool): bool {
    if s == [] then tdi else s[0]
  }

  /** Shifting a device's data register by one bit. */
  ghost predicate DrStep(d: Device, e: Device, input: bool) {
    && e.part == d.part && e.instruction == d.instruction
    && e.dr == Shifted(d.dr, input)
  }

  ghost predicate IrStep(d: Device, e: Device, input: bool) {
    e.ir == Shifted(d.ir, input)
  }

  lemma ShiftDrDevice(d: Device, tdi: bool)
    requires Wf(d) && d.state == ShiftDR
    ensures DrStep(d, ClockDevice(d, false, tdi), tdi)
    ensures ShowsDr(ClockDevice(d, false, tdi))
  {
  }

  lemma ShiftIrDevice(d: Device, tms: bool, tdi: bool)
    requires Wf(d) && d.state == ShiftIR
    ensures IrStep(d, ClockDevice(d, tms, tdi), tdi)
    ensures if tms then ClockDevice(d, tms, tdi).state == Exit1IR else ShowsIr(ClockDevice(d, tms, tdi))
  {
  }

  /** One shift of the whole chain is one shift of the joined data register. */
  lemma ShiftDr(c: Chain, p: Pulse, pull: bool)
    requires ShiftingDR(c) && !p.tms
    ensures ShiftingDR(Clock(c, p, pull)) && SameInstructions(c, Clock(c, p, pull))
    ensures SameParts(c, Clock(c, p, pull))
    ensures DrPath(Clock(c, p, pull)) == Shifted(DrPath(c), p.tdi)
  {
    var r := Clock(c, p, pull);
    ClockWf(c, p, pull);
    forall k | 0 <= k < |c|
      ensures ShowsDr(r[k]) && DrStep(c[k], r[k], HeadOr(DrPath(c[k + 1..]), p.tdi))
    {
      ClockAt(c, p, pull, k);
      DrInput(c, k, p.tdi, pull);
      ShiftDrDevice(c[k], InputOf(c, k, p.tdi, pull));
    }
    JoinDr(c, r, p.tdi);
  }

  /** A device's input is the head of everything that lies behind it. */
  lemma DrInput(c: Chain, k: nat, tdi: bool, pull: bool)
    requires ShiftingDR(c) && k < |c|
    ensures InputOf(c, k, tdi, pull) == HeadOr(DrPath(c[k + 1..]), tdi)
  {
    if k + 1 < |c| {
      assert c[k + 1..][0] == c[k + 1] && ShowsDr(c[k + 1]) && Wf(c[k + 1]);
    }
  }

  lemma {:induction false} JoinDr(c: Chain, r: Chain, tdi: bool)
    requires |r| == |c| && WfChain(c)
    requires forall k :: 0 <= k < |c| ==> DrStep(c[k], r[k], HeadOr(DrPath(c[k + 1..]), tdi))
    ensures DrPath(r) == Shifted(DrPath(c), tdi)
  {
    if c != [] {
      var c1, r1 := c[1..], r[1..];
      forall k | 0 <= k < |c1| ensures DrStep(c1[k], r1[k], HeadOr(DrPath(c1[k + 1..]), tdi)) {
        assert c1[k + 1..] == c[k + 2..];
        assert DrStep(c[k + 1], r[k + 1], HeadOr(DrPath(c[k + 1 + 1..]), tdi));
      }
      JoinDr(c1, r1, tdi);
      assert DrStep(c[0], r[0], HeadOr(DrPath(c[0 + 1..]), tdi)) && Wf(c[0]);
      ShiftedJoin(c[0].dr, DrPath(c1), tdi);
    }
  }

  lemma ShiftedJoin(a: seq<bool>, b: seq<bool>, tdi: bool)
    requires a != []
    ensures Shifted(a + b, tdi) == Shifted(a, HeadOr(b, tdi)) + Shifted(b, tdi)
  {
  }

  lemma ShiftIr(c: Chain, p: Pulse, pull: bool)
    requires ShiftingIR(c)
    ensures WfChain(Clock(c, p, pull))
    ensures if p.tms then InStep(Clock(c, p, pull), Exit1IR) else ShiftingIR(Clock(c, p, pull))
    ensures SameParts(c, Clock(c, p, pull))
    ensures IrPath(Clock(c, p, pull)) == Shifted(IrPath(c), p.tdi)
  {
    var r := Clock(c, p, pull);
    ClockWf(c, p, pull);
    forall k | 0 <= k < |c|
      ensures IrStep(c[k], r[k], HeadOr(IrPath(c[k + 1..]), p.tdi))
      ensures if p.tms then r[k].state == Exit1IR else ShowsIr(r[k])
    {
      ClockAt(c, p, pull, k);
      IrInput(c, k, p.tdi, pull);
      ShiftIrDevice(c[k], p.tms, InputOf(c, k, p.tdi, pull));
    }
    JoinIr(c, r, p.tdi);
  }

  lemma IrInput(c: Chain, k: nat, tdi: bool, pull: bool)
    requires ShiftingIR(c) && k < |c|
    ensures InputOf(c, k, tdi, pull) == HeadOr(IrPath(c[k + 1..]), tdi)
  {
    if k + 1 < |c| {
      assert c[k + 1..][0] == c[k + 1] && ShowsIr(c[k + 1]) && Wf(c[k + 1]);
    }
  }

  lemma {:induction false} JoinIr(c: Chain, r: Chain, tdi: bool)
    requires |r| == |c| && WfChain(c)
    requires forall k :: 0 <= k < |c| ==> IrStep(c[k], r[k], HeadOr(IrPath(c[k + 1..]), tdi))
    ensures IrPath(r) == Shifted(IrPath(c), tdi)
  {
    if c != [] {
      var c1, r1 := c[1..], r[1..];
      forall k | 0 <= k < |c1| ensures IrStep(c1[k], r1[k], HeadOr(IrPath(c1[k + 1..]), tdi)) {
        assert c1[k + 1..] == c[k + 2..];
        assert IrStep(c[k + 1], r[k + 1], HeadOr(IrPath(c[k + 1 + 1..]), tdi));
      }
      JoinIr(c1, r1, tdi);
      assert IrStep(c[0], r[0], HeadOr(IrPath(c[0 + 1..]), tdi)) && Wf(c[0]);
      ShiftedJoin(c[0].ir, IrPath(c1), tdi);
    }
  }

  // ------------------------------------------------- moving between states

  ghost predicate MoveStep(d: Device, e: Device, tms: bool) {
    && e.part == d.part
    && e.state == Next(d.state, tms)
    && (e.state == TestLogicReset ==> e.instruction == ResetInstruction(d.part))
    && (e.state != TestLogicReset && e.state != UpdateIR ==> e.instruction == d.instruction)
  }

  lemma MoveDevice(d: Device, tms: bool, tdi: bool)
    ensures MoveStep(d, ClockDevice(d, tms, tdi), tms)
  {
  }

  /** The state machines of all devices follow TMS; the instruction changes only on
      entering Test-Logic-Reset or Update-IR. */
  lemma Move(c: Chain, p: Pulse, pull: bool)
    requires WfChain(c)
    ensures WfChain(Clock(c, p, pull)) && SameParts(c, Clock(c, p, pull))
    ensures forall k :: 0 <= k < |c| ==> MoveStep(c[k], Clock(c, p, pull)[k], p.tms)
  {
    ClockWf(c, p, pull);
    forall k | 0 <= k < |c| ensures MoveStep(c[k], Clock(c, p, pull)[k], p.tms) {
      ClockAt(c, p, pull, k);
      MoveDevice(c[k], p.tms, InputOf(c, k, p.tdi, pull));
    }
  }

  lemma MoveTo(c: Chain, p: Pulse, pull: bool, s: State)
    requires WfChain(c) && InStep(c, s)
    ensures WfChain(Clock(c, p, pull)) && InStep(Clock(c, p, pull), Next(s, p.tms))
    ensures SameParts(c, Clock(c, p, pull))
    ensures Next(s, p.tms) != TestLogicReset && Next(s, p.tms) != UpdateIR
      ==> SameInstructions(c, Clock(c, p, pull))
  {
    Move(c, p, pull);
    forall k | 0 <= k < |c| ensures MoveStep(c[k], Clock(c, p, pull)[k], p.tms) {}
  }

  /** The devices of c0, all in state s. */
  ghost predicate At(c0: Chain, c: Chain, s: State) {
    WfChain(c) && InStep(c, s) && SameParts(c0, c)
  }

  lemma Walk(c0: Chain, c: Chain, p: Pulse, pull: bool, s: State)
    requires At(c0, c, s)
    ensures At(c0, Clock(c, p, pull), Next(s, p.tms))
  {
    MoveTo(c, p, pull, s);
  }

  /** Pulses with TMS high still needed to reach Test-Logic-Reset. */
  function ToReset(s: State): nat {
    match s
    case TestLogicReset => 0
    case SelectIR => 1
    case SelectDR => 2
    case RunTestIdle | UpdateDR | UpdateIR => 3
    case Exit1DR | Exit2DR | Exit1IR | Exit2IR => 4
    case _ => 5
  }

  lemma ResetStep(s: State)
    ensures ToReset(Next(s, true)) <= (if ToReset(s) == 0 then 0 else ToReset(s) - 1)
  {
  }

  ghost predicate AtReset(d: Device) {
    d.state == TestLogicReset && d.instruction == ResetInstruction(d.part)
  }

  /** Five pulses with TMS high bring every controller to reset, wherever it was. */
  lemma TowardsReset(c: Chain, p: Pulse, pull: bool, n: nat)
    requires WfChain(c) && p.tms
    requires forall k :: 0 <= k < |c| ==> ToReset(c[k].state) <= n + 1
    ensures WfChain(Clock(c, p, pull)) && SameParts(c, Clock(c, p, pull))
    ensures forall k :: 0 <= k < |c| ==> ToReset(Clock(c, p, pull)[k].state) <= n
    ensures n == 0 ==> forall k :: 0 <= k < |c| ==> AtReset(Clock(c, p, pull)[k])
  {
    Move(c, p, pull);
    forall k | 0 <= k < |c| ensures ToReset(Clock(c, p, pull)[k].state) <= n {
      ResetStep(c[k].state);
      assert MoveStep(c[k], Clock(c, p, pull)[k], true);
    }
    forall k | 0 <= k < |c| && n == 0 ensures AtReset(Clock(c, p, pull)[k]) {
      assert MoveStep(c[k], Clock(c, p, pull)[k], true);
      assert ToReset(Clock(c, p, pull)[k].state) <= 0;
    }
  }

  /** A falling edge on its own moves no controller. */
  lemma FallKeeps(c: Chain)
    requires WfChain(c)
    ensures WfChain(Fall(c)) && SameParts(c, Fall(c))
    ensures forall k :: 0 <= k < |c| ==> Fall(c)[k].state == c[k].state
  {
    forall k | 0 <= k < |c|
      ensures Wf(Fall(c)[k]) && Fall(c)[k].part == c[k].part && Fall(c)[k].state == c[k].state
    {
      FallKeepsDevice(c, k);
    }
  }

  lemma FallKeepsDevice(c: Chain, k: nat)
    requires k < |c| && Wf(c[k])
    ensures Wf(Fall(c)[k]) && Fall(c)[k].part == c[k].part && Fall(c)[k].state == c[k].state
  {
    FallAt(c, k);
    FallWf(c[k]);
    FallState(c[k]);
  }

  lemma FallState(d: Device)
    ensures FallDevice(d).state == d.state
  {
  }

  /** Capture-DR loads the selected register and Shift-DR shows its first bit. */
  lemma CaptureDr(c: Chain, p: Pulse, pull: bool)
    requires WfChain(c) && InStep(c, CaptureDR) && !p.tms
    ensures ShiftingDR(Clock(c, p, pull)) && SameInstructions(c, Clock(c, p, pull))
    ensures SameParts(c, Clock(c, p, pull))
    ensures forall k :: 0 <= k < |c| ==>
      Clock(c, p, pull)[k].dr == Captured(c[k].part, c[k].instruction)
  {
    ClockWf(c, p, pull);
    forall k | 0 <= k < |c|
      ensures var e := Clock(c, p, pull)[k];
        ShowsDr(e) && e.instruction == c[k].instruction && e.dr == Captured(c[k].part, c[k].instruction)
    {
      ClockAt(c, p, pull, k);
      CaptureDrDevice(c[k], InputOf(c, k, p.tdi, pull));
    }
  }

  lemma CaptureDrDevice(d: Device, tdi: bool)
    requires Wf(d) && d.state == CaptureDR
    ensures var e := ClockDevice(d, false, tdi);
      ShowsDr(e) && e.instruction == d.instruction && e.dr == Captured(d.part, d.instruction)
  {
  }

  lemma CaptureIr(c: Chain, p: Pulse, pull: bool)
    requires WfChain(c) && InStep(c, CaptureIR) && !p.tms
    ensures ShiftingIR(Clock(c, p, pull)) && SameParts(c, Clock(c, p, pull))
  {
    ClockWf(c, p, pull);
    forall k | 0 <= k < |c| ensures ShowsIr(Clock(c, p, pull)[k]) {
      ClockAt(c, p, pull, k);
      CaptureIrDevice(c[k], InputOf(c, k, p.tdi, pull));
    }
  }

  lemma CaptureIrDevice(d: Device, tdi: bool)
    requires Wf(d) && d.state == CaptureIR
    ensures ShowsIr(ClockDevice(d, false, tdi))
  {
  }

  /** Update-IR latches what was shifted in; all ones is BYPASS. */
  lemma UpdateIr(c: Chain, p: Pulse, pull: bool)
    requires WfChain(c) && InStep(c, Exit1IR) && p.tms
    requires AllOnes(IrPath(c))
    ensures WfChain(Clock(c, p, pull)) && InStep(Clock(c, p, pull), UpdateIR) && InBypass(Clock(c, p, pull))
    ensures SameParts(c, Clock(c, p, pull))
  {
    ClockWf(c, p, pull);
    PathOnes(c);
    forall k | 0 <= k < |c|
      ensures Clock(c, p, pull)[k].instruction == Bypass && Clock(c, p, pull)[k].state == UpdateIR
    {
      ClockAt(c, p, pull, k);
      UpdateIrDevice(c[k], InputOf(c, k, p.tdi, pull));
    }
  }

  lemma UpdateIrDevice(d: Device, tdi: bool)
    requires d.state == Exit1IR && AllOnes(d.ir)
    ensures ClockDevice(d, true, tdi).instruction == Bypass
    ensures ClockDevice(d, true, tdi).state == UpdateIR
  {
  }

  ghost predicate InBypass(c: Chain) {
    forall k :: 0 <= k < |c| ==> c[k].instruction == Bypass
  }

  lemma {:induction false} PathOnes(c: Chain)
    requires AllOnes(IrPath(c))
    ensures forall k :: 0 <= k < |c| ==> AllOnes(c[k].ir)
  {
    if c != [] {
      var rest := IrPath(c[1..]);
      assert AllOnes(c[0].ir) by {
        forall j | 0 <= j < |c[0].ir| ensures c[0].ir[j] { assert IrPath(c)[j]; }
      }
      assert AllOnes(rest) by {
        forall j | 0 <= j < |rest| ensures rest[j] { assert IrPath(c)[|c[0].ir| + j]; }
      }
      PathOnes(c[1..]);
    }
  }

  /** The total length of the instruction registers. */
  function IrTotal(c: Chain): nat {
    if c == [] then 0 else |c[0].part.irCapture| + IrTotal(c[1..])
  }

  lemma {:induction false} IrPathLength(c: Chain)
    requires WfChain(c)
    ensures |IrPath(c)| == IrTotal(c)
  {
    if c != [] {
      IrPathLength(c[1..]);
    }
  }

  lemma {:induction false} IrTotalKept(c: Chain, d: Chain)
    requires SameParts(c, d)
    ensures IrTotal(c) == IrTotal(d)
  {
    if c != [] {
      forall k | 0 <= k < |c| - 1 ensures c[1..][k].part == d[1..][k].part {
        assert c[k + 1].part == d[k + 1].part;
      }
      IrTotalKept(c[1..], d[1..]);
    }
  }

  // ------------------------------------------------ register contents

  /** Ones have come in at the TDI end i times. */
  predicate TailOnes(s: seq<bool>, i: nat) {
    forall k :: 0 <= k < |s| && k + i >= |s| ==> s[k]
  }

  lemma ShiftOne(s: seq<bool>, i: nat)
    requires TailOnes(s, i)
    ensures TailOnes(Shifted(s, true), i + 1)
  {
  }

  /** n bypass stages after m ones have been shifted in behind the captured zeros. */
  function BypassPath(n: nat, m: nat): (s: seq<bool>)
    ensures |s| == n
    ensures forall k :: 0 <= k < n ==> s[k] == (k + m >= n)
  {
    seq(n, k => k + m >= n)
  }

  lemma ShiftBypass(n: nat, m: nat)
    ensures Shifted(BypassPath(n, m), true) == BypassPath(n, m + 1)
    ensures Shifted(BypassPath(n, 0), false) == BypassPath(n, 0)
  {
  }

  lemma {:induction false} CapturedBypass(c: Chain)
    requires forall k :: 0 <= k < |c| ==> c[k].dr == [false]
    ensures DrPath(c) == BypassPath(|c|, 0)
  {
    if c != [] {
      CapturedBypass(c[1..]);
    }
  }

  lemma TdoIsHead(c: Chain, pull: bool)
    requires ShiftingDR(c) && c != []
    ensures DrPath(c) != [] && Tdo(c, pull) == DrPath(c)[0]
  {
    assert ShowsDr(c[0]);
  }

  /** TDO only moves on the falling edge. */
  lemma RiseKeepsTdo(c: Chain, p: Pulse, pull: bool)
    ensures Tdo(Rise(c, p, pull), pull) == Tdo(c, pull)
  {
  }

  // ------------------------------------------------ the chain as a board

  /** The chain as seen from the pins of the master. */
  function ChainEnv(pull: bool): Env<Chain> {
    Env((c: Chain, p: Pulse) => Rise(c, p, pull), (c: Chain) => Fall(c), (c: Chain) => Tdo(c, pull))
  }

  lemma ChainPulse(c: Chain, p: Pulse, pull: bool)
    ensures Pulsed(ChainEnv(pull), c, p) == Clock(c, p, pull)
    ensures Seen(ChainEnv(pull), c, p) == Tdo(c, pull)
  {
    RiseKeepsTdo(c, p, pull);
  }
}
