/** The Type 4 Tag file system of hydranfc_v2_ce.c (SELECT, READ BINARY and UPDATE BINARY
    of ISO/IEC 7816-4, sections 7.1.1, 7.2.3 and 7.2.5). */
module Type4 {
  import opened Bytes
  import opened ListenMode
  import opened Memory

  const NDEF_SIZE: nat := 0xFFFE
  const CC_SIZE: nat := 15
  const T4T_CLA: byte := 0x00
  const T4T_INS_SELECT: byte := 0xA4
  const T4T_INS_READ: byte := 0xB0
  const T4T_INS_UPDATE: byte := 0xD6

  const AID: seq<byte> := [0xD2, 0x76, 0x00, 0x00, 0x85, 0x01, 0x01]
  const FID_CC: seq<byte> := [0xE1, 0x03]
  const FID_NDEF: seq<byte> := [0xE1, 0x04]
  const SELECT_FILE_ID: seq<byte> := [0xA4, 0x00, 0x0C, 0x02, 0x00, 0x01]

  /** The capability container: its length, version, the largest answers, and the NDEF
      file with its size and access rights. */
  function CcFile(): (f: seq<byte>)
    ensures |f| == CC_SIZE
  {
    [0x00, 0x0F, 0x20, 0x00, 0x7F, 0x00, 0x7F, 0x04, 0x06, 0xE1, 0x04, 0xFF, 0xFE, 0x00, 0x00]
  }

  // ------------------------------------------------------- specification

  datatype State = Idle | AppSelected | CcSelected | FidSelected
  datatype Selected = NoFile | Cc | Ndef

  datatype Files = Files(state: State, selected: Selected, cc: seq<byte>, ndef: seq<byte>)

  datatype Answer = Answer(bytes: seq<byte>) | Undefined

  const DONE: seq<byte> := [0x90, 0x00]
  const NOT_FOUND: seq<byte> := [0x6A, 0x82]
  const TOO_LONG: seq<byte> := [0x62, 0x82]
  const UNSUPPORTED: seq<byte> := [0x68, 0x00]

  predicate ValidFiles(f: Files) {
    |f.cc| == CC_SIZE && |f.ndef| == NDEF_SIZE
  }

  predicate MatchAt(buf: seq<byte>, pattern: seq<byte>, i: nat) {
    i + |pattern| <= |buf| && buf[i..i + |pattern|] == pattern
  }

  /** A pattern starts somewhere in the first twenty bytes of the receive buffer, also in
      bytes that an earlier and longer frame left there. */
  predicate Found(buf: seq<byte>, pattern: seq<byte>) {
    exists i: nat :: i < 20 && MatchAt(buf, pattern, i)
  }

  function Select(f: Files, buf: seq<byte>): (Files, Answer) {
    if Found(buf, AID) then (f.(state := AppSelected), Answer(DONE))
    else if !f.state.Idle? && Found(buf, FID_CC) then (f.(state := CcSelected, selected := Cc), Answer(DONE))
    else if !f.state.Idle? && (Found(buf, FID_NDEF) || Found(buf, SELECT_FILE_ID)) then
      (f.(state := FidSelected, selected := Ndef), Answer(DONE))
    else (f.(state := State.Idle), Answer(NOT_FOUND))
  }

  function Offset(buf: seq<byte>): (n: nat)
    requires |buf| == BUF_SIZE
    ensures n <= 0xFFFF
  {
    var hi: nat, lo: nat := buf[2], buf[3];
    hi * 256 + lo
  }

  function Content(f: Files): (c: seq<byte>)
    requires !f.selected.NoFile?
  {
    if f.selected.Cc? then f.cc else f.ndef
  }

  /** An offset past the end of the file makes the length wrap: undefined. */
  function Read(f: Files, buf: seq<byte>): Answer
    requires |buf| == BUF_SIZE
  {
    if f.selected.NoFile? then Answer(NOT_FOUND)
    else
      var off, file := Offset(buf), Content(f);
      if off > |file| then Undefined else Answer(file[off..off + Min(buf[4], |file| - off)] + DONE)
  }

  /** The change that an UPDATE command asks for. */
  function PatchOf(buf: seq<byte>): (p: Chunk)
    requires |buf| == BUF_SIZE
    ensures p.pos <= 0xFFFF && |p.bytes| < 256
  {
    Chunk(Offset(buf), buf[5..5 + buf[4]])
  }

  function Update(f: Files, buf: seq<byte>): (r: (Files, Answer))
    requires |buf| == BUF_SIZE && |f.ndef| == NDEF_SIZE
  {
    var p := PatchOf(buf);
    if !f.selected.Ndef? then (f, Answer(NOT_FOUND))
    else if p.pos + |p.bytes| > NDEF_SIZE then (f, Answer(TOO_LONG))
    else (f.(ndef := Patched(f.ndef, p)), Answer(DONE))
  }

  /** A command in card emulation state. */
  function Command(f: Files, buf: seq<byte>): (r: (Files, Answer))
    requires |buf| == BUF_SIZE && |f.ndef| == NDEF_SIZE
    ensures |r.0.ndef| == NDEF_SIZE && r.0.cc == f.cc && (r.1.Answer? ==> |r.1.bytes| <= 257)
  {
    if buf[0] == T4T_CLA && buf[1] == T4T_INS_SELECT then Select(f, buf)
    else if buf[0] == T4T_CLA && buf[1] == T4T_INS_READ then (f, Read(f, buf))
    else if buf[0] == T4T_CLA && buf[1] == T4T_INS_UPDATE then Update(f, buf)
    else (f, Answer(UNSUPPORTED))
  }

  // ------------------------------------------------------- the emulation

  method CmdFind(cmd: array<byte>, pattern: seq<byte>) returns (found: bool)
    requires cmd.Length == BUF_SIZE && |pattern| <= 7
    ensures found == Found(cmd[..], pattern)
  {
    var i := 0;
    while i < 20
      invariant 0 <= i <= 20
      invariant forall k: nat :: k < i ==> !MatchAt(cmd[..], pattern, k)
    {
      if cmd[i..i + |pattern|] == pattern {
        assert MatchAt(cmd[..], pattern, i);
        return true;
      }
      i := i + 1;
    }
    found := false;
  }

  /** The two status bytes of an answer. */
  method SetStatus(rsp: array<byte>, at: nat, status: seq<byte>)
    requires at + 2 <= rsp.Length && |status| == 2
    modifies rsp
    ensures rsp[..at + 2] == old(rsp[..at]) + status && rsp[at + 2..] == old(rsp[at + 2..])
  {
    rsp[at], rsp[at + 1] := status[0], status[1];
  }

  /** Data and the status of success. */
  method Respond(rsp: array<byte>, data: seq<byte>)
    requires |data| + 2 <= rsp.Length
    modifies rsp
    ensures rsp[..|data| + 2] == data + DONE && rsp[|data| + 2..] == old(rsp[|data| + 2..])
  {
    Copy(rsp, 0, data);
    assert rsp[..|data|] == data;
    SliceOfBack(rsp[..], |data|, 2, rsp.Length - |data|);
    ghost var n := |data|;
    assert rsp[n + 2..] == rsp[n..][2..] == old(rsp[n..])[2..] == old(rsp[n + 2..]);
    SetStatus(rsp, |data|, DONE);
  }

  class Card4 {
    const ccfile: array<byte>
    const ndefFile: array<byte>
    var nState: State
    var nSelectedIdx: int

    ghost predicate Valid()
      reads this
    {
      && ccfile.Length == CC_SIZE && ndefFile.Length == NDEF_SIZE && ccfile != ndefFile
      && -1 <= nSelectedIdx <= 1
    }

    ghost function Contents(): (f: Files)
      reads this, ccfile, ndefFile
      requires Valid()
      ensures ValidFiles(f)
    {
      var selected := if nSelectedIdx == 0 then Cc else if nSelectedIdx == 1 then Ndef else NoFile;
      Files(nState, selected, ccfile[..], ndefFile[..])
    }

    constructor (ndef: array<byte>)
      requires ndef.Length == NDEF_SIZE
      ensures Valid() && fresh(ccfile) && ndefFile == ndef
      ensures Contents() == Files(State.Idle, NoFile, CcFile(), ndef[..])
    {
      ccfile := new byte[CC_SIZE];
      ndefFile, nState, nSelectedIdx := ndef, State.Idle, -1;
      new;
      Copy(ccfile, 0, CcFile());
      assert ccfile[..] == CcFile();
    }

    method T4Select(cmd: array<byte>, rsp: array<byte>) returns (n: nat)
      requires Valid() && cmd.Length == rsp.Length == BUF_SIZE && rsp != ndefFile && rsp != ccfile
      modifies this`nState, this`nSelectedIdx, rsp
      ensures Valid() && n == 2
      ensures (Contents(), Answer(rsp[..n])) == Select(old(Contents()), old(cmd[..]))
      ensures rsp[n..] == old(rsp[n..])
    {
      var success := false;
      var isAid := CmdFind(cmd, AID);
      var isCc := CmdFind(cmd, FID_CC);
      var isNdef := CmdFind(cmd, FID_NDEF);
      var isFile := CmdFind(cmd, SELECT_FILE_ID);
      if isAid {
        nState, success := AppSelected, true;
      } else if !nState.Idle? && isCc {
        nState, nSelectedIdx, success := CcSelected, 0, true;
      } else if !nState.Idle? && (isNdef || isFile) {
        nState, nSelectedIdx, success := FidSelected, 1, true;
      } else {
        nState := State.Idle;
      }
      SetStatus(rsp, 0, if success then DONE else NOT_FOUND);
      n := 2;
      assert rsp[..n] == if success then DONE else NOT_FOUND;
    }

    method ReadBinary(cmd: array<byte>, rsp: array<byte>) returns (defined: bool, n: nat)
      requires Valid() && cmd.Length == rsp.Length == BUF_SIZE && rsp != ndefFile && rsp != ccfile
      modifies rsp
      ensures defined ==> n <= 257 && rsp[n..] == old(rsp[n..])
      ensures defined ==> Answer(rsp[..n]) == Read(old(Contents()), old(cmd[..]))
      ensures !defined ==> Read(old(Contents()), old(cmd[..])).Undefined?
    {
      var hi: nat, lo: nat := cmd[2], cmd[3];
      var offset := hi * 256 + lo;
      var toRead: int := cmd[4];
      if nSelectedIdx < 0 {
        SetStatus(rsp, 0, NOT_FOUND);
        assert rsp[..2] == NOT_FOUND;
        return true, 2;
      }
      var size := if nSelectedIdx == 0 then CC_SIZE else NDEF_SIZE;
      if offset + toRead > size {
        toRead := (size - offset) % 0x1_0000;
      }
      if offset + toRead > size {
        return false, 0;
      }
      var memory := if nSelectedIdx == 0 then ccfile[..] else ndefFile[..];
      Respond(rsp, memory[offset..offset + toRead]);
      return true, toRead + 2;
    }

    method UpdateBinary(cmd: array<byte>, rsp: array<byte>) returns (n: nat)
      requires Valid() && cmd.Length == rsp.Length == BUF_SIZE && rsp != ndefFile && rsp != ccfile && cmd != ndefFile
      modifies ndefFile, rsp
      ensures Valid() && n == 2
      ensures (Contents(), Answer(rsp[..n])) == Update(old(Contents()), old(cmd[..]))
      ensures rsp[n..] == old(rsp[n..])
    {
      var hi: nat, lo: nat := cmd[2], cmd[3];
      var offset := hi * 256 + lo;
      var length: nat := cmd[4];
      if nSelectedIdx != 1 {
        SetStatus(rsp, 0, NOT_FOUND);
        assert rsp[..2] == NOT_FOUND;
        return 2;
      }
      if offset + length > NDEF_SIZE {
        SetStatus(rsp, 0, TOO_LONG);
        assert rsp[..2] == TOO_LONG;
        return 2;
      }
      Copy(ndefFile, offset, cmd[5..5 + length]);
      assert ndefFile[..] == ndefFile[..offset] + ndefFile[offset..offset + length] + ndefFile[offset + length..];
      SetStatus(rsp, 0, DONE);
      assert rsp[..2] == DONE;
      n := 2;
    }

    /** A command in card emulation state; elsewhere nothing is answered. The command and
        the response may share one buffer. */
    method ProcessCmd(lm: ListenState, cmd: array<byte>, rsp: array<byte>)
        returns (defined: bool, bits: nat, card_reset: bool)
      requires Valid() && cmd.Length == rsp.Length == BUF_SIZE && rsp != ndefFile && rsp != ccfile && cmd != ndefFile
      modifies this`nState, this`nSelectedIdx, ndefFile, rsp
      ensures Valid() && card_reset == Active(lm)
      ensures defined <==> !Step(old(Contents()), lm, old(cmd[..])).1.Undefined?
      ensures defined ==> bits <= 8 * 257 && bits % 8 == 0 && rsp[bits / 8..] == old(rsp[bits / 8..])
      ensures defined ==> (Contents(), Answer(rsp[..bits / 8])) == Step(old(Contents()), lm, old(cmd[..]))
    {
      if !lm.CardEmu4A? {
        assert rsp[..0] == [];
        return true, 0, Active(lm);
      }
      var n;
      defined, n := CardCommand(cmd, rsp);
      return defined, 8 * n, false;
    }

    method CardCommand(cmd: array<byte>, rsp: array<byte>) returns (defined: bool, n: nat)
      requires Valid() && cmd.Length == rsp.Length == BUF_SIZE && rsp != ndefFile && rsp != ccfile && cmd != ndefFile
      modifies this`nState, this`nSelectedIdx, ndefFile, rsp
      ensures Valid()
      ensures defined <==> !Command(old(Contents()), old(cmd[..])).1.Undefined?
      ensures defined ==> n <= 257 && rsp[n..] == old(rsp[n..])
      ensures defined ==> (Contents(), Answer(rsp[..n])) == Command(old(Contents()), old(cmd[..]))
    {
      var cla, ins := cmd[0], cmd[1];
      defined := true;
      if cla == T4T_CLA && ins == T4T_INS_SELECT {
        n := T4Select(cmd, rsp);
      } else if cla == T4T_CLA && ins == T4T_INS_READ {
        defined, n := ReadBinary(cmd, rsp);
      } else if cla == T4T_CLA && ins == T4T_INS_UPDATE {
        n := UpdateBinary(cmd, rsp);
      } else {
        SetStatus(rsp, 0, UNSUPPORTED);
        assert rsp[..2] == UNSUPPORTED;
        n := 2;
      }
    }
  }

  // ---------------------------------------------------------------- runs

  /** One call of the command handler. */
  function Step(f: Files, lm: ListenState, buf: seq<byte>): (r: (Files, Answer))
    requires |buf| == BUF_SIZE && |f.ndef| == NDEF_SIZE
    ensures |r.0.ndef| == NDEF_SIZE && r.0.cc == f.cc && (r.1.Answer? ==> |r.1.bytes| <= 257)
  {
    if lm.CardEmu4A? then Command(f, buf) else (f, Answer([]))
  }

  datatype Call = Call(lm: ListenState, buf: seq<byte>)

  ghost predicate ValidCalls(cs: seq<Call>) {
    forall k :: 0 <= k < |cs| ==> |cs[k].buf| == BUF_SIZE
  }

  function Run(f: Files, cs: seq<Call>): (f1: Files)
    requires |f.ndef| == NDEF_SIZE && forall k :: 0 <= k < |cs| ==> |cs[k].buf| == BUF_SIZE
    ensures |f1.ndef| == NDEF_SIZE
    decreases |cs|
  {
    if cs == [] then f else Run(Step(f, cs[0].lm, cs[0].buf).0, cs[1..])
  }

  predicate Selects(c: Call) {
    c.lm.CardEmu4A? && |c.buf| == BUF_SIZE && c.buf[0] == T4T_CLA && c.buf[1] == T4T_INS_SELECT
  }

  /** A SELECT of the NDEF application. */
  predicate SelectsApp(c: Call) {
    Selects(c) && Found(c.buf, AID)
  }

  predicate Closed(f: Files) {
    f.state.Idle? && f.selected.NoFile?
  }

  lemma ClosedStep(f: Files, c: Call)
    requires ValidFiles(f) && Closed(f) && |c.buf| == BUF_SIZE && !SelectsApp(c)
    ensures Closed(Step(f, c.lm, c.buf).0) && Step(f, c.lm, c.buf).0.ndef == f.ndef
  {
  }

  /** From power-on no file is selected, and none can be written, before a SELECT of the
      application. */
  lemma {:induction false} FileNeedsApp(f: Files, cs: seq<Call>)
    requires ValidFiles(f) && Closed(f) && ValidCalls(cs)
    requires forall k :: 0 <= k < |cs| ==> !SelectsApp(cs[k])
    ensures Closed(Run(f, cs)) && Run(f, cs).ndef == f.ndef
    decreases |cs|
  {
    if cs != [] {
      ClosedStep(f, cs[0]);
      FileNeedsApp(Step(f, cs[0].lm, cs[0].buf).0, cs[1..]);
    }
  }

  /** A file becomes the selected one only by a SELECT while the application is open,
      which the last SELECT before it must have left so. */
  lemma SelectedBySelect(f: Files, c: Call)
    requires ValidFiles(f) && |c.buf| == BUF_SIZE
    ensures var f1 := Step(f, c.lm, c.buf).0;
      && (f1.selected != f.selected ==> Selects(c) && !f.state.Idle? && !f1.selected.NoFile?)
      && (f1.state != f.state ==> Selects(c))
      && (Selects(c) ==> (f1.state.Idle? <==> Step(f, c.lm, c.buf).1 == Answer(NOT_FOUND)))
  {
  }

  /** The updates that succeed in a run, in order. */
  function Patches(f: Files, cs: seq<Call>): seq<Chunk>
    requires |f.ndef| == NDEF_SIZE && forall k :: 0 <= k < |cs| ==> |cs[k].buf| == BUF_SIZE
    decreases |cs|
  {
    if cs == [] then []
    else PatchesOf(f, cs[0]) + Patches(Step(f, cs[0].lm, cs[0].buf).0, cs[1..])
  }

  /** An UPDATE that is answered with success. */
  function PatchesOf(f: Files, c: Call): (ps: seq<Chunk>)
    requires |f.ndef| == NDEF_SIZE && |c.buf| == BUF_SIZE
    ensures |ps| <= 1
  {
    if c.lm.CardEmu4A? && c.buf[0] == T4T_CLA && c.buf[1] == T4T_INS_UPDATE && Update(f, c.buf).1 == Answer(DONE) then
      [PatchOf(c.buf)]
    else []
  }

  lemma PatchesStep(f: Files, c: Call, a: nat)
    requires ValidFiles(f) && |c.buf| == BUF_SIZE && a < NDEF_SIZE
    ensures Step(f, c.lm, c.buf).0.ndef[a] == ByteAt(f.ndef, PatchesOf(f, c), a)
  {
    var p := PatchOf(c.buf);
    if PatchesOf(f, c) == [p] {
      PatchedAt(f.ndef, p, a);
    }
  }

  /** After any run each byte of the NDEF file is that of the last successful UPDATE over
      it, and the one before the run where there was none. */
  lemma {:induction false} RunBytes(f: Files, cs: seq<Call>, a: nat)
    requires ValidFiles(f) && ValidCalls(cs) && a < NDEF_SIZE
    ensures Run(f, cs).ndef[a] == ByteAt(f.ndef, Patches(f, cs), a)
    decreases |cs|
  {
    if cs != [] {
      var f1 := Step(f, cs[0].lm, cs[0].buf).0;
      PatchesStep(f, cs[0], a);
      RunBytes(f1, cs[1..], a);
      CellAtConcat(PatchesOf(f, cs[0]), Patches(f1, cs[1..]), a);
    }
  }

  /** READ at an offset inside the selected NDEF file answers exactly the bytes that the
      successful UPDATEs left, as many as asked for and as the file has, then 90 00. */
  lemma ReadAfterRun(f: Files, cs: seq<Call>, buf: seq<byte>, i: nat)
    requires ValidFiles(f) && ValidCalls(cs) && |buf| == BUF_SIZE
    requires buf[0] == T4T_CLA && buf[1] == T4T_INS_READ && Run(f, cs).selected.Ndef? && Offset(buf) <= NDEF_SIZE
    ensures var n := Min(buf[4], NDEF_SIZE - Offset(buf));
      var answer := Step(Run(f, cs), CardEmu4A, buf).1;
      && answer.Answer? && |answer.bytes| == n + 2 && answer.bytes[n..] == DONE
      && (i < n ==> answer.bytes[i] == ByteAt(f.ndef, Patches(f, cs), Offset(buf) + i))
  {
    if i < Min(buf[4], NDEF_SIZE - Offset(buf)) {
      RunBytes(f, cs, Offset(buf) + i);
    }
  }

  /** No command writes the capability container. */
  lemma {:induction false} CcKept(f: Files, cs: seq<Call>)
    requires ValidFiles(f) && ValidCalls(cs)
    ensures Run(f, cs).cc == f.cc
    decreases |cs|
  {
    if cs != [] {
      CcKept(Step(f, cs[0].lm, cs[0].buf).0, cs[1..]);
    }
  }

  /** So after any run it is read as it was before. */
  lemma ReadCcAfterRun(f: Files, cs: seq<Call>, buf: seq<byte>)
    requires ValidFiles(f) && ValidCalls(cs) && |buf| == BUF_SIZE
    requires buf[0] == T4T_CLA && buf[1] == T4T_INS_READ && Run(f, cs).selected.Cc?
    ensures Step(Run(f, cs), CardEmu4A, buf).1
      == if Offset(buf) > CC_SIZE then Undefined
         else Answer(f.cc[Offset(buf)..Offset(buf) + Min(buf[4], CC_SIZE - Offset(buf))] + DONE)
  {
    CcKept(f, cs);
  }

  /** A SELECT that fails closes the application but leaves the file selected: every READ
      and UPDATE goes on as if it had not been there. */
  lemma FailedSelectKeepsFile(f: Files, buf: seq<byte>, c: Call)
    requires ValidFiles(f) && |buf| == BUF_SIZE && Select(f, buf).1 == Answer(NOT_FOUND)
    requires |c.buf| == BUF_SIZE && !Selects(c)
    ensures var f1 := Select(f, buf).0;
      f1.state.Idle? && Step(f1, c.lm, c.buf) == (Step(f, c.lm, c.buf).0.(state := f1.state), Step(f, c.lm, c.buf).1)
  {
  }

  /** The usual two commands: SELECT of the application by its name, then of a file by its
      identifier, each at its place in the command. */
  lemma SelectByName(f: Files, app: seq<byte>, file: seq<byte>, id: seq<byte>)
    requires ValidFiles(f) && |app| == |file| == BUF_SIZE
    requires Selects(Call(CardEmu4A, app)) && Selects(Call(CardEmu4A, file))
    requires MatchAt(app, AID, 5) && MatchAt(file, id, 5) && id in {FID_CC, FID_NDEF}
    requires !Found(file, AID) && (id == FID_NDEF ==> !Found(file, FID_CC))
    ensures Step(f, CardEmu4A, app) == (f.(state := AppSelected), Answer(DONE))
    ensures var (f2, answer) := Step(Step(f, CardEmu4A, app).0, CardEmu4A, file);
      answer == Answer(DONE) && f2.ndef == f.ndef && Content(f2) == if id == FID_CC then f.cc else f.ndef
  {
    FoundAt(app, AID, 5);
    FoundAt(file, id, 5);
  }

  lemma FoundAt(buf: seq<byte>, pattern: seq<byte>, i: nat)
    requires i < 20 && MatchAt(buf, pattern, i)
    ensures Found(buf, pattern)
  {
  }

  /** What a reader finds out: the container, read whole after any run, tells its own size,
      and a SELECT by the identifier in it opens a file of the size in it. */
  lemma CcDescribesFiles(f: Files, cs: seq<Call>, buf: seq<byte>, answer: seq<byte>, file: seq<byte>)
    requires ValidFiles(f) && f.cc == CcFile() && ValidCalls(cs) && |buf| == |file| == BUF_SIZE
    requires buf[0] == T4T_CLA && buf[1] == T4T_INS_READ && Offset(buf) == 0 && buf[4] >= CC_SIZE
    requires Run(f, cs).selected.Cc? && !Run(f, cs).state.Idle? && Step(Run(f, cs), CardEmu4A, buf).1 == Answer(answer)
    requires Selects(Call(CardEmu4A, file)) && |answer| >= 13 && MatchAt(file, answer[9..11], 5)
    requires !Found(file, AID) && !Found(file, FID_CC)
    ensures |answer| == CC_SIZE + 2 && BigEndian(answer[0..2]) == CC_SIZE
    ensures var (f2, done) := Step(Run(f, cs), CardEmu4A, file);
      done == Answer(DONE) && f2.selected.Ndef? && |Content(f2)| == BigEndian(answer[11..13])
  {
    ReadCcAfterRun(f, cs, buf);
    CcWhole(f.cc, Min(buf[4], CC_SIZE));
    FoundAt(file, answer[9..11], 5);
  }

  lemma CcWhole(cc: seq<byte>, n: nat)
    requires cc == CcFile() && n == CC_SIZE
    ensures cc[0..0 + n] + DONE == cc + DONE && |cc + DONE| == CC_SIZE + 2
    ensures BigEndian((cc + DONE)[0..2]) == CC_SIZE
    ensures (cc + DONE)[9..11] == FID_NDEF && BigEndian((cc + DONE)[11..13]) == NDEF_SIZE
  {
  }

  function BigEndian(s: seq<byte>): nat
    requires |s| == 2
  {
    var hi: nat, lo: nat := s[0], s[1];
    hi * 256 + lo
  }

  // ----------------------------------------------------- bytes of commands

  /** UPDATE BINARY, 00 D6 and a big-endian offset, a length and the data: inside the
      selected NDEF file the bytes from the offset on become the data, and no other. */
  lemma UpdateBytes(f: Files, u: seq<byte>, off: nat, i: nat)
    requires ValidFiles(f) && f.selected.Ndef? && |u| == BUF_SIZE && u[0] == 0x00 && u[1] == 0xD6
    requires off == 256 * (u[2] as nat) + u[3] as nat && off + u[4] <= 0xFFFE && i < 0xFFFE
    ensures var (f1, answer) := Step(f, CardEmu4A, u);
      && answer == Answer([0x90, 0x00]) && f1.selected.Ndef? && f1.cc == f.cc && f1.state == f.state
      && |f1.ndef| == 0xFFFE && f1.ndef[i] == if off <= i < off + u[4] then u[5 + i - off] else f.ndef[i]
  {
    PatchedBytes(f.ndef, PatchOf(u), i);
  }

  lemma PatchedBytes(content: seq<byte>, c: Chunk, i: nat)
    requires c.pos + |c.bytes| <= |content| && i < |content|
    ensures Patched(content, c)[i] == if c.pos <= i < c.pos + |c.bytes| then c.bytes[i - c.pos] else content[i]
  {
  }

  /** READ BINARY, 00 B0, the offset and the length: that many bytes and 90 00. */
  lemma ReadBytes(f: Files, r: seq<byte>, off: nat)
    requires ValidFiles(f) && f.selected.Ndef? && |r| == BUF_SIZE && r[0] == 0x00 && r[1] == 0xB0
    requires off == 256 * (r[2] as nat) + r[3] as nat && off + r[4] <= 0xFFFE
    ensures Step(f, CardEmu4A, r) == (f, Answer(f.ndef[off..off + r[4]] + [0x90, 0x00]))
  {
  }

  /** Whatever was updated is read back. */
  lemma ReadAfterUpdate(f: Files, u: seq<byte>, r: seq<byte>, off: nat)
    requires ValidFiles(f) && f.selected.Ndef? && |u| == |r| == BUF_SIZE && u[0] == 0x00 && u[1] == 0xD6
    requires off == 256 * (u[2] as nat) + u[3] as nat && off + u[4] <= 0xFFFE
    requires r[..5] == [0x00, 0xB0, u[2], u[3], u[4]]
    ensures var (f1, done) := Step(f, CardEmu4A, u);
      done == Answer([0x90, 0x00]) && Step(f1, CardEmu4A, r).1 == Answer(u[5..5 + u[4]] + [0x90, 0x00])
  {
    var f1 := Step(f, CardEmu4A, u).0;
    var n := u[4];
    UpdateBytes(f, u, off, 0);
    assert r[0] == r[..5][0] && r[1] == r[..5][1] && r[2] == r[..5][2] && r[3] == r[..5][3] && r[4] == r[..5][4];
    ReadBytes(f1, r, off);
    var got, sent := f1.ndef[off..off + n], u[5..5 + n];
    forall k | 0 <= k < n ensures got[k] == sent[k] {
      UpdateBytes(f, u, off, off + k);
    }
    assert got == sent;
  }

  /** What is refused: no file selected or the wrong one 6A 82, past the end of the file
      62 82, any other command 68 00; outside of card emulation nothing is answered. */
  lemma Refusals(f: Files, lm: ListenState, buf: seq<byte>)
    requires ValidFiles(f) && |buf| == BUF_SIZE
    ensures !lm.CardEmu4A? ==> Step(f, lm, buf) == (f, Answer([]))
    ensures lm.CardEmu4A? && buf[..2] == [0x00, 0xD6] ==>
      && (!f.selected.Ndef? ==> Step(f, lm, buf) == (f, Answer([0x6A, 0x82])))
      && (f.selected.Ndef? && 256 * (buf[2] as nat) + buf[3] as nat + buf[4] as nat > 0xFFFE ==>
            Step(f, lm, buf) == (f, Answer([0x62, 0x82])))
    ensures lm.CardEmu4A? && buf[..2] == [0x00, 0xB0] && f.selected.NoFile? ==>
      Step(f, lm, buf) == (f, Answer([0x6A, 0x82]))
    ensures lm.CardEmu4A? && buf[..2] == [0x00, 0xA4] && f.state.Idle? ==>
      ((forall i: nat :: i < 20 ==> !MatchAt(buf, [0xD2, 0x76, 0x00, 0x00, 0x85, 0x01, 0x01], i)) ==>
        Step(f, lm, buf) == (f, Answer([0x6A, 0x82])))
    ensures lm.CardEmu4A? && (buf[0] != 0x00 || buf[1] !in [0xA4, 0xB0, 0xD6]) ==>
      Step(f, lm, buf) == (f, Answer([0x68, 0x00]))
  {
    assert buf[..2] == [buf[0], buf[1]];
  }

  /** A reader's first commands, from any state: SELECT of the application D2760000850101,
      then of a file, with nothing but zeros behind it in the buffer. E103 is the capability
      container, E104 and 0001 are the NDEF file. */
  lemma FileOpens(f: Files, app: seq<byte>, file: seq<byte>)
    requires ValidFiles(f) && |app| == |file| == BUF_SIZE
    requires app[..2] == [0x00, 0xA4] && app[5..12] == [0xD2, 0x76, 0x00, 0x00, 0x85, 0x01, 0x01]
    requires file[..5] == [0x00, 0xA4, 0x00, 0x0C, 0x02] && file[5..7] in {[0xE1, 0x03], [0xE1, 0x04], [0x00, 0x01]}
    requires forall i :: 7 <= i < 27 ==> file[i] == 0
    ensures var (f1, done1) := Step(f, CardEmu4A, app);
      var (f2, done2) := Step(f1, CardEmu4A, file);
      && done1 == done2 == Answer([0x90, 0x00]) && f2.ndef == f.ndef && f2.cc == f.cc
      && f2.selected == if file[5..7] == [0xE1, 0x03] then Cc else Ndef
  {
    var id := file[5..7];
    assert app[0] == app[..2][0] && app[1] == app[..2][1];
    assert file[0] == file[..5][0] && file[1] == file[..5][1];
    FoundAt(app, AID, 5);
    forall i: nat | i < 20 ensures !MatchAt(file, AID, i) {
      FirstBytes(file, i, id);
    }
    if id == [0xE1, 0x03] {
      FoundAt(file, FID_CC, 5);
    } else {
      forall i: nat | i < 20 ensures !MatchAt(file, FID_CC, i) {
        FirstBytes(file, i, id);
      }
      if id == [0xE1, 0x04] {
        FoundAt(file, FID_NDEF, 5);
      } else {
        assert file[1..7] == file[..5][1..] + id == SELECT_FILE_ID;
        FoundAt(file, SELECT_FILE_ID, 1);
      }
    }
  }

  lemma FirstBytes(file: seq<byte>, i: nat, id: seq<byte>)
    requires |file| == BUF_SIZE && i < 20 && id == file[5..7]
    requires file[..5] == [0x00, 0xA4, 0x00, 0x0C, 0x02] && id in {[0xE1, 0x03], [0xE1, 0x04], [0x00, 0x01]}
    requires forall k :: 7 <= k < 27 ==> file[k] == 0
    ensures !MatchAt(file, AID, i) && (id != [0xE1, 0x03] ==> !MatchAt(file, FID_CC, i))
  {
    assert id == [file[5], file[6]];
    assert i < 5 ==> file[i] == file[..5][i];
    assert file[i..i + 7][0] == file[i] && file[i..i + 2][0] == file[i] && file[i..i + 2][1] == file[i + 1];
  }
}
