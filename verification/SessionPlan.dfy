/** The calls of a burn session: what is asked for, what is accepted, what each call says on the wire, and in which order
    they come. */
module SessionPlan {
  import opened Bytes
  import opened FlashMemory
  import opened FlashImage
  import opened Partitions
  import opened Protocol
  import opened ReadPartsHex
  import opened Cmd
  import opened Core
  import opened Api
  import opened Bounds
  import Enter
  import Handshake
  import Md5Spec
  import Reading
  import Serial
  import Utils

  const AUTOMATIC: U32 := 0xFF
  const ERR_VERIFY_MISMATCH: int := 8003

  /** The command line, as far as it reaches the session. */
  datatype Options = Options(
    target: Target, connect: Handshake.ConnectOptions, nand: seq<Byte>,
    readChipId: bool, unlock: bool, readProtection: bool, lock: bool,
    readBack: seq<Area>, eraseAll: bool, erases: seq<Area>, verifies: seq<Area>,
    verifyAll: bool, jump: U32, noReset: bool)

  /** One call of the serial library. `Read` names what the file holds in the end; `Confirm` asks for the digest of a
      partition that has been written, to be compared with that of its data. */
  datatype Call =
    | DoConnect | GetChipId | GetMap | GetInfo | NandInit | EmmcInfo | Unlock
    | GetProtection | ProbeProtection
    | Read(area: Area, data: seq<Byte>) | Erase(addr: U32, len: U32) | EraseAll
    | Verify(area: Area) | Confirm(area: Area, data: seq<Byte>)
    | Write(addr: U32, data: seq<Byte>, jump: U32)
    | Lock | SelectFlash(index: U32)

  /** A call, its code, and what was said on the wire for it. */
  datatype Step = Step(call: Call, ret: int, talk: seq<Dialogue>)

  predicate Damaging(c: Call) { c.Erase? || c.EraseAll? || c.Write? }

  /** Where the session looks at more than the code: the digest of a file that has been read and of a partition that has
      been written is the one that the device has sent, and a card is not empty. */
  ghost predicate Agrees(s: Step, o: Options, chip: Chip) {
    match s.call
    case Read(a, data) => o.verifyAll ==> Md5Spec.Digest(data) == Reading.DigestIn(s.talk, a.size, chip == Arcs)
    case Confirm(a, data) => Md5Spec.Digest(data) == Reading.DigestIn(s.talk, a.size, chip == Arcs)
    case EmmcInfo => !EmmcTold(s.talk, chip, chip == Arcs, 0, 0)
    case _ => true
  }

  /** A call that went well, or failed in a way that a session goes on after: a loader without the layout command, and one
      without the protection command when it is only asked in order to unlock. */
  ghost predicate Good(s: Step, o: Options, chip: Chip) {
    || (s.ret == 0 && Agrees(s, o, chip))
    || (s.call.GetMap? && (s.ret == 0xFF || s.ret == -Serial.ENOTSUP || s.ret == -Serial.ETIMEDOUT))
    || (s.call.ProbeProtection? && s.ret == -Serial.ENOTSUP)
  }

  ghost predicate AllGood(trace: seq<Step>, o: Options, chip: Chip) {
    forall i {:trigger Good(trace[i], o, chip)} :: 0 <= i < |trace| ==> Good(trace[i], o, chip)
  }

  /** What a session returns for a step that is not good: its code, or that of the comparison, or that of a missing card. */
  function StepCode(s: Step): int {
    if s.ret != 0 then s.ret else if s.call.EmmcInfo? then -ERR_EMMC_INIT_FAILED else -ERR_VERIFY_MISMATCH
  }

  /** The code is that of the first step that is not good. */
  ghost predicate Blames(trace: seq<Step>, o: Options, chip: Chip, ret: int) {
    exists i :: 0 <= i < |trace| && BlamesAt(trace, i, o, chip, ret)
  }

  ghost predicate BlamesAt(trace: seq<Step>, i: nat, o: Options, chip: Chip, ret: int)
    requires i < |trace|
  {
    AllGood(trace[..i], o, chip) && !Good(trace[i], o, chip) && ret == StepCode(trace[i])
  }

  lemma BlamesNew(trace: seq<Step>, s: Step, o: Options, chip: Chip)
    requires AllGood(trace, o, chip) && !Good(s, o, chip)
    ensures Blames(trace + [s], o, chip, StepCode(s))
  {
    hide Good, AllGood;
    var all := trace + [s];
    assert all[..|trace|] == trace && all[|trace|] == s;
    assert BlamesAt(all, |trace|, o, chip, StepCode(s));
  }

  lemma BlamesGrows(trace: seq<Step>, s: Step, o: Options, chip: Chip, ret: int)
    requires Blames(trace, o, chip, ret)
    ensures Blames(trace + [s], o, chip, ret)
  {
    hide Good, AllGood;
    var i :| 0 <= i < |trace| && BlamesAt(trace, i, o, chip, ret);
    var all := trace + [s];
    assert all[..i] == trace[..i] && all[i] == trace[i];
    assert BlamesAt(all, i, o, chip, ret);
  }

  /** Nothing has been erased or written. */
  ghost predicate Quiet(trace: seq<Step>) { forall i :: 0 <= i < |trace| ==> !Damaging(trace[i].call) }

  /** Flashes are only ever selected automatically. */
  ghost predicate Automatic(trace: seq<Step>) {
    forall i :: 0 <= i < |trace| && trace[i].call.SelectFlash? ==> trace[i].call.index == AUTOMATIC
  }

  /** The call was made, and nothing was erased or written after it. */
  ghost predicate Closed(trace: seq<Step>, c: Call) {
    exists k :: 0 <= k < |trace| && trace[k].call == c && Quiet(trace[k + 1..])
  }

  lemma QuietGrows(a: seq<Step>, s: Step)
    requires Quiet(a) && !Damaging(s.call)
    ensures Quiet(a + [s])
  {
  }

  lemma LogGrows(a: seq<Step>, s: Step, o: Options, chip: Chip)
    ensures AllGood(a + [s], o, chip) <==> AllGood(a, o, chip) && Good(s, o, chip)
    ensures Quiet(a + [s]) <==> Quiet(a) && !Damaging(s.call)
    ensures Automatic(a) && (s.call.SelectFlash? ==> s.call.index == AUTOMATIC) ==> Automatic(a + [s])
  {
    hide Good;
    var t := a + [s];
    assert t[|a|] == s && forall i :: 0 <= i < |a| ==> t[i] == a[i];
  }

  lemma CloseNow(a: seq<Step>, s: Step)
    ensures Closed(a + [s], s.call)
  {
    var t := a + [s];
    assert t[|a|].call == s.call && t[|a| + 1..] == [];
  }

  lemma ClosedGrows(a: seq<Step>, s: Step, c: Call)
    requires Closed(a, c) && !Damaging(s.call)
    ensures Closed(a + [s], c)
  {
    var k :| 0 <= k < |a| && a[k].call == c && Quiet(a[k + 1..]);
    var t := a + [s];
    assert t[k + 1..] == a[k + 1..] + [s];
    QuietGrows(a[k + 1..], s);
    assert t[k].call == c && Quiet(t[k + 1..]);
  }

  // ---- On the wire ----

  /** What a call says on the wire, and how its code comes from the answers. */
  ghost predicate Told(s: Step, o: Options, chip: Chip) {
    var ef := chip == Arcs;
    match s.call
    case DoConnect =>
      exists port: Handshake.Port, resets: seq<int> :: Handshake.Connected(s.talk, o.connect, chip, port, resets, s.ret)
    case GetChipId => exists id :: ChipIdTold(s.talk, ef, s.ret, id)
    case GetMap => exists m :: MapTold(s.talk, chip, ef, s.ret, m)
    case GetInfo => exists size :: InfoTold(s.talk, ef, s.ret, size)
    case NandInit => exists size :: NandTold(s.talk, o.nand, ef, s.ret, size)
    case EmmcInfo => exists size :: EmmcTold(s.talk, chip, ef, s.ret, size)
    case Unlock => CommandTold(s.talk, Protects(chip, o.target), CMD_FLASH_UNLOCK, [], ERR_FLASH_UNLOCK_FAILED, ef, s.ret)
    case GetProtection => exists p :: ProtectionTold(s.talk, chip, o.target, ef, s.ret, p)
    case ProbeProtection => exists p :: ProtectionTold(s.talk, chip, o.target, ef, s.ret, p)
    case Read(a, _) => exists queried: bool, stream: bool, md5: seq<Byte>, n: nat ::
      Reading.ReadTold(s.talk, chip, o.target, a.addr, a.size, o.verifyAll, ef, queried, stream, s.ret, md5, n)
    case Erase(addr, len) => EraseTold(s.talk, chip, o.target, addr, len, ef, s.ret)
    case EraseAll => EraseAllTold(s.talk, o.target, ef, s.ret)
    case Verify(a) => exists md5 :: VerifyTold(s.talk, chip, o.target, a.addr, a.size, ef, s.ret, md5)
    case Confirm(a, _) => exists md5 :: VerifyTold(s.talk, chip, o.target, a.addr, a.size, ef, s.ret, md5)
    case Write(addr, data, jump) =>
      WriteTold(s.talk, chip, o.target, addr, data, jump, ef, s.ret) && s.ret != -ERR_FILE_READ_FAILED
    case Lock => CommandTold(s.talk, Protects(chip, o.target), CMD_FLASH_LOCK, [], ERR_FLASH_LOCK_FAILED, ef, s.ret)
    case SelectFlash(index) => IndexTold(s.talk, chip, index, ef, s.ret)
  }

  lemma ReadIsTold(talk: seq<Dialogue>, a: Area, data: seq<Byte>, queried: bool, stream: bool, ret: int, md5: seq<Byte>,
      n: nat, o: Options, chip: Chip)
    requires Reading.ReadTold(talk, chip, o.target, a.addr, a.size, o.verifyAll, chip == Arcs, queried, stream, ret, md5, n)
    ensures Told(Step(Read(a, data), ret, talk), o, chip)
    ensures ret == 0 && o.verifyAll ==> md5 == Reading.DigestIn(talk, a.size, chip == Arcs)
  {
    hide Reading.ReadTold, Reading.DigestIn;
    if ret == 0 && o.verifyAll {
      Reading.ReadDigest(talk, chip, o.target, a.addr, a.size, chip == Arcs, queried, stream, md5, n);
    }
  }

  lemma ConnectIsTold(talk: seq<Dialogue>, port: Handshake.Port, resets: seq<int>, ret: int, o: Options, chip: Chip)
    requires Handshake.Connected(talk, o.connect, chip, port, resets, ret)
    ensures Told(Step(DoConnect, ret, talk), o, chip)
  {
    hide Handshake.Connected;
  }

  lemma VerifyIsTold(talk: seq<Dialogue>, c: Call, a: Area, ret: int, md5: seq<Byte>, o: Options, chip: Chip)
    requires VerifyTold(talk, chip, o.target, a.addr, a.size, chip == Arcs, ret, md5)
    requires c == Verify(a) || (c.Confirm? && c.area == a)
    ensures Told(Step(c, ret, talk), o, chip)
    ensures ret == 0 ==> md5 == Reading.DigestIn(talk, a.size, chip == Arcs)
  {
    hide DigestTold, Reading.DigestIn;
    if ret == 0 {
      Reading.DigestIsIn(talk, o.target, a.addr, a.size, chip == Arcs, ret, md5);
    }
  }

  lemma ChipIdIsTold(talk: seq<Dialogue>, ret: int, id: seq<Byte>, o: Options, chip: Chip)
    requires ChipIdTold(talk, chip == Arcs, ret, id)
    ensures Told(Step(GetChipId, ret, talk), o, chip)
  {
    hide ChipIdTold;
  }

  lemma MapIsTold(talk: seq<Dialogue>, ret: int, m: FlashMap, o: Options, chip: Chip)
    requires MapTold(talk, chip, chip == Arcs, ret, m)
    ensures Told(Step(GetMap, ret, talk), o, chip)
  {
    hide MapTold;
  }

  lemma InfoIsTold(talk: seq<Dialogue>, ret: int, size: int, o: Options, chip: Chip)
    requires InfoTold(talk, chip == Arcs, ret, size)
    ensures Told(Step(GetInfo, ret, talk), o, chip)
  {
    hide InfoTold;
  }

  lemma NandIsTold(talk: seq<Dialogue>, ret: int, size: int, o: Options, chip: Chip)
    requires NandTold(talk, o.nand, chip == Arcs, ret, size)
    ensures Told(Step(NandInit, ret, talk), o, chip)
  {
    hide NandTold;
  }

  lemma EmmcIsTold(talk: seq<Dialogue>, ret: int, size: int, o: Options, chip: Chip)
    requires EmmcTold(talk, chip, chip == Arcs, ret, size)
    ensures Told(Step(EmmcInfo, ret, talk), o, chip)
  {
    hide EmmcTold;
  }

  lemma ProtectionIsTold(c: Call, talk: seq<Dialogue>, ret: int, p: Protection, o: Options, chip: Chip)
    requires ProtectionTold(talk, chip, o.target, chip == Arcs, ret, p) && (c.GetProtection? || c.ProbeProtection?)
    ensures Told(Step(c, ret, talk), o, chip)
  {
    hide ProtectionTold;
  }

  lemma UnlockIsTold(talk: seq<Dialogue>, ret: int, o: Options, chip: Chip)
    requires CommandTold(talk, Protects(chip, o.target), CMD_FLASH_UNLOCK, [], ERR_FLASH_UNLOCK_FAILED, chip == Arcs, ret)
    ensures Told(Step(Unlock, ret, talk), o, chip)
  {
    hide CommandTold;
  }

  lemma LockIsTold(talk: seq<Dialogue>, ret: int, o: Options, chip: Chip)
    requires CommandTold(talk, Protects(chip, o.target), CMD_FLASH_LOCK, [], ERR_FLASH_LOCK_FAILED, chip == Arcs, ret)
    ensures Told(Step(Lock, ret, talk), o, chip)
  {
    hide CommandTold;
  }

  lemma SelectIsTold(talk: seq<Dialogue>, index: U32, ret: int, o: Options, chip: Chip)
    requires IndexTold(talk, chip, index, chip == Arcs, ret)
    ensures Told(Step(SelectFlash(index), ret, talk), o, chip)
  {
    hide IndexTold;
  }

  lemma EraseIsTold(talk: seq<Dialogue>, addr: U32, len: U32, ret: int, o: Options, chip: Chip)
    requires EraseTold(talk, chip, o.target, addr, len, chip == Arcs, ret)
    ensures Told(Step(Erase(addr, len), ret, talk), o, chip)
  {
    hide EraseTold;
  }

  lemma EraseAllIsTold(talk: seq<Dialogue>, ret: int, o: Options, chip: Chip)
    requires EraseAllTold(talk, o.target, chip == Arcs, ret)
    ensures Told(Step(EraseAll, ret, talk), o, chip)
  {
    hide EraseAllTold;
  }

  lemma WriteIsTold(talk: seq<Dialogue>, addr: U32, data: seq<Byte>, jump: U32, ret: int, o: Options, chip: Chip)
    requires WriteTold(talk, chip, o.target, addr, data, jump, chip == Arcs, ret) && ret != -ERR_FILE_READ_FAILED
    ensures Told(Step(Write(addr, data, jump), ret, talk), o, chip)
  {
    hide WriteTold;
  }

  /** What writing does to the memory. */
  lemma WrittenBytes(d: Device, inRam: bool, addr: int, c: seq<Byte>)
    ensures var w := Written(d, inRam, addr, c);
      BankOf(w, inRam).bytes == Put(MediumOf(d, inRam), BankOf(d, inRam).bytes, addr, c) && w.medium == d.medium
  {
  }

  ghost predicate AllTold(trace: seq<Step>, o: Options, chip: Chip) {
    forall i {:trigger Told(trace[i], o, chip)} :: 0 <= i < |trace| ==> Told(trace[i], o, chip)
  }

  /** Only the first call connects. */
  ghost predicate Once(trace: seq<Step>) { forall i :: 0 < i < |trace| ==> !trace[i].call.DoConnect? }

  function Flat(trace: seq<Step>): seq<Dialogue> {
    if trace == [] then [] else Flat(trace[..|trace| - 1]) + trace[|trace| - 1].talk
  }

  /** The log of the wire is what the calls have said, one after the other. */
  ghost predicate Recorded(start: seq<Dialogue>, trace: seq<Step>, log: seq<Dialogue>, o: Options, chip: Chip) {
    log == start + Flat(trace) && AllTold(trace, o, chip) && Once(trace)
  }

  lemma RecordedNext(start: seq<Dialogue>, trace: seq<Step>, log: seq<Dialogue>, o: Options, chip: Chip, s: Step)
    requires Recorded(start, trace, log, o, chip) && Told(s, o, chip) && (s.call.DoConnect? ==> trace == [])
    ensures Recorded(start, trace + [s], log + s.talk, o, chip)
  {
    hide Told;
    var next := trace + [s];
    assert next[..|next| - 1] == trace;
    assert start + Flat(trace) + s.talk == start + (Flat(trace) + s.talk);
  }

  /** Requests that begin a write, carry its data, or erase. */
  predicate Changes(op: Byte) { IsBegin(op) || IsData(op) || IsErase(op) || op == CMD_FLASH_ERASE_CHIP }

  /** A request of a call: only calls that damage change anything, only the selection of a flash selects one, and only
      unlocking unlocks. */
  ghost predicate Mild(d: Dialogue, c: Call) {
    && (Changes(d.Op()) ==> Damaging(c) || c.DoConnect?)
    && (d.Op() == CMD_SET_FLASH_INDEX ==> c.SelectFlash? && d.request == IndexRequest(c.index))
    && (d.Op() == CMD_FLASH_UNLOCK ==> c.Unlock?)
  }

  lemma AskedMild(talk: seq<Dialogue>, op: Byte, body: seq<Byte>, c: Call)
    requires Asks(talk, op, body) && (Changes(op) ==> Damaging(c)) && op != CMD_SET_FLASH_INDEX
    requires op == CMD_FLASH_UNLOCK ==> c.Unlock?
    ensures forall i :: 0 <= i < |talk| ==> Mild(talk[i], c)
  {
    hide Request;
    RequestOp(op, 0, body);
  }

  lemma OpsMild(talk: seq<Dialogue>, ops: set<Byte>, c: Call)
    requires OnlyOps(talk, ops) && CMD_SET_FLASH_INDEX !in ops && CMD_FLASH_UNLOCK !in ops
    requires Damaging(c) || c.DoConnect? || forall op :: op in ops ==> !Changes(op)
    ensures forall i :: 0 <= i < |talk| ==> Mild(talk[i], c)
  {
  }

  lemma SelectMild(talk: seq<Dialogue>, chip: Chip, index: U32, errorFirst: bool, ret: int)
    requires IndexTold(talk, chip, index, errorFirst, ret)
    ensures forall i :: 0 <= i < |talk| ==> Mild(talk[i], SelectFlash(index))
  {
    hide Request, Dialogue.Code;
    RequestOp(CMD_SET_FLASH_INDEX, 0, LittleEndian(index, 4));
  }

  lemma QueryMild(s: Step, o: Options, chip: Chip)
    requires Told(s, o, chip) && !Damaging(s.call) && !s.call.DoConnect? && !s.call.SelectFlash?
    ensures forall i :: 0 <= i < |s.talk| ==> Mild(s.talk[i], s.call)
  {
    hide Asks, Dialogue.Code, Dialogue.Data, Dialogue.Value, Mild, Reading.RangeTold, OnlyOps;
    match s.call {
      case GetChipId => AskedMild(s.talk, CMD_READ_CHIP_ID, [], s.call);
      case GetMap =>
        if s.talk != [] {
          AskedMild(s.talk, CMD_GET_FLASH_LAYOUT, [], s.call);
        }
      case GetInfo => AskedMild(s.talk, CMD_READ_FLASH_ID, [], s.call);
      case NandInit => AskedMild(s.talk, CMD_NAND_INIT, o.nand, s.call);
      case EmmcInfo =>
        if s.talk != [] {
          AskedMild(s.talk, CMD_EMMC_READ_CARD_INFO, [], s.call);
        }
      case Unlock =>
        if s.talk != [] {
          AskedMild(s.talk, CMD_FLASH_UNLOCK, [], s.call);
        }
      case Lock =>
        if s.talk != [] {
          AskedMild(s.talk, CMD_FLASH_LOCK, [], s.call);
        }
      case GetProtection =>
        if s.talk != [] {
          AskedMild(s.talk, CMD_GET_FLASH_PROTECTION, [], s.call);
        }
      case ProbeProtection =>
        if s.talk != [] {
          AskedMild(s.talk, CMD_GET_FLASH_PROTECTION, [], s.call);
        }
      case Verify(a) =>
        if s.talk != [] {
          AskedMild(s.talk, Md5Op(o.target), Md5Body(a.addr, a.size), s.call);
        }
      case Confirm(a, _) =>
        if s.talk != [] {
          AskedMild(s.talk, Md5Op(o.target), Md5Body(a.addr, a.size), s.call);
        }
      case Read(_, _) => OpsMild(s.talk, Reading.ReadOps(), s.call);
    }
  }

  lemma ChangeMild(s: Step, o: Options, chip: Chip)
    requires Told(s, o, chip) && (Damaging(s.call) || s.call.DoConnect?)
    ensures forall i :: 0 <= i < |s.talk| ==> Mild(s.talk[i], s.call)
  {
    hide Asks, Dialogue.Code, Mild, OnlyOps, BlocksSent, Handshake.Connected;
    match s.call {
      case DoConnect =>
        var port: Handshake.Port, resets: seq<int> :| Handshake.Connected(s.talk, o.connect, chip, port, resets, s.ret);
        Handshake.ConnectedOps(s.talk, o.connect, chip, port, resets, s.ret);
        OpsMild(s.talk, Handshake.ConnectOps(), s.call);
      case Erase(addr, len) =>
        if s.talk != [] {
          var op := if o.target.ToFlash? then CMD_FLASH_ERASE_REGION else CMD_EMMC_ERASE_DATA;
          AskedMild(s.talk, op, RangeBody(addr, len), s.call);
        }
      case EraseAll =>
        if s.talk != [] {
          AskedMild(s.talk, CMD_FLASH_ERASE_CHIP, [], s.call);
        }
      case Write(addr, data, jump) =>
        if s.talk != [] {
          OpsMild(s.talk, {BeginOp(o.target), DataOp(o.target), EndOp(o.target)}, s.call);
        }
    }
  }

  lemma ToldMild(s: Step, o: Options, chip: Chip)
    requires Told(s, o, chip)
    ensures forall i :: 0 <= i < |s.talk| ==> Mild(s.talk[i], s.call)
  {
    hide Mild;
    if s.call.SelectFlash? {
      SelectMild(s.talk, chip, s.call.index, chip == Arcs, s.ret);
    } else if Damaging(s.call) || s.call.DoConnect? {
      hide Told;
      ChangeMild(s, o, chip);
    } else {
      hide Told;
      QueryMild(s, o, chip);
    }
  }

  /** Calls that change nothing say nothing that changes anything. */
  lemma {:induction false} QuietFlat(trace: seq<Step>, o: Options, chip: Chip)
    requires AllTold(trace, o, chip) && Quiet(trace) && forall i :: 0 <= i < |trace| ==> !trace[i].call.DoConnect?
    ensures forall j :: 0 <= j < |Flat(trace)| ==> !Changes(Flat(trace)[j].Op())
    decreases |trace|
  {
    hide Told, Changes, Dialogue.Op;
    if trace != [] {
      var k := |trace| - 1;
      QuietFlat(trace[..k], o, chip);
      ToldMild(trace[k], o, chip);
      assert forall i :: 0 <= i < |trace[k].talk| ==> Mild(trace[k].talk[i], trace[k].call);
    }
  }

  /** Flashes are selected on the wire as the calls say. */
  lemma {:induction false} IndexFlat(trace: seq<Step>, o: Options, chip: Chip)
    requires AllTold(trace, o, chip) && Automatic(trace)
    ensures forall j :: 0 <= j < |Flat(trace)| && Flat(trace)[j].Op() == CMD_SET_FLASH_INDEX ==>
              Flat(trace)[j].request == IndexRequest(AUTOMATIC)
    decreases |trace|
  {
    hide Told, Changes, Dialogue.Op, IndexRequest;
    if trace != [] {
      var k := |trace| - 1;
      IndexFlat(trace[..k], o, chip);
      ToldMild(trace[k], o, chip);
      assert forall i :: 0 <= i < |trace[k].talk| ==> Mild(trace[k].talk[i], trace[k].call);
    }
  }

  lemma {:induction false} FlatAppend(a: seq<Step>, b: seq<Step>)
    ensures Flat(a + b) == Flat(a) + Flat(b)
    decreases |b|
  {
    if b == [] {
      assert a + b == a;
    } else {
      var k := |b| - 1;
      FlatAppend(a, b[..k]);
      assert (a + b)[..|a + b| - 1] == a + b[..k] && (a + b)[|a + b| - 1] == b[k];
    }
  }

  /** The request went out after position `from`, and after it nothing that begins a write, carries its data, or erases. */
  ghost predicate ClosedBy(log: seq<Dialogue>, from: nat, request: seq<Byte>) {
    exists k: nat :: from <= k < |log| && log[k].request == request && Unchanged(log, k)
  }

  ghost predicate Unchanged(log: seq<Dialogue>, k: nat) { forall j :: k < j < |log| ==> !Changes(log[j].Op()) }

  /** From position `from` on, flashes are only selected automatically. */
  ghost predicate OnlyAutomatic(log: seq<Dialogue>, from: nat) {
    forall j :: from <= j < |log| && log[j].Op() == CMD_SET_FLASH_INDEX ==> log[j].request == IndexRequest(AUTOMATIC)
  }

  lemma RecordedAutomatic(start: seq<Dialogue>, trace: seq<Step>, log: seq<Dialogue>, o: Options, chip: Chip)
    requires Recorded(start, trace, log, o, chip) && Automatic(trace)
    ensures OnlyAutomatic(log, |start|)
  {
    hide Told, Flat, Dialogue.Op, IndexRequest, AllTold;
    IndexFlat(trace, o, chip);
    forall j | |start| <= j < |log| && log[j].Op() == CMD_SET_FLASH_INDEX ensures log[j].request == IndexRequest(AUTOMATIC) {
      assert log[j] == Flat(trace)[j - |start|];
    }
  }

  /** A call that closes the session closes it on the wire, when it is one request. */
  lemma ClosedOnWire(start: seq<Dialogue>, trace: seq<Step>, log: seq<Dialogue>, o: Options, chip: Chip, c: Call,
      request: seq<Byte>)
    requires Recorded(start, trace, log, o, chip) && Closed(trace, c) && !c.DoConnect?
    requires forall i :: 0 <= i < |trace| && trace[i].call == c ==> |trace[i].talk| == 1 && trace[i].talk[0].request == request
    ensures ClosedBy(log, |start|, request)
  {
    hide AllTold, Once, Flat, Dialogue.Op, Changes, Quiet, ClosedBy;
    var k :| 0 <= k < |trace| && trace[k].call == c && Quiet(trace[k + 1..]);
    FlatAround(trace, k);
    ToldAfter(trace, k, o, chip);
    QuietFlat(trace[k + 1..], o, chip);
    var before, d, after := Flat(trace[..k]), trace[k].talk[0], Flat(trace[k + 1..]);
    assert trace[k].talk == [d];
    assert start + (before + [d] + after) == start + before + [d] + after;
    ClosedAt(start + before, d, after, |start|);
  }

  /** What is said before a call, by the call, and after it. */
  lemma FlatAround(trace: seq<Step>, k: nat)
    requires k < |trace|
    ensures Flat(trace) == Flat(trace[..k]) + trace[k].talk + Flat(trace[k + 1..])
  {
    hide Flat;
    Around(trace, k);
    FlatThree(trace[..k], trace[k], trace[k + 1..]);
  }

  lemma Around(trace: seq<Step>, k: nat)
    requires k < |trace|
    ensures trace[..k] + [trace[k]] + trace[k + 1..] == trace
  {
  }

  lemma FlatThree(before: seq<Step>, s: Step, after: seq<Step>)
    ensures Flat(before + [s] + after) == Flat(before) + s.talk + Flat(after)
  {
    hide Flat;
    FlatAppend(before + [s], after);
    FlatAppend(before, [s]);
    FlatOne(s);
  }

  lemma ToldAfter(trace: seq<Step>, k: nat, o: Options, chip: Chip)
    requires k < |trace| && AllTold(trace, o, chip) && Once(trace)
    ensures AllTold(trace[k + 1..], o, chip)
    ensures var after := trace[k + 1..]; forall i :: 0 <= i < |after| ==> !after[i].call.DoConnect?
  {
    hide Told;
    var after := trace[k + 1..];
    forall i | 0 <= i < |after| ensures Told(after[i], o, chip) && !after[i].call.DoConnect? {
      assert after[i] == trace[k + 1 + i];
    }
  }

  lemma FlatOne(s: Step)
    ensures Flat([s]) == s.talk
  {
    assert [s][..0] == [] && Flat([]) == [];
  }

  lemma ClosedAt(before: seq<Dialogue>, d: Dialogue, after: seq<Dialogue>, from: nat)
    requires from <= |before| && forall j :: 0 <= j < |after| ==> !Changes(after[j].Op())
    ensures ClosedBy(before + [d] + after, from, d.request)
  {
    hide Changes, Dialogue.Op;
    var log, k := before + [d] + after, |before|;
    forall j | k < j < |log| ensures !Changes(log[j].Op()) {
      assert log[j] == after[j - k - 1];
    }
    assert log[k] == d && Unchanged(log, k);
  }

  function LockRequest(): seq<Byte> { Request(CMD_FLASH_LOCK, 0, []) }

  lemma LockOnWire(start: seq<Dialogue>, trace: seq<Step>, log: seq<Dialogue>, o: Options, chip: Chip)
    requires Recorded(start, trace, log, o, chip) && Closed(trace, Lock) && Protects(chip, o.target)
    ensures ClosedBy(log, |start|, LockRequest())
  {
    hide Request, Dialogue.Code, Flat, Closed, Mapped;
    forall i | 0 <= i < |trace| && trace[i].call == Lock
      ensures |trace[i].talk| == 1 && trace[i].talk[0].request == LockRequest()
    {
      assert Told(trace[i], o, chip);
    }
    ClosedOnWire(start, trace, log, o, chip, Lock, LockRequest());
  }

  lemma IndexOnWire(start: seq<Dialogue>, trace: seq<Step>, log: seq<Dialogue>, o: Options, chip: Chip)
    requires Recorded(start, trace, log, o, chip) && Closed(trace, SelectFlash(AUTOMATIC)) && SupportsFlashIndex(chip)
    ensures ClosedBy(log, |start|, IndexRequest(AUTOMATIC))
  {
    hide Request, Dialogue.Code, Flat, Closed, LittleEndian;
    forall i | 0 <= i < |trace| && trace[i].call == SelectFlash(AUTOMATIC)
      ensures |trace[i].talk| == 1 && trace[i].talk[0].request == IndexRequest(AUTOMATIC)
    {
      assert Told(trace[i], o, chip);
    }
    ClosedOnWire(start, trace, log, o, chip, SelectFlash(AUTOMATIC), IndexRequest(AUTOMATIC));
  }

  /** Where flashes consist of whole sectors, no erase leaves the flash it begins in. */
  ghost predicate ErasesInside(trace: seq<Step>, logical: bool, m: FlashMap) {
    logical && m.count <= |m.sizes| && WholeSectors(m) ==>
      forall i :: 0 <= i < |trace| && trace[i].call.Erase? ==> InsideOne(m, trace[i].call.addr, trace[i].call.len)
  }

  ghost predicate EraseInside(c: Call, logical: bool, m: FlashMap) {
    c.Erase? && logical && m.count <= |m.sizes| && WholeSectors(m) ==> InsideOne(m, c.addr, c.len)
  }

  lemma QuietInside(trace: seq<Step>, logical: bool, m: FlashMap)
    requires Quiet(trace)
    ensures ErasesInside(trace, logical, m)
  {
  }

  lemma InsideNext(trace: seq<Step>, logical: bool, m: FlashMap, s: Step)
    requires ErasesInside(trace, logical, m) && EraseInside(s.call, logical, m)
    ensures ErasesInside(trace + [s], logical, m)
  {
    hide InsideOne;
  }

  // ---- Unlocking before damage ----

  /** The lock has been dealt with: the flash has been unlocked, or asked about its protection; and wherever it said that it
      is locked, it has been unlocked since. */
  ghost predicate Freed(trace: seq<Step>, o: Options, chip: Chip) {
    && (exists k :: 0 <= k < |trace| && Faces(trace[k]))
    && (forall k :: 0 <= k < |trace| && TellsLock(trace[k], o, chip) ==> FreedSince(trace, k))
  }

  /** The step unlocks the flash, or asks whether it is locked. */
  predicate Faces(s: Step) { Unlocks(s) || s.call.ProbeProtection? }

  predicate Unlocks(s: Step) { s.call.Unlock? && s.ret == 0 }

  ghost predicate FreedSince(trace: seq<Step>, k: nat) { exists i :: k < i < |trace| && Unlocks(trace[i]) }

  /** Whatever damages a flash comes after that. */
  ghost predicate Guarded(trace: seq<Step>, o: Options, chip: Chip) {
    o.target.ToFlash? ==> forall i :: 0 <= i < |trace| && Damaging(trace[i].call) ==> Freed(trace[..i], o, chip)
  }

  /** The protection is left alone. */
  ghost predicate Untouched(trace: seq<Step>) {
    forall i :: 0 <= i < |trace| ==> !trace[i].call.Unlock? && !trace[i].call.ProbeProtection?
  }

  lemma UntouchedGrows(trace: seq<Step>, s: Step)
    ensures Untouched(trace + [s]) <==> Untouched(trace) && !s.call.Unlock? && !s.call.ProbeProtection?
  {
    var all := trace + [s];
    assert all[|trace|] == s && forall i :: 0 <= i < |trace| ==> all[i] == trace[i];
  }

  lemma FreedByUnlock(trace: seq<Step>, s: Step, o: Options, chip: Chip)
    requires Unlocks(s)
    ensures Freed(trace + [s], o, chip)
  {
    hide ProtectionTold;
    var all := trace + [s];
    assert all[|trace|] == s && Faces(all[|trace|]);
    forall k | 0 <= k < |all| && TellsLock(all[k], o, chip) ensures FreedSince(all, k) {
      assert k < |trace| && Unlocks(all[|trace|]);
    }
  }

  lemma FreedByProbe(trace: seq<Step>, s: Step, o: Options, chip: Chip)
    requires s.call.ProbeProtection? && !SaidLocked(trace + [s], o, chip)
    ensures Freed(trace + [s], o, chip)
  {
    hide TellsLock;
    var all := trace + [s];
    assert all[|trace|] == s && Faces(all[|trace|]);
  }

  lemma FreedGrows(trace: seq<Step>, s: Step, o: Options, chip: Chip)
    requires Freed(trace, o, chip) && !s.call.ProbeProtection?
    ensures Freed(trace + [s], o, chip)
  {
    hide ProtectionTold;
    var all := trace + [s];
    var k :| 0 <= k < |trace| && Faces(trace[k]);
    assert Faces(all[k]);
    forall j | 0 <= j < |all| && TellsLock(all[j], o, chip) ensures FreedSince(all, j) {
      assert all[j] == trace[j];
      var i :| j < i < |trace| && Unlocks(trace[i]);
      assert Unlocks(all[i]);
    }
  }

  lemma GuardedNext(trace: seq<Step>, s: Step, o: Options, chip: Chip)
    requires Guarded(trace, o, chip) && (Damaging(s.call) && o.target.ToFlash? ==> Freed(trace, o, chip))
    ensures Guarded(trace + [s], o, chip)
  {
    hide Freed;
    var all := trace + [s];
    forall i | 0 <= i < |all| && Damaging(all[i].call) && o.target.ToFlash? ensures Freed(all[..i], o, chip) {
      assert all[..i] == trace[..i];
      assert trace[..|trace|] == trace;
    }
  }

  /** The flash has been unlocked, or it has answered anything but that it is locked. */
  predicate Opens(d: Dialogue, errorFirst: bool) {
    || (d.Op() == CMD_FLASH_UNLOCK && d.Code(errorFirst) == 0)
    || (d.Op() == CMD_GET_FLASH_PROTECTION && !(d.Code(errorFirst) == 0 && d.Value() == 1))
  }

  /** From position `from` on, no request begins a write, carries its data, or erases before such an answer. */
  ghost predicate OpenedFirst(log: seq<Dialogue>, from: nat, errorFirst: bool) {
    forall j :: from <= j < |log| && Changes(log[j].Op()) ==> OpenedBefore(log, from, j, errorFirst)
  }

  ghost predicate OpenedBefore(log: seq<Dialogue>, from: nat, j: nat, errorFirst: bool)
    requires j <= |log|
  {
    exists i :: from <= i < j && Opens(log[i], errorFirst)
  }

  lemma StepOpens(s: Step, o: Options, chip: Chip)
    requires Told(s, o, chip) && Protects(chip, o.target)
    requires Unlocks(s) || (s.call.ProbeProtection? && !TellsLock(s, o, chip))
    ensures |s.talk| == 1 && Opens(s.talk[0], chip == Arcs)
  {
    hide Request, Dialogue.Code, Dialogue.Value;
    RequestOp(CMD_FLASH_UNLOCK, 0, []);
    RequestOp(CMD_GET_FLASH_PROTECTION, 0, []);
  }

  /** A step in which the lock has been dealt with for good. */
  lemma FreedWhere(trace: seq<Step>, o: Options, chip: Chip) returns (k: nat)
    requires Freed(trace, o, chip)
    ensures k < |trace| && (Unlocks(trace[k]) || (trace[k].call.ProbeProtection? && !TellsLock(trace[k], o, chip)))
  {
    hide TellsLock;
    k :| 0 <= k < |trace| && Faces(trace[k]);
    if TellsLock(trace[k], o, chip) {
      assert FreedSince(trace, k);
      var i :| k < i < |trace| && Unlocks(trace[i]);
      k := i;
    }
  }

  lemma FreedOpens(trace: seq<Step>, o: Options, chip: Chip)
    requires AllTold(trace, o, chip) && trace != [] && trace[0].call.DoConnect?
    requires Freed(trace, o, chip) && Protects(chip, o.target)
    ensures OpenedBefore(Flat(trace), |trace[0].talk|, |Flat(trace)|, chip == Arcs)
  {
    hide Told, Flat, Freed, TellsLock, Opens;
    var k := FreedWhere(trace, o, chip);
    StepOpens(trace[k], o, chip);
    FlatAround(trace, k);
    FlatAround(trace[..k], 0);
    FlatNone();
    assert trace[..k][..0] == [] && trace[..k][0] == trace[0];
    assert Flat(trace)[|Flat(trace[..k])|] == trace[k].talk[0];
  }

  lemma FlatNone()
    ensures Flat([]) == []
  {
  }

  lemma {:induction false} GuardedFlat(trace: seq<Step>, o: Options, chip: Chip)
    requires AllTold(trace, o, chip) && Once(trace) && trace != [] && trace[0].call.DoConnect?
    requires o.target.ToFlash? && Guarded(trace, o, chip) && Protects(chip, o.target)
    ensures OpenedFirst(Flat(trace), |trace[0].talk|, chip == Arcs)
    decreases |trace|
  {
    hide Told, Changes, Dialogue.Op, Freed, Opens, Flat;
    var k, log, from := |trace| - 1, Flat(trace), |trace[0].talk|;
    var before := Flat(trace[..k]);
    FlatLast(trace);
    if k > 0 {
      GuardedStart(trace, k, o, chip);
      GuardedFlat(trace[..k], o, chip);
    }
    forall j | from <= j < |log| && Changes(log[j].Op()) ensures OpenedBefore(log, from, j, chip == Arcs) {
      if k == 0 {
        FlatNone();
        assert false;
      } else if j < |before| {
        assert log[j] == before[j];
        OpenedStays(before, trace[k].talk, from, j, chip == Arcs);
      } else {
        ToldMild(trace[k], o, chip);
        assert log[j] == trace[k].talk[j - |before|];
        assert Mild(trace[k].talk[j - |before|], trace[k].call);
        FreedOpens(trace[..k], o, chip);
        OpenedLater(before, trace[k].talk, from, |before|, j, chip == Arcs);
      }
    }
  }

  lemma FlatLast(trace: seq<Step>)
    requires trace != []
    ensures Flat(trace) == Flat(trace[..|trace| - 1]) + trace[|trace| - 1].talk
  {
  }

  lemma GuardedStart(trace: seq<Step>, k: nat, o: Options, chip: Chip)
    requires k <= |trace| && AllTold(trace, o, chip) && Once(trace) && Guarded(trace, o, chip)
    ensures AllTold(trace[..k], o, chip) && Once(trace[..k]) && Guarded(trace[..k], o, chip)
  {
    hide Told, Freed;
    var t := trace[..k];
    forall i | 0 <= i < |t| && Damaging(t[i].call) && o.target.ToFlash? ensures Freed(t[..i], o, chip) {
      assert t[..i] == trace[..i] && t[i] == trace[i];
    }
  }

  lemma OpenedStays(a: seq<Dialogue>, b: seq<Dialogue>, from: nat, j: nat, errorFirst: bool)
    requires j <= |a| && OpenedBefore(a, from, j, errorFirst)
    ensures OpenedBefore(a + b, from, j, errorFirst)
  {
    hide Opens;
    var i :| from <= i < j && Opens(a[i], errorFirst);
    assert (a + b)[i] == a[i];
  }

  lemma OpenedLater(a: seq<Dialogue>, b: seq<Dialogue>, from: nat, j: nat, j': nat, errorFirst: bool)
    requires j <= |a| && j <= j' <= |a + b| && OpenedBefore(a, from, j, errorFirst)
    ensures OpenedBefore(a + b, from, j', errorFirst)
  {
    hide Opens;
    var i :| from <= i < j && Opens(a[i], errorFirst);
    assert (a + b)[i] == a[i];
  }

  /** The log of a session that writes to a flash with a lock. */
  lemma GuardedOnWire(start: seq<Dialogue>, trace: seq<Step>, log: seq<Dialogue>, o: Options, chip: Chip)
    requires Recorded(start, trace, log, o, chip) && trace != [] && trace[0].call.DoConnect?
    requires o.target.ToFlash? && Guarded(trace, o, chip) && Protects(chip, o.target)
    ensures OpenedFirst(log, |start| + |trace[0].talk|, chip == Arcs)
  {
    hide Told, Changes, Dialogue.Op, Flat, Guarded, Opens;
    GuardedFlat(trace, o, chip);
    var flat, from := Flat(trace), |trace[0].talk|;
    forall j | |start| + from <= j < |log| && Changes(log[j].Op())
      ensures OpenedBefore(log, |start| + from, j, chip == Arcs)
    {
      assert log[j] == flat[j - |start|];
      var i :| from <= i < j - |start| && Opens(flat[i], chip == Arcs);
      assert log[|start| + i] == flat[i];
    }
  }

  /** From position `from` on, nothing unlocks. */
  ghost predicate NoUnlock(log: seq<Dialogue>, from: nat) {
    forall j :: from <= j < |log| ==> log[j].Op() != CMD_FLASH_UNLOCK
  }

  lemma {:induction false} UntouchedFlat(trace: seq<Step>, o: Options, chip: Chip)
    requires AllTold(trace, o, chip) && Untouched(trace)
    ensures NoUnlock(Flat(trace), 0)
    decreases |trace|
  {
    hide Told, Changes, Dialogue.Op;
    if trace != [] {
      var k := |trace| - 1;
      UntouchedFlat(trace[..k], o, chip);
      ToldMild(trace[k], o, chip);
      assert forall i :: 0 <= i < |trace[k].talk| ==> Mild(trace[k].talk[i], trace[k].call);
    }
  }

  lemma UntouchedOnWire(start: seq<Dialogue>, trace: seq<Step>, log: seq<Dialogue>, o: Options, chip: Chip)
    requires Recorded(start, trace, log, o, chip) && Untouched(trace)
    ensures NoUnlock(log, |start|)
  {
    hide Told, Dialogue.Op, Flat, AllTold, Untouched;
    UntouchedFlat(trace, o, chip);
    forall j | |start| <= j < |log| ensures log[j].Op() != CMD_FLASH_UNLOCK {
      assert log[j] == Flat(trace)[j - |start|];
    }
  }

  /** What a session keeps up at every call: the log of the wire, the selection of flashes, where it erases, and that it
      does not damage a locked flash. */
  ghost predicate Kept(start: seq<Dialogue>, trace: seq<Step>, log: seq<Dialogue>, o: Options, chip: Chip, logical: bool,
      m: FlashMap)
  {
    && Recorded(start, trace, log, o, chip) && Automatic(trace) && ErasesInside(trace, logical, m)
    && Guarded(trace, o, chip)
  }

  lemma KeptNext(start: seq<Dialogue>, trace: seq<Step>, log: seq<Dialogue>, o: Options, chip: Chip, logical: bool,
      m: FlashMap, s: Step)
    requires Kept(start, trace, log, o, chip, logical, m) && Told(s, o, chip) && (s.call.DoConnect? ==> trace == [])
    requires EraseInside(s.call, logical, m) && (s.call.SelectFlash? ==> s.call.index == AUTOMATIC)
    requires Damaging(s.call) && o.target.ToFlash? ==> Freed(trace, o, chip)
    ensures Kept(start, trace + [s], log + s.talk, o, chip, logical, m)
  {
    hide Recorded, Told, ErasesInside, EraseInside, Automatic, Guarded, Freed;
    GuardedNext(trace, s, o, chip);
    RecordedNext(start, trace, log, o, chip, s);
    LogGrows(trace, s, o, chip);
    InsideNext(trace, logical, m, s);
  }

  /** Before anything has been erased, any layout may be adopted. */
  lemma KeptQuiet(start: seq<Dialogue>, trace: seq<Step>, log: seq<Dialogue>, o: Options, chip: Chip, logical: bool,
      m: FlashMap, logical': bool, m': FlashMap)
    requires Kept(start, trace, log, o, chip, logical, m) && Quiet(trace)
    ensures Kept(start, trace, log, o, chip, logical', m')
  {
    hide Recorded, Automatic, ErasesInside, Guarded;
    QuietInside(trace, logical', m');
  }

  lemma KeptNone(start: seq<Dialogue>, o: Options, chip: Chip, logical: bool, m: FlashMap)
    ensures Kept(start, [], start, o, chip, logical, m)
  {
    assert start + [] == start;
  }

  // ---- What a session learns from the answers ----

  /** The step has told this layout. */
  ghost predicate TellsMap(s: Step, chip: Chip, m: FlashMap) {
    s.call.GetMap? && s.ret == 0 && MapTold(s.talk, chip, chip == Arcs, 0, m)
  }

  /** The step has told this size. */
  ghost predicate TellsSize(s: Step, o: Options, chip: Chip, size: int) {
    && s.ret == 0
    && match o.target
       case ToFlash => s.call.GetInfo? && InfoTold(s.talk, chip == Arcs, 0, size)
       case ToNand => s.call.NandInit? && NandTold(s.talk, o.nand, chip == Arcs, 0, size)
       case ToEmmc => s.call.EmmcInfo? && EmmcTold(s.talk, chip, chip == Arcs, 0, size) && size != 0
       case ToRam => false
  }

  /** Layout and size are those that the device has told; where there is no layout, there is one flash. */
  ghost predicate Found(trace: seq<Step>, o: Options, chip: Chip, logical: bool, dual: bool, size: int, m: FlashMap) {
    if logical then
      && (exists i :: 0 <= i < |trace| && TellsMap(trace[i], chip, m))
      && size == m.total && dual == (m.count > 1)
    else !dual && (o.target.ToRam? || exists i :: 0 <= i < |trace| && TellsSize(trace[i], o, chip, size))
  }

  /** Conversely, a layout that the device has told is the one that the session goes by. */
  ghost predicate Minded(trace: seq<Step>, chip: Chip, logical: bool, m: FlashMap) {
    forall i :: 0 <= i < |trace| && trace[i].call.GetMap? && trace[i].ret == 0 ==> logical && TellsMap(trace[i], chip, m)
  }

  /** The device has told that it is locked, when it was asked in order to unlock. */
  ghost predicate TellsLock(s: Step, o: Options, chip: Chip) {
    s.call.ProbeProtection? && s.ret == 0 && ProtectionTold(s.talk, chip, o.target, chip == Arcs, 0, Locked)
  }

  ghost predicate SaidLocked(trace: seq<Step>, o: Options, chip: Chip) {
    exists i :: 0 <= i < |trace| && TellsLock(trace[i], o, chip)
  }

  /** The device has told a layout with two flashes. */
  ghost predicate TellsTwo(s: Step, chip: Chip) { exists m: FlashMap :: TellsMap(s, chip, m) && m.count > 1 }

  /** Two flashes that were told are known. */
  lemma TwoMinded(trace: seq<Step>, chip: Chip, logical: bool, m: FlashMap, i: nat)
    requires Minded(trace, chip, logical, m) && i < |trace| && TellsTwo(trace[i], chip)
    ensures logical && m.count > 1
  {
    hide Dialogue.Data, SaneMap;
    var m' :| TellsMap(trace[i], chip, m') && m'.count > 1;
    assert m == m';
  }

  lemma FoundGrows(trace: seq<Step>, s: Step, o: Options, chip: Chip, logical: bool, dual: bool, size: int, m: FlashMap)
    requires Found(trace, o, chip, logical, dual, size, m)
    ensures Found(trace + [s], o, chip, logical, dual, size, m)
  {
    hide TellsMap, TellsSize;
    var all := trace + [s];
    if logical {
      var i :| 0 <= i < |trace| && TellsMap(trace[i], chip, m);
      assert all[i] == trace[i];
    } else if !o.target.ToRam? {
      var i :| 0 <= i < |trace| && TellsSize(trace[i], o, chip, size);
      assert all[i] == trace[i];
    }
  }

  lemma FoundMap(trace: seq<Step>, s: Step, o: Options, chip: Chip, m: FlashMap)
    requires TellsMap(s, chip, m)
    ensures Found(trace + [s], o, chip, true, m.count > 1, m.total, m)
  {
    hide TellsMap;
    assert (trace + [s])[|trace|] == s;
  }

  lemma FoundSize(trace: seq<Step>, s: Step, o: Options, chip: Chip, size: int, m: FlashMap)
    requires TellsSize(s, o, chip, size)
    ensures Found(trace + [s], o, chip, false, false, size, m)
  {
    hide TellsSize;
    assert (trace + [s])[|trace|] == s;
  }

  lemma FoundRam(trace: seq<Step>, o: Options, chip: Chip, size: int, m: FlashMap)
    requires o.target.ToRam?
    ensures Found(trace, o, chip, false, false, size, m)
  {
  }

  lemma MindedGrows(trace: seq<Step>, s: Step, chip: Chip, logical: bool, m: FlashMap)
    requires Minded(trace, chip, logical, m) && !(s.call.GetMap? && s.ret == 0)
    ensures Minded(trace + [s], chip, logical, m)
  {
    hide TellsMap;
  }

  lemma MindedMap(trace: seq<Step>, s: Step, chip: Chip, m: FlashMap, m': FlashMap)
    requires Minded(trace, chip, false, m) && TellsMap(s, chip, m')
    ensures Minded(trace + [s], chip, true, m')
  {
    hide TellsMap;
  }

  lemma MindedFirst(s: Step, o: Options, chip: Chip, m: FlashMap)
    requires s.call.DoConnect?
    ensures Minded([s], chip, false, m) && !SaidLocked([s], o, chip) && Untouched([s])
  {
  }

  lemma LockGrows(trace: seq<Step>, s: Step, o: Options, chip: Chip)
    ensures SaidLocked(trace + [s], o, chip) <==> SaidLocked(trace, o, chip) || TellsLock(s, o, chip)
    ensures !s.call.ProbeProtection? ==> !TellsLock(s, o, chip)
  {
    var all := trace + [s];
    assert all[|trace|] == s && forall i :: 0 <= i < |trace| ==> all[i] == trace[i];
    if s.call.ProbeProtection? {
      hide TellsLock;
    }
  }

  lemma LockIs(s: Step, o: Options, chip: Chip, p: Protection)
    requires s.call.ProbeProtection? && ProtectionTold(s.talk, chip, o.target, chip == Arcs, s.ret, p)
    ensures TellsLock(s, o, chip) <==> s.ret == 0 && p == Locked
  {
    hide Dialogue.Code, Dialogue.Value, Asks;
  }

  /** The trace begins with this call, unless it is empty. */
  ghost predicate Begins(trace: seq<Step>, first: Step) { trace == [] || trace[0] == first }

  lemma BeginsNext(trace: seq<Step>, s: Step, first: Step)
    requires Begins(trace, first) && (trace == [] ==> s == first)
    ensures Begins(trace + [s], first)
  {
  }

  lemma BeginsNone(first: Step)
    ensures Begins([], first)
  {
  }

  /** The step connects to what is there, with the resets from number `from` to number `to`. */
  ghost predicate Joined(wire: Wire, s: Step, o: Options, chip: Chip, from: int, to: int) {
    s.call.DoConnect? && Enter.Met(wire, s.talk, o.connect, chip, from, to, s.ret)
  }

  /** The address to jump to in the end, with n images for the RAM. */
  function LastJump(o: Options, n: nat): U32 { if o.target.ToRam? && n > 0 then o.jump else 0 }

  /** How many resets come last: one after a failure, and one after a success unless there is something to jump to or the
      command line forbids it. */
  function LastResets(o: Options, n: nat, ret: int): nat {
    if ret != 0 || (LastJump(o, n) == 0 && !o.noReset) then 1 else 0
  }

  // ---- The calls of a session that goes well ----

  function CallsOf(trace: seq<Step>): seq<Call> { seq(|trace|, i requires 0 <= i < |trace| => trace[i].call) }

  lemma CallsNext(a: seq<Step>, s: Step)
    ensures CallsOf(a + [s]) == CallsOf(a) + [s.call]
  {
  }

  function If(condition: bool, calls: seq<Call>): seq<Call> { if condition then calls else [] }

  function DetectCalls(o: Options, chip: Chip, logical: bool): seq<Call> {
    match o.target
    case ToFlash => If(chip == Arcs, [GetMap]) + If(!logical, [GetInfo])
    case ToNand => [NandInit]
    case ToEmmc => [EmmcInfo]
    case ToRam => []
  }

  function PrepareCalls(o: Options, chip: Chip, logical: bool): seq<Call> {
    If(o.readChipId, [GetChipId]) + DetectCalls(o, chip, logical) + If(o.unlock, [Unlock])
    + If(o.readProtection, [GetProtection])
  }

  /** Each range that is read, with what its file holds in the end. */
  function ReadCalls(areas: seq<Area>, data: seq<seq<Byte>>): seq<Call>
    requires |areas| == |data|
  {
    seq(|areas|, i requires 0 <= i < |areas| => Read(areas[i], data[i]))
  }

  function VerifyCalls(areas: seq<Area>): seq<Call> { seq(|areas|, i requires 0 <= i < |areas| => Verify(areas[i])) }

  function EraseCalls(areas: seq<Area>): seq<Call> {
    seq(|areas|, i requires 0 <= i < |areas| => Erase(areas[i].addr, areas[i].size))
  }

  /** The flashes of a layout as areas of the logical address space, which fits 32 bits. */
  function FlashAreas(m: FlashMap, n: nat): seq<Area>
    requires n <= |m.sizes|
  {
    if n == 0 then [] else FlashAreas(m, n - 1) + [Area(Wrap(StartOf(m, n - 1)), m.sizes[n - 1])]
  }

  predicate Alters(o: Options, parts: nat) { o.target.ToFlash? && (o.eraseAll || |o.erases| > 0 || parts > 0) }

  function UnlockCalls(o: Options, parts: nat, locked: bool): seq<Call> {
    If(Alters(o, parts) && !o.unlock, [ProbeProtection] + If(locked, [Unlock]))
  }

  function WipeCalls(o: Options, dual: bool, m: FlashMap): seq<Call>
    requires m.count <= |m.sizes|
  {
    if !o.eraseAll then EraseCalls(o.erases) else if dual then EraseCalls(FlashAreas(m, m.count)) else [EraseAll]
  }

  /** The address to jump to goes with the last of n images for the RAM. */
  function JumpFor(o: Options, i: nat, n: nat): U32 { if o.target.ToRam? && i == n - 1 then o.jump else 0 }

  lemma JumpIs(o: Options, i: nat, n: nat)
    ensures JumpFor(o, i, n) == if o.target.ToRam? && i == n - 1 then o.jump else 0
  {
  }

  /** Each of n partitions is erased, written, and compared. */
  function PartCalls(o: Options, chip: Chip, parts: seq<Part>, n: nat): seq<Call>
    requires Small(parts)
    decreases |parts|
  {
    if parts == [] then []
    else
      var k := |parts| - 1;
      PartCalls(o, chip, parts[..k], n) + OneCalls(o, chip, parts[k], JumpFor(o, k, n))
  }

  function EraseFirst(o: Options, chip: Chip, addr: U32, size: U32): seq<Call> {
    If(o.target.ToFlash? && !AutoErases(chip), [Erase(addr, Wrap(EraseSize(size)))])
  }

  function OneCalls(o: Options, chip: Chip, p: Part, jump: U32): seq<Call>
    requires |p.data| < 0x1_0000_0000
  {
    EraseFirst(o, chip, p.addr, |p.data|) + [Write(p.addr, p.data, jump)] + If(o.verifyAll, [Confirm(AreaOf(p), p.data)])
  }

  function RestoreCalls(o: Options, dual: bool): seq<Call> { If(o.lock, [Lock]) + If(dual, [SelectFlash(AUTOMATIC)]) }

  function AlterCalls(o: Options, chip: Chip, dual: bool, m: FlashMap, locked: bool, parts: seq<Part>): seq<Call>
    requires m.count <= |m.sizes| && Small(parts)
  {
    UnlockCalls(o, |parts|, locked) + WipeCalls(o, dual, m) + VerifyCalls(o.verifies) + PartCalls(o, chip, parts, |parts|)
  }

  /** Every call of a session that goes well, in order. */
  function Plan(o: Options, chip: Chip, logical: bool, dual: bool, m: FlashMap, locked: bool, data: seq<seq<Byte>>,
      parts: seq<Part>): seq<Call>
    requires m.count <= |m.sizes| && Small(parts) && |data| == |o.readBack|
  {
    [DoConnect] + PrepareCalls(o, chip, logical) + ReadCalls(o.readBack, data)
    + AlterCalls(o, chip, dual, m, locked, parts) + RestoreCalls(o, dual)
  }

  /** A session that has made the calls of the plan without erasing or writing had nothing to erase or write. */
  lemma QuietPlan(trace: seq<Step>, o: Options, chip: Chip, logical: bool, dual: bool, m: FlashMap, locked: bool,
      data: seq<seq<Byte>>, parts: seq<Part>)
    requires m.count <= |m.sizes| && Small(parts) && |data| == |o.readBack| && (dual ==> m.count > 1)
    requires CallsOf(trace) == Plan(o, chip, logical, dual, m, locked, data, parts) && Quiet(trace)
    ensures !o.eraseAll && o.erases == [] && parts == []
  {
    hide UnlockCalls, PrepareCalls, ReadCalls, VerifyCalls, RestoreCalls, PartCalls;
    var wipe, burn := WipeCalls(o, dual, m), PartCalls(o, chip, parts, |parts|);
    WipeDamages(o, dual, m);
    PartsDamage(o, chip, parts, |parts|);
    forall c | c in wipe || c in burn ensures !Damaging(c) {
      assert c in CallsOf(trace);
      var i :| 0 <= i < |trace| && CallsOf(trace)[i] == c;
      assert trace[i].call == c;
    }
  }

  lemma WipeDamages(o: Options, dual: bool, m: FlashMap)
    requires m.count <= |m.sizes| && (dual ==> m.count > 1)
    ensures o.eraseAll || o.erases != [] ==> exists c :: c in WipeCalls(o, dual, m) && Damaging(c)
  {
    if o.eraseAll || o.erases != [] {
      var calls := WipeCalls(o, dual, m);
      assert calls[0] in calls && Damaging(calls[0]);
    }
  }

  lemma PartsDamage(o: Options, chip: Chip, parts: seq<Part>, n: nat)
    requires Small(parts)
    ensures parts != [] ==> exists c :: c in PartCalls(o, chip, parts, n) && Damaging(c)
  {
    hide EraseFirst;
    if parts != [] {
      var k := |parts| - 1;
      var write := Write(parts[k].addr, parts[k].data, JumpFor(o, k, n));
      assert write in OneCalls(o, chip, parts[k], JumpFor(o, k, n));
      assert write in PartCalls(o, chip, parts, n) && Damaging(write);
    }
  }

  /** One more call behind those of a loop. */
  lemma Onto(before: seq<Call>, done: seq<Call>, more: seq<Call>)
    ensures before + done + more == before + (done + more)
  {
  }

  lemma OntoThree(before: seq<Call>, a: seq<Call>, b: seq<Call>, c: seq<Call>)
    ensures before + a + b + c == before + (a + b + c)
  {
  }

  lemma OntoFour(before: seq<Call>, a: seq<Call>, b: seq<Call>, c: seq<Call>, d: seq<Call>)
    ensures before + a + b + c + d == before + (a + b + c + d)
  {
  }

  lemma ReadNext(areas: seq<Area>, i: nat, data: seq<seq<Byte>>, more: seq<Byte>)
    requires i < |areas| && |data| == i
    ensures ReadCalls(areas[..i + 1], data + [more]) == ReadCalls(areas[..i], data) + [Read(areas[i], more)]
  {
  }

  lemma VerifyNext(areas: seq<Area>, i: nat)
    requires i < |areas|
    ensures VerifyCalls(areas[..i + 1]) == VerifyCalls(areas[..i]) + [Verify(areas[i])]
  {
  }

  lemma EraseCallsNext(areas: seq<Area>, a: Area)
    ensures EraseCalls(areas + [a]) == EraseCalls(areas) + [Erase(a.addr, a.size)]
  {
  }

  lemma NoCalls(before: seq<Call>)
    ensures before + [] == before && ReadCalls([], []) == [] && VerifyCalls([]) == [] && EraseCalls([]) == []
  {
  }

  lemma NoParts(o: Options, chip: Chip, n: nat)
    ensures PartCalls(o, chip, [], n) == []
  {
  }

  lemma PartNext(o: Options, chip: Chip, parts: seq<Part>, i: nat, n: nat)
    requires i < |parts| && Small(parts)
    ensures PartCalls(o, chip, parts[..i + 1], n)
         == PartCalls(o, chip, parts[..i], n) + OneCalls(o, chip, parts[i], JumpFor(o, i, n))
  {
    assert parts[..i + 1][..i] == parts[..i];
  }

  /** The checks on every range and every partition. */
  ghost predicate Allowed(o: Options, a: Area, flashSize: int, logical: bool, m: FlashMap) {
    && InBounds(a, flashSize)
    && (o.target.ToFlash? && logical ==> m.count <= |m.sizes| && InsideOne(m, a.addr, a.size))
  }

  ghost predicate AllowedErase(o: Options, a: Area, flashSize: int, logical: bool, m: FlashMap) {
    && (!o.target.ToEmmc? ==> a.addr % Utils.FLASH_ALIGN == 0 && a.size % Utils.FLASH_ALIGN == 0)
    && Allowed(o, a, flashSize, logical, m)
  }

  ghost predicate AllowedPart(o: Options, a: Area, flashSize: int, logical: bool, m: FlashMap) {
    && (o.target.ToNand? ==> a.addr % Utils.NAND_ALIGN == 0)
    && (o.target.ToFlash? ==> a.addr % Utils.FLASH_ALIGN == 0)
    && (!o.target.ToRam? ==> Allowed(o, a, flashSize, logical, m))
  }

  /** The codes of the checks, 0 for what is allowed. */
  ghost function AreaCode(o: Options, a: Area, flashSize: int, logical: bool, m: FlashMap): (code: int)
    ensures code == 0 <==> Allowed(o, a, flashSize, logical, m)
  {
    if a.size == 0 then -ERR_ARG_INVALID
    else if Allowed(o, a, flashSize, logical, m) then 0
    else -ERR_ARG_ADDR_OUT_OF_BOUNDS
  }

  ghost function EraseCode(o: Options, a: Area, flashSize: int, logical: bool, m: FlashMap): (code: int)
    ensures code == 0 <==> AllowedErase(o, a, flashSize, logical, m)
  {
    if !o.target.ToEmmc? && (a.addr % Utils.FLASH_ALIGN != 0 || a.size % Utils.FLASH_ALIGN != 0) then -ERR_ARG_ADDR_UNALIGNED
    else AreaCode(o, a, flashSize, logical, m)
  }

  ghost function PartCode(o: Options, a: Area, flashSize: int, logical: bool, m: FlashMap): (code: int)
    ensures code == 0 <==> AllowedPart(o, a, flashSize, logical, m)
  {
    if (o.target.ToNand? && a.addr % Utils.NAND_ALIGN != 0) || (o.target.ToFlash? && a.addr % Utils.FLASH_ALIGN != 0) then
      -ERR_ARG_ADDR_UNALIGNED
    else if o.target.ToRam? then 0
    else AreaCode(o, a, flashSize, logical, m)
  }

  /** The first code that is not 0. */
  function FirstOf(codes: seq<int>): int {
    if codes == [] then 0
    else
      var k := |codes| - 1;
      if FirstOf(codes[..k]) != 0 then FirstOf(codes[..k]) else codes[k]
  }

  lemma FirstNext(codes: seq<int>, i: nat)
    requires i < |codes| && FirstOf(codes[..i]) == 0
    ensures FirstOf(codes[..i + 1]) == codes[i]
  {
    assert codes[..i + 1][..i] == codes[..i];
  }

  lemma {:induction false} FirstStops(codes: seq<int>, i: nat)
    requires i <= |codes| && FirstOf(codes[..i]) != 0
    ensures FirstOf(codes) == FirstOf(codes[..i])
    decreases |codes| - i
  {
    if i == |codes| {
      assert codes[..i] == codes;
    } else {
      assert codes[..i + 1][..i] == codes[..i];
      FirstStops(codes, i + 1);
    }
  }

  lemma FirstNone(codes: seq<int>)
    ensures FirstOf(codes[..0]) == 0
  {
  }

  /** Up to here there is no such code: the next one goes on, or is the first. */
  lemma FirstStep(codes: seq<int>, i: nat)
    requires i < |codes| && FirstOf(codes[..i]) == 0
    ensures if codes[i] == 0 then FirstOf(codes[..i + 1]) == 0 else FirstOf(codes) == codes[i]
  {
    FirstNext(codes, i);
    if codes[i] != 0 {
      FirstStops(codes, i + 1);
    }
  }

  ghost function AreaCodes(o: Options, areas: seq<Area>, flashSize: int, logical: bool, m: FlashMap): (codes: seq<int>)
    ensures |codes| == |areas|
  {
    seq(|areas|, i requires 0 <= i < |areas| => AreaCode(o, areas[i], flashSize, logical, m))
  }

  ghost function EraseCodes(o: Options, flashSize: int, logical: bool, m: FlashMap): (codes: seq<int>)
    ensures |codes| == |o.erases|
  {
    seq(|o.erases|, i requires 0 <= i < |o.erases| => EraseCode(o, o.erases[i], flashSize, logical, m))
  }

  ghost function PartCodes(o: Options, parts: seq<Area>, flashSize: int, logical: bool, m: FlashMap): (codes: seq<int>)
    ensures |codes| == |parts|
  {
    seq(|parts|, i requires 0 <= i < |parts| => PartCode(o, parts[i], flashSize, logical, m))
  }

  /** The code of the first range that is not acceptable: ranges to read, to erase, to take digests of, and partitions. */
  ghost function RangeCode(o: Options, parts: seq<Area>, flashSize: int, logical: bool, m: FlashMap): int {
    FirstOf([FirstOf(AreaCodes(o, o.readBack, flashSize, logical, m)), FirstOf(EraseCodes(o, flashSize, logical, m)),
             FirstOf(AreaCodes(o, o.verifies, flashSize, logical, m)), FirstOf(PartCodes(o, parts, flashSize, logical, m))])
  }

  lemma FirstOfFour(a: int, b: int, c: int, d: int)
    ensures FirstOf([a, b, c, d]) == if a != 0 then a else if b != 0 then b else if c != 0 then c else d
  {
    assert [a][..0] == [] && FirstOf([a]) == a;
    assert [a, b][..1] == [a] && FirstOf([a, b]) == if a != 0 then a else b;
    assert [a, b, c][..2] == [a, b];
    assert [a, b, c, d][..3] == [a, b, c];
  }

  ghost predicate Accepted(o: Options, parts: seq<Area>, flashSize: int, logical: bool, m: FlashMap) {
    && (forall i :: 0 <= i < |o.readBack| ==> Allowed(o, o.readBack[i], flashSize, logical, m))
    && (forall i :: 0 <= i < |o.erases| ==> AllowedErase(o, o.erases[i], flashSize, logical, m))
    && (forall i :: 0 <= i < |o.verifies| ==> Allowed(o, o.verifies[i], flashSize, logical, m))
    && (forall i :: 0 <= i < |parts| ==> AllowedPart(o, parts[i], flashSize, logical, m))
  }

  function AreaOf(p: Part): Area
    requires |p.data| < 0x1_0000_0000
  {
    Area(p.addr, |p.data|)
  }

  predicate AutoErases(chip: Chip) { chip == Castor || chip == Venus }

  /** What the program counts on: the flash of a chip to which it sends no erase before a write erases on its own. */
  predicate ErasesItself(chip: Chip, medium: Medium) { chip == Castor || chip == Venus ==> medium.SelfErasing? }

  /** What the chips and their loaders can do, as the tables of the program say. */
  lemma ChipTable(chip: Chip)
    ensures SupportsEmmc(chip) <==> chip == Arcs
    ensures SupportsFlashLock(chip) <==> chip == Arcs || chip == VenusA
    ensures SupportsFlashIndex(chip) <==> chip == Arcs
    ensures SupportsFlashLayout(chip) <==> chip == Arcs
    ensures Handshake.StreamsByDefault(chip) <==> chip == VenusA
    ensures Handshake.RequiresSysClk(chip) <==> chip == VenusA
    ensures Handshake.RetriesLoaderBlocks(chip) <==> chip == VenusA
    ensures Handshake.RomChangesBaud(chip) <==> chip != Castor
    ensures AutoErases(chip) <==> chip == Castor || chip == Venus
    ensures Handshake.LoadAddr(chip) == if chip == Arcs then 0x2004_0000 else if chip == VenusA then 0x2005_0000 else 0
  {
  }

  /** Erased on command or on its own, a partition that has been written is burned, on any medium. */
  lemma WrittenIsBurned(chip: Chip, medium: Medium, flash: Flash, p: Part)
    requires ErasesItself(chip, medium)
    ensures var before := if AutoErases(chip) then flash else FlashMemory.Erase(flash, p.addr, RoundUp(|p.data|));
      Put(medium, before, p.addr, p.data) == Burn(flash, p)
  {
    hide Put, FlashMemory.Erase, Store, RoundUp;
    PutErased(medium, flash, p.addr, p.data);
    PutSelfErasing(flash, p.addr, p.data);
  }

  /** A memory before a partition is written: the sectors erased, where the program erases them. */
  function Cleared(o: Options, chip: Chip, memory: Flash, p: Part): Flash {
    if o.target.ToFlash? && !AutoErases(chip) then FlashMemory.Erase(memory, p.addr, RoundUp(|p.data|)) else memory
  }

  function WrittenOne(o: Options, chip: Chip, medium: Medium, memory: Flash, p: Part): Flash {
    Put(medium, Cleared(o, chip, memory, p), p.addr, p.data)
  }

  /** A memory of any target after all partitions have been written, in order. */
  function WriteOut(o: Options, chip: Chip, medium: Medium, memory: Flash, parts: seq<Part>): Flash
    decreases |parts|
  {
    if parts == [] then memory
    else
      var k := |parts| - 1;
      WrittenOne(o, chip, medium, WriteOut(o, chip, medium, memory, parts[..k]), parts[k])
  }

  lemma WriteOutNone(o: Options, chip: Chip, medium: Medium, memory: Flash)
    ensures WriteOut(o, chip, medium, memory, []) == memory
  {
  }

  lemma WriteOutNext(o: Options, chip: Chip, medium: Medium, memory: Flash, parts: seq<Part>, i: nat)
    requires i < |parts|
    ensures WriteOut(o, chip, medium, memory, parts[..i + 1])
         == WrittenOne(o, chip, medium, WriteOut(o, chip, medium, memory, parts[..i]), parts[i])
  {
    hide WrittenOne;
    assert parts[..i + 1][..i] == parts[..i];
  }

  /** On a flash, erased on command or on its own, that is burning all partitions. */
  lemma {:induction false} WriteOutBurns(o: Options, chip: Chip, medium: Medium, flash: Flash, parts: seq<Part>)
    requires o.target.ToFlash? && ErasesItself(chip, medium)
    ensures WriteOut(o, chip, medium, flash, parts) == BurnAll(flash, parts)
    decreases |parts|
  {
    hide Put, Burn, FlashMemory.Erase, RoundUp;
    if parts != [] {
      var k := |parts| - 1;
      WriteOutBurns(o, chip, medium, flash, parts[..k]);
      WrittenIsBurned(chip, medium, BurnAll(flash, parts[..k]), parts[k]);
    }
  }

  /** The flash after the erase phase. */
  function Wiped(o: Options, dual: bool, m: FlashMap, flash: Flash): Flash {
    if o.eraseAll then FlashMemory.Erase(flash, 0, if dual then m.total else |flash|)
    else EraseAreas(flash, o.erases)
  }

  lemma InBoundsAll(o: Options, flashSize: int, logical: bool, m: FlashMap)
    requires forall i :: 0 <= i < |o.readBack| ==> Allowed(o, o.readBack[i], flashSize, logical, m)
    ensures forall i :: 0 <= i < |o.readBack| ==> InBounds(o.readBack[i], flashSize)
  {
  }

  ghost predicate AllowedErases(o: Options, flashSize: int, logical: bool, m: FlashMap) {
    forall i :: 0 <= i < |o.erases| ==> AllowedErase(o, o.erases[i], flashSize, logical, m)
  }

  /** An accepted erase lies inside one flash. */
  lemma ErasedInside(o: Options, flashSize: int, logical: bool, m: FlashMap, i: nat)
    requires AllowedErases(o, flashSize, logical, m) && i < |o.erases| && (logical ==> o.target.ToFlash?)
    ensures EraseInside(Erase(o.erases[i].addr, o.erases[i].size), logical, m)
  {
    hide InsideOne;
    assert AllowedErase(o, o.erases[i], flashSize, logical, m);
  }

  /** The erase of an accepted partition, rounded up to sectors, lies inside one flash. */
  lemma PartErasedInside(o: Options, a: Area, flashSize: int, logical: bool, m: FlashMap)
    requires AllowedPart(o, a, flashSize, logical, m) && o.target.ToFlash? && a.size < 0x8000_0000
    ensures EraseInside(Erase(a.addr, Wrap(EraseSize(a.size))), logical, m)
  {
    hide EraseSize, StartOf;
    if logical && m.count <= |m.sizes| && WholeSectors(m) {
      var i: nat :| i < m.count && Inside(m, i, a.addr, a.size);
      EraseStaysInside(m, a, i);
      assert Wrap(EraseSize(a.size)) == EraseSize(a.size) && Inside(m, i, a.addr, EraseSize(a.size));
    }
  }

  ghost predicate AllowedParts(o: Options, parts: seq<Part>, flashSize: int, logical: bool, m: FlashMap)
    requires Small(parts)
  {
    forall i :: 0 <= i < |parts| ==> AllowedPart(o, AreaOf(parts[i]), flashSize, logical, m)
  }

  lemma AllowedAt(o: Options, parts: seq<Part>, flashSize: int, logical: bool, m: FlashMap, i: nat)
    requires Small(parts) && AllowedParts(o, parts, flashSize, logical, m) && i < |parts|
    ensures AllowedPart(o, AreaOf(parts[i]), flashSize, logical, m)
  {
  }

  lemma PartsAllowed(o: Options, parts: seq<Part>, flashSize: int, logical: bool, m: FlashMap)
    requires Small(parts) && Accepted(o, AreasOf(parts), flashSize, logical, m)
    ensures AllowedParts(o, parts, flashSize, logical, m) && AllowedErases(o, flashSize, logical, m)
  {
    forall i | 0 <= i < |parts| ensures AllowedPart(o, AreaOf(parts[i]), flashSize, logical, m) {
      assert AreasOf(parts)[i] == AreaOf(parts[i]);
    }
  }

  lemma SmallParts(table: PartTable)
    requires table.Valid()
    ensures Small(table.parts)
  {
    forall i | 0 <= i < |table.parts| ensures |table.parts[i].data| < 0x8000_0000 {
      assert table.parts[i] == Part(table.addrs[i], table.readers[i].Contents());
    }
  }

  predicate Small(parts: seq<Part>) { forall i :: 0 <= i < |parts| ==> |parts[i].data| < 0x8000_0000 }

  function AreasOf(parts: seq<Part>): seq<Area>
    requires Small(parts)
  {
    seq(|parts|, i requires 0 <= i < |parts| => AreaOf(parts[i]))
  }
}
