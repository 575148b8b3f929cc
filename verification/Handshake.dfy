/** What is said to connect: the probes, the stages of loading and starting the RAM loader, the attempts of the retry
    loop, and how the code comes from the answers. */
module Handshake {
  import opened Bytes
  import opened Protocol
  import opened Cmd
  import opened Core
  import opened Api
  import Serial

  const ERR_SERIAL_BAUD_UNSUPPORTED: int := 3006
  const ERR_PROBE_NO_SYNC: int := 4001
  const ERR_ROM_BAUD_REJECTED: int := 5001
  const ERR_ROM_SYNC_LOST: int := 5002
  const ERR_BURNER_LOAD_FAILED: int := 5003
  const ERR_BURNER_NO_RESPONSE: int := 5004
  const ERR_BAUD_REJECTED: int := 5005
  const ERR_BAUD_SYNC_LOST: int := 5006

  const ROM_BAUD_RATE_MAX: U32 := 3000000
  const RAM_BLOCK_SIZE: nat := 2048

  function LoadAddr(chip: Chip): U32 {
    match chip case Castor => 0 case Venus => 0 case Arcs => 0x2004_0000 case VenusA => 0x2005_0000
  }

  predicate RomChangesBaud(chip: Chip) { chip != Castor }
  predicate RetriesLoaderBlocks(chip: Chip) { chip == VenusA }
  predicate RequiresSysClk(chip: Chip) { chip == VenusA }
  predicate StreamsByDefault(chip: Chip) { chip == VenusA }

  /** The requests of a connection. */
  function ConnectOps(): set<Byte> {
    {CMD_SYNC, CMD_CHANGE_BAUDRATE, CMD_MEM_BEGIN, CMD_MEM_DATA, CMD_MEM_END, CMD_SET_SYS_CLK}
  }

  // ---- Probing ----

  function SyncRequest(): seq<Byte> { Request(CMD_SYNC, 0, SyncBody()) }

  /** Probes time out until the last one, whose result counts; after a time-out there was no time for another. */
  ghost predicate Probed(talk: seq<Dialogue>, patience: nat, ret: int) {
    && 0 < |talk| <= patience + 1
    && (forall i :: 0 <= i < |talk| ==> talk[i].request == SyncRequest() && GoodEvents(talk[i].exchange.events))
    && (forall i :: 0 <= i < |talk| - 1 ==> SyncOf(talk[i].exchange) == -Serial.ETIMEDOUT)
    && ret == SyncOf(talk[|talk| - 1].exchange)
    && (ret == -Serial.ETIMEDOUT ==> |talk| == patience + 1)
  }

  /** So far all probes have timed out. */
  ghost predicate Probing(talk: seq<Dialogue>) {
    forall i :: 0 <= i < |talk| ==>
      && talk[i].request == SyncRequest() && GoodEvents(talk[i].exchange.events)
      && SyncOf(talk[i].exchange) == -Serial.ETIMEDOUT
  }

  lemma NoProbes()
    ensures Probing([])
  {
  }

  lemma ProbeNext(talk: seq<Dialogue>, d: Dialogue, patience: nat, left: nat, ret: int)
    requires Probing(talk) && |talk| + left == patience
    requires d.request == SyncRequest() && GoodEvents(d.exchange.events) && ret == SyncOf(d.exchange)
    ensures ret == -Serial.ETIMEDOUT ==> Probing(talk + [d])
    ensures ret != -Serial.ETIMEDOUT || left == 0 ==> Probed(talk + [d], patience, ret)
  {
    hide SyncOf, SyncRequest;
    var all := talk + [d];
    assert all[|all| - 1] == d && forall i :: 0 <= i < |talk| ==> all[i] == talk[i];
  }

  /** Probes, however much time there was. */
  ghost predicate ProbesTold(talk: seq<Dialogue>, ret: int) { talk != [] && Probed(talk, |talk| - 1, ret) }

  lemma ProbesAre(talk: seq<Dialogue>, patience: nat, ret: int)
    requires Probed(talk, patience, ret)
    ensures ProbesTold(talk, ret)
  {
    hide SyncOf, SyncRequest;
  }

  // ---- Stages ----

  /** A stage of the way from the ROM to the loader at full speed. A change of speed names what the port of the host
      answers when it is set to that speed. */
  datatype Stage =
    | RomSpeed(baud: U32, port: int) | RomProbe
    | LoadBegin(len: U32, blocks: U32) | LoadBlock(i: U32, data: seq<Byte>) | LoadEnd
    | FirstProbe | Clock | FullSpeed(baud: U32, port: int) | LastProbe

  predicate Probes(g: Stage) { g.RomProbe? || g.FirstProbe? || g.LastProbe? }
  predicate Speeds(g: Stage) { g.RomSpeed? || g.FullSpeed? }

  /** The error of a stage that has failed. */
  function StageError(g: Stage, code: int): (r: int)
    requires code != 0
    ensures r != 0
  {
    match g
    case RomSpeed(_, _) => if code < 0 then -ERR_SERIAL_BAUD_UNSUPPORTED else -ERR_ROM_BAUD_REJECTED
    case RomProbe => -ERR_ROM_SYNC_LOST
    case LoadBegin(_, _) => -ERR_BURNER_LOAD_FAILED
    case LoadBlock(_, _) => -ERR_BURNER_LOAD_FAILED
    case LoadEnd => -ERR_BURNER_LOAD_FAILED
    case FirstProbe => -ERR_BURNER_NO_RESPONSE
    case Clock => Mapped(code, ERR_BURNER_NO_RESPONSE)
    case FullSpeed(_, _) => if code < 0 then -ERR_SERIAL_BAUD_UNSUPPORTED else -ERR_BAUD_REJECTED
    case LastProbe => -ERR_BAUD_SYNC_LOST
  }

  /** A stage that has been reached, its code, and what was said for it. */
  datatype Turn = Turn(stage: Stage, code: int, talk: seq<Dialogue>)

  function BaudBody(baud: U32): (b: seq<Byte>)
    ensures |b| == 8
  {
    RangeBody(baud, BAUD_RATE_INIT)
  }

  function SysClkBody(): (b: seq<Byte>)
    ensures |b| == 8
  {
    seq(8, _ => 0xFF)
  }

  /** The one request, and its answer is the code. */
  ghost predicate Answered(t: Turn, op: Byte, body: seq<Byte>, errorFirst: bool) {
    Asks(t.talk, op, body) && t.code == t.talk[0].Code(errorFirst)
  }

  /** A change of speed: the device answers first, and the port of the host follows. */
  ghost predicate SpeedTold(t: Turn, errorFirst: bool)
    requires Speeds(t.stage)
  {
    && Asks(t.talk, CMD_CHANGE_BAUDRATE, BaudBody(t.stage.baud))
    && t.code == if t.talk[0].Code(errorFirst) != 0 then t.talk[0].Code(errorFirst) else t.stage.port
  }

  /** What a stage says, and how its code comes from the answers. */
  ghost predicate TurnTold(t: Turn, chip: Chip, errorFirst: bool) {
    match t.stage
    case RomSpeed(_, _) => SpeedTold(t, errorFirst)
    case RomProbe => ProbesTold(t.talk, t.code)
    case LoadBegin(len, blocks) =>
      Answered(t, CMD_MEM_BEGIN, BeginBody(len, blocks, RAM_BLOCK_SIZE, LoadAddr(chip)), errorFirst)
    case LoadBlock(i, data) =>
      FlashTries(t.talk, BlockRequest(CMD_MEM_DATA, data, i), errorFirst, if chip == VenusA then 3 else 1, t.code)
    case LoadEnd => Answered(t, CMD_MEM_END, RangeBody(OPTION_REBOOT, LoadAddr(chip)), errorFirst)
    case FirstProbe => ProbesTold(t.talk, t.code)
    case Clock => Answered(t, CMD_SET_SYS_CLK, SysClkBody(), errorFirst)
    case FullSpeed(_, _) => SpeedTold(t, errorFirst)
    case LastProbe => ProbesTold(t.talk, t.code)
  }

  function StagesOf(turns: seq<Turn>): seq<Stage> { seq(|turns|, i requires 0 <= i < |turns| => turns[i].stage) }

  ghost predicate Passed(turns: seq<Turn>, chip: Chip, errorFirst: bool) {
    forall i :: 0 <= i < |turns| ==> TurnTold(turns[i], chip, errorFirst) && turns[i].code == 0
  }

  ghost predicate Failed(t: Turn, chip: Chip, errorFirst: bool, ret: int) {
    TurnTold(t, chip, errorFirst) && t.code != 0 && ret == StageError(t.stage, t.code)
  }

  /** The stages of a plan in order: with 0 all of them have passed, and otherwise the last one reached has failed, with
      its error. */
  ghost predicate Ran(turns: seq<Turn>, plan: seq<Stage>, chip: Chip, errorFirst: bool, ret: int) {
    && StagesOf(turns) <= plan
    && (if ret == 0 then |turns| == |plan| && Passed(turns, chip, errorFirst)
        else turns != [] && Passed(turns[..|turns| - 1], chip, errorFirst)
             && Failed(turns[|turns| - 1], chip, errorFirst, ret))
  }

  lemma RanNone(chip: Chip, errorFirst: bool)
    ensures Ran([], [], chip, errorFirst, 0)
  {
  }

  /** One stage more; `rest` is what would come after it. */
  lemma RanNext(turns: seq<Turn>, done: seq<Stage>, t: Turn, rest: seq<Stage>, chip: Chip, errorFirst: bool)
    requires Ran(turns, done, chip, errorFirst, 0) && TurnTold(t, chip, errorFirst)
    ensures t.code == 0 ==> Ran(turns + [t], done + [t.stage], chip, errorFirst, 0)
    ensures t.code != 0 ==> Ran(turns + [t], done + [t.stage] + rest, chip, errorFirst, StageError(t.stage, t.code))
  {
    hide TurnTold, StageError;
    var all := turns + [t];
    assert all[..|all| - 1] == turns && all[|all| - 1] == t;
    assert StagesOf(all) == StagesOf(turns) + [t.stage];
    assert StagesOf(turns) == done;
  }

  lemma RanJoin(a: seq<Turn>, pa: seq<Stage>, b: seq<Turn>, pb: seq<Stage>, chip: Chip, errorFirst: bool, ret: int)
    requires Ran(a, pa, chip, errorFirst, 0) && Ran(b, pb, chip, errorFirst, ret)
    ensures Ran(a + b, pa + pb, chip, errorFirst, ret)
  {
    hide TurnTold, StageError;
    assert StagesOf(a + b) == StagesOf(a) + StagesOf(b) && StagesOf(a) == pa;
    if ret != 0 {
      assert (a + b)[..|a + b| - 1] == a + b[..|b| - 1] && (a + b)[|a + b| - 1] == b[|b| - 1];
    }
  }

  lemma RanStop(a: seq<Turn>, pa: seq<Stage>, pb: seq<Stage>, chip: Chip, errorFirst: bool, ret: int)
    requires Ran(a, pa, chip, errorFirst, ret) && ret != 0
    ensures Ran(a, pa + pb, chip, errorFirst, ret)
  {
    hide TurnTold, StageError;
  }

  // ---- The stages of an attempt ----

  function If(condition: bool, stages: seq<Stage>): seq<Stage> { if condition then stages else [] }

  /** The wanted speed, but no more than 3 MBd. */
  function RomBaud(baud: U32): (r: U32)
    ensures r <= baud && r <= 3_000_000 && (r == baud || r == 3_000_000)
  {
    if baud > ROM_BAUD_RATE_MAX then ROM_BAUD_RATE_MAX else baud
  }

  predicate SpeedsUp(chip: Chip, baud: U32) { RomChangesBaud(chip) && baud != BAUD_RATE_INIT }

  /** How many blocks the loader is sent in; len + 2047 is a uint32_t. */
  function LoaderBlocks(image: seq<Byte>): U32 { Wrap(|image| + RAM_BLOCK_SIZE - 1) / RAM_BLOCK_SIZE }

  function LoaderBlock(image: seq<Byte>, k: nat): seq<Byte> {
    image[Least(RAM_BLOCK_SIZE * k, |image|)..Least(RAM_BLOCK_SIZE * k + RAM_BLOCK_SIZE, |image|)]
  }

  function BlockStages(image: seq<Byte>, n: U32): (g: seq<Stage>)
    ensures |g| == n
  {
    seq(n, i requires 0 <= i < n => LoadBlock(i, LoaderBlock(image, i)))
  }

  /** Loading an image and starting it. */
  function ImageStages(image: seq<Byte>): seq<Stage>
    requires |image| < 0x1_0000_0000
  {
    [LoadBegin(|image|, LoaderBlocks(image))] + BlockStages(image, LoaderBlocks(image)) + [LoadEnd]
  }

  /** With the ROM. */
  function RomStages(chip: Chip, baud: U32, image: seq<Byte>, port: int): seq<Stage>
    requires |image| < 0x1_0000_0000
  {
    If(SpeedsUp(chip, baud), [RomSpeed(RomBaud(baud), port), RomProbe]) + ImageStages(image)
  }

  /** Only an image that is not empty is loaded. */
  function LoadStages(chip: Chip, baud: U32, image: seq<Byte>, port: int): seq<Stage>
    requires |image| < 0x1_0000_0000
  {
    if image == [] then [] else RomStages(chip, baud, image, port)
  }

  /** With the loader. */
  function SettleStages(chip: Chip, baud: U32, custom: bool, port: int): seq<Stage> {
    [FirstProbe] + If(!custom && RequiresSysClk(chip), [Clock]) + [FullSpeed(baud, port), LastProbe]
  }

  /** Every stage of an attempt. */
  function AllStages(chip: Chip, baud: U32, image: seq<Byte>, custom: bool, port: Port): seq<Stage>
    requires |image| < 0x1_0000_0000
  {
    LoadStages(chip, baud, image, port.rom) + SettleStages(chip, baud, custom, port.full)
  }

  /** Every change of speed and the start of the loader are followed by probes, so that nothing else is said to a device
      that has not answered at its new speed. */
  lemma ProbedAfterChange(chip: Chip, baud: U32, image: seq<Byte>, custom: bool, port: Port, i: nat)
    requires |image| < 0x1_0000_0000
    requires var g := AllStages(chip, baud, image, custom, port); i < |g| && (Speeds(g[i]) || g[i].LoadEnd?)
    ensures var g := AllStages(chip, baud, image, custom, port); i + 1 < |g| && Probes(g[i + 1])
  {
    hide LoaderBlocks, LoaderBlock, RomBaud;
    var load, settle := LoadStages(chip, baud, image, port.rom), SettleStages(chip, baud, custom, port.full);
    if i < |load| {
      var blocks := BlockStages(image, LoaderBlocks(image));
      forall k | 0 <= k < |blocks| ensures blocks[k].LoadBlock? {
      }
    }
  }

  /** Which stages there are with the ROM: it changes its speed on every chip but the first, when another one is wanted and
      there is something to load, to no more than 3 MBd. */
  lemma LoadStagesAre(chip: Chip, baud: U32, image: seq<Byte>, port: int)
    requires |image| < 0x1_0000_0000
    ensures var g := LoadStages(chip, baud, image, port);
      && (forall i :: 0 <= i < |g| ==> !g[i].Clock? && !g[i].FullSpeed?)
      && (forall i :: 0 <= i < |g| && g[i].RomSpeed? ==>
            i == 0 && chip != Castor && baud != 115200 && g[i].baud == Least(baud, 3_000_000))
      && (image != [] && chip != Castor && baud != 115200 ==> g[0].RomSpeed?)
      && (image == [] <==> g == [])
  {
    hide LoaderBlocks, LoaderBlock;
    var blocks := BlockStages(image, LoaderBlocks(image));
    forall k | 0 <= k < |blocks| ensures blocks[k].LoadBlock? {
    }
  }

  /** And with the loader: only VenusA gets its clock, from a loader of its own, and the last change is to the wanted
      speed. */
  lemma SettleStagesAre(chip: Chip, baud: U32, custom: bool, port: int)
    ensures SettleStages(chip, baud, custom, port)
         == if chip == VenusA && !custom then [FirstProbe, Clock, FullSpeed(baud, port), LastProbe]
            else [FirstProbe, FullSpeed(baud, port), LastProbe]
  {
  }

  lemma BlockNext(image: seq<Byte>, i: U32, n: U32)
    requires i < n
    ensures BlockStages(image, n)[..i] == BlockStages(image, i)
    ensures BlockStages(image, i) + [LoadBlock(i, LoaderBlock(image, i))] == BlockStages(image, i + 1)
    ensures BlockStages(image, i + 1) + BlockStages(image, n)[i + 1..] == BlockStages(image, n)
  {
    hide LoaderBlock;
  }

  lemma BlockNone(image: seq<Byte>)
    ensures BlockStages(image, 0) == []
  {
  }

  lemma LoaderBlockIs(image: seq<Byte>, i: nat, offset: nat, length: nat)
    requires offset == RAM_BLOCK_SIZE * i < |image|
    requires length == if offset + RAM_BLOCK_SIZE > |image| then |image| - offset else RAM_BLOCK_SIZE
    ensures LoaderBlock(image, i) == image[offset..offset + length]
  {
  }

  // ---- What the turns add to the log, and to the speed of the device ----

  function Said(turns: seq<Turn>): seq<Dialogue> {
    if turns == [] then [] else Said(turns[..|turns| - 1]) + turns[|turns| - 1].talk
  }

  /** The device has received the request and carried it out. */
  predicate Carried(e: Exchange) { e.sendCode >= 0 && e.carried }

  /** The speed of the device after a turn: a change that it carried out, or that of the loader that it started. */
  function TurnSpeed(t: Turn, speed: nat): nat {
    if t.talk == [] || !Carried(t.talk[0].exchange) then speed
    else if Speeds(t.stage) then t.stage.baud
    else if t.stage.LoadEnd? then BAUD_RATE_INIT
    else speed
  }

  function SpeedAfter(turns: seq<Turn>, speed: nat): nat {
    if turns == [] then speed else TurnSpeed(turns[|turns| - 1], SpeedAfter(turns[..|turns| - 1], speed))
  }

  /** From one log and speed of the device to another, the turns are all that has happened. */
  ghost predicate Links(turns: seq<Turn>, log: seq<Dialogue>, speed: nat, log': seq<Dialogue>, speed': nat) {
    log' == log + Said(turns) && speed' == SpeedAfter(turns, speed)
  }

  lemma LinksNone(log: seq<Dialogue>, speed: nat)
    ensures Links([], log, speed, log, speed)
  {
  }

  lemma LinksNext(turns: seq<Turn>, t: Turn, log: seq<Dialogue>, speed: nat, log': seq<Dialogue>, speed': nat)
    requires Links(turns, log, speed, log', speed')
    ensures Links(turns + [t], log, speed, log' + t.talk, TurnSpeed(t, speed'))
  {
    hide TurnSpeed;
    var all := turns + [t];
    assert all[..|all| - 1] == turns;
    assert log + Said(turns) + t.talk == log + (Said(turns) + t.talk);
  }

  lemma {:induction false} LinksJoin(a: seq<Turn>, b: seq<Turn>, log: seq<Dialogue>, speed: nat, log': seq<Dialogue>,
      speed': nat, log'': seq<Dialogue>, speed'': nat)
    requires Links(a, log, speed, log', speed') && Links(b, log', speed', log'', speed'')
    ensures Links(a + b, log, speed, log'', speed'')
    decreases |b|
  {
    if b == [] {
      assert a + b == a;
    } else {
      hide TurnSpeed;
      var k := |b| - 1;
      LinksJoin(a, b[..k], log, speed, log', speed', log' + Said(b[..k]), SpeedAfter(b[..k], speed'));
      LinksNext(a + b[..k], b[k], log, speed, log' + Said(b[..k]), SpeedAfter(b[..k], speed'));
      assert a + b[..k] + [b[k]] == a + b;
    }
  }

  lemma ProbeTurn(g: Stage, talk: seq<Dialogue>, patience: nat, ret: int, chip: Chip, errorFirst: bool, speed: nat)
    requires Probed(talk, patience, ret) && Probes(g)
    ensures TurnTold(Turn(g, ret, talk), chip, errorFirst) && TurnSpeed(Turn(g, ret, talk), speed) == speed
  {
    ProbesAre(talk, patience, ret);
  }

  // ---- Only the requests of a connection ----

  lemma AskedOps(talk: seq<Dialogue>, op: Byte, body: seq<Byte>)
    requires Asks(talk, op, body) && op in ConnectOps()
    ensures OnlyOps(talk, ConnectOps())
  {
    hide Request, ConnectOps;
    RequestOp(op, 0, body);
  }

  lemma ProbesOps(talk: seq<Dialogue>, patience: nat, ret: int)
    requires Probed(talk, patience, ret)
    ensures OnlyOps(talk, ConnectOps())
  {
    hide Request, SyncOf, SyncBody;
    RequestOp(CMD_SYNC, 0, SyncBody());
  }

  lemma TriesOps(talk: seq<Dialogue>, data: seq<Byte>, i: U32, errorFirst: bool, tries: nat, ret: int)
    requires FlashTries(talk, BlockRequest(CMD_MEM_DATA, data, i), errorFirst, tries, ret)
    ensures OnlyOps(talk, ConnectOps())
  {
    hide Request, Dialogue.Code, Checksum, BlockBody;
    RequestOp(CMD_MEM_DATA, Checksum(data), BlockBody(i, data));
  }

  lemma TurnOps(t: Turn, chip: Chip, errorFirst: bool)
    requires TurnTold(t, chip, errorFirst)
    ensures OnlyOps(t.talk, ConnectOps())
  {
    hide Asks, Probed, Dialogue.Code, OnlyOps;
    match t.stage {
      case RomSpeed(baud, _) => AskedOps(t.talk, CMD_CHANGE_BAUDRATE, BaudBody(baud));
      case FullSpeed(baud, _) => AskedOps(t.talk, CMD_CHANGE_BAUDRATE, BaudBody(baud));
      case RomProbe => ProbesOps(t.talk, |t.talk| - 1, t.code);
      case FirstProbe => ProbesOps(t.talk, |t.talk| - 1, t.code);
      case LastProbe => ProbesOps(t.talk, |t.talk| - 1, t.code);
      case LoadBegin(len, blocks) =>
        AskedOps(t.talk, CMD_MEM_BEGIN, BeginBody(len, blocks, RAM_BLOCK_SIZE, LoadAddr(chip)));
      case LoadBlock(i, data) => TriesOps(t.talk, data, i, errorFirst, if chip == VenusA then 3 else 1, t.code);
      case LoadEnd => AskedOps(t.talk, CMD_MEM_END, RangeBody(OPTION_REBOOT, LoadAddr(chip)));
      case Clock => AskedOps(t.talk, CMD_SET_SYS_CLK, SysClkBody());
    }
  }

  lemma {:induction false} TurnsOps(turns: seq<Turn>, chip: Chip, errorFirst: bool)
    requires forall i :: 0 <= i < |turns| ==> TurnTold(turns[i], chip, errorFirst)
    ensures OnlyOps(Said(turns), ConnectOps())
    decreases |turns|
  {
    hide TurnTold, OnlyOps, ConnectOps;
    if turns == [] {
      NoOps(ConnectOps());
    } else {
      var k := |turns| - 1;
      TurnsOps(turns[..k], chip, errorFirst);
      TurnOps(turns[k], chip, errorFirst);
      OpsJoin(Said(turns[..k]), turns[k].talk, ConnectOps());
    }
  }

  lemma RanOps(turns: seq<Turn>, plan: seq<Stage>, chip: Chip, errorFirst: bool, ret: int)
    requires Ran(turns, plan, chip, errorFirst, ret)
    ensures OnlyOps(Said(turns), ConnectOps())
  {
    hide TurnTold, StageError;
    forall i | 0 <= i < |turns| ensures TurnTold(turns[i], chip, errorFirst) {
      if i < |turns| - 1 {
        assert turns[i] == turns[..|turns| - 1][i];
      }
    }
    TurnsOps(turns, chip, errorFirst);
  }

  // ---- Attempts ----

  datatype ConnectOptions = ConnectOptions(attempts: U32, resetDelay: U32, baud: U32, burner: seq<Byte>, builtin: seq<Byte>)
  {
    /** An empty `burner` stands for the built-in loader. */
    function Image(): seq<Byte> { if burner == [] then builtin else burner }

    predicate Valid() { |burner| < 0x1_0000_0000 && |builtin| < 0x1_0000_0000 }
  }

  /** What the host finds at its own end: the answers of its port to the two speeds. */
  datatype Port = Port(rom: int, full: int)

  /** An attempt: the reset fails, or nobody answers, or the stages are run. */
  datatype Attempt =
    | NotReset(code: int)
    | NotProbed(code: int, probes: seq<Dialogue>)
    | Entered(code: int, probes: seq<Dialogue>, loading: seq<Turn>, settling: seq<Turn>)

  function AttemptTalk(a: Attempt): seq<Dialogue> {
    match a
    case NotReset(_) => []
    case NotProbed(_, probes) => probes
    case Entered(_, probes, loading, settling) => probes + Said(loading) + Said(settling)
  }

  /** Probes to which nobody answers in time have a code of their own. */
  ghost predicate ConnectTold(probes: seq<Dialogue>, code: int) {
    || (code != -Serial.ETIMEDOUT && ProbesTold(probes, code))
    || (code == -ERR_PROBE_NO_SYNC && ProbesTold(probes, -Serial.ETIMEDOUT))
  }

  /** Loading, and when that has gone well, settling. */
  ghost predicate EnterTold(loading: seq<Turn>, settling: seq<Turn>, o: ConnectOptions, chip: Chip, port: Port, ret: int)
    requires o.Valid()
  {
    var load, settle := LoadStages(chip, o.baud, o.Image(), port.rom), SettleStages(chip, o.baud, o.burner != [], port.full);
    if settling == [] then ret != 0 && Ran(loading, load, chip, false, ret)
    else Ran(loading, load, chip, false, 0) && Ran(settling, settle, chip, chip == Arcs, ret)
  }

  /** An attempt that begins with a reset of this code; 0 stands for none as well. */
  ghost predicate AttemptTold(a: Attempt, o: ConnectOptions, chip: Chip, port: Port, reset: int)
    requires o.Valid()
  {
    match a
    case NotReset(code) => code == reset != 0
    case NotProbed(code, probes) => reset == 0 && code != 0 && ConnectTold(probes, code)
    case Entered(code, probes, loading, settling) =>
      reset == 0 && ConnectTold(probes, 0) && EnterTold(loading, settling, o, chip, port, code)
  }

  /** After these attempts there is no other one. */
  predicate Final(a: Attempt) { a.code == 0 || (a.Entered? && a.code == -ERR_SERIAL_BAUD_UNSUPPORTED) }

  /** The speed of the device after an attempt without a reset. */
  function AttemptSpeed(a: Attempt, speed: nat): nat {
    if a.Entered? then SpeedAfter(a.loading + a.settling, speed) else speed
  }

  /** Each of the first n attempts has left the device at the initial speed. */
  ghost predicate CameBack(attempts: seq<Attempt>, n: int) {
    forall i :: 0 <= i < n && i < |attempts| ==> AttemptSpeed(attempts[i], BAUD_RATE_INIT) == BAUD_RATE_INIT
  }

  /** Where the last attempt has left it. */
  function LastSpeed(attempts: seq<Attempt>): nat {
    if attempts == [] then BAUD_RATE_INIT else AttemptSpeed(attempts[|attempts| - 1], BAUD_RATE_INIT)
  }

  lemma CameBackNext(attempts: seq<Attempt>, a: Attempt)
    ensures CameBack(attempts + [a], |attempts|) <==>
              CameBack(attempts, |attempts| - 1) && LastSpeed(attempts) == BAUD_RATE_INIT
    ensures LastSpeed(attempts + [a]) == AttemptSpeed(a, BAUD_RATE_INIT)
  {
    hide AttemptSpeed;
    var all := attempts + [a];
    assert forall i :: 0 <= i < |attempts| ==> all[i] == attempts[i];
  }

  /** How host and device keep pace: with a reset before each later attempt they stay in step, and without resets they do
      as long as each attempt with another one behind it has come back to the initial speed. */
  ghost predicate Paced(attempts: seq<Attempt>, steady: bool, free: bool, inStep: bool, speed: nat) {
    && (steady ==> inStep && (attempts == [] ==> speed == BAUD_RATE_INIT))
    && (free ==> (inStep <==> CameBack(attempts, |attempts| - 1)))
    && (free && inStep ==> speed == LastSpeed(attempts))
  }

  lemma PacedNext(attempts: seq<Attempt>, a: Attempt, steady: bool, free: bool, reset: bool, inStep: bool, speed: nat,
      inStep': bool, speed': nat)
    requires Paced(attempts, steady, free, inStep, speed)
    requires (steady ==> reset || attempts == []) && (free ==> !reset && speed' == AttemptSpeed(a, speed))
    requires (steady || free) && inStep && (reset || speed == BAUD_RATE_INIT) ==> inStep'
    requires (free && speed != BAUD_RATE_INIT ==> !inStep') && (inStep' ==> inStep)
    ensures Paced(attempts + [a], steady, free, inStep', speed')
  {
    hide AttemptSpeed, CameBack;
    CameBackNext(attempts, a);
  }

  lemma PacedFirst(steady: bool, free: bool, inStep: bool, speed: nat)
    requires steady || free ==> inStep && speed == BAUD_RATE_INIT
    ensures Paced([], steady, free, inStep, speed)
  {
  }

  lemma PacedIs(attempts: seq<Attempt>, steady: bool, free: bool, inStep: bool, speed: nat)
    requires Paced(attempts, steady, free, inStep, speed)
    ensures (steady ==> inStep) && (free ==> (inStep <==> CameBack(attempts, |attempts| - 1)))
  {
  }

  /** How many resets n attempts take: one each, but for the first, unless there is no reset delay. */
  function ResetsOf(o: ConnectOptions, n: nat): nat { if o.resetDelay == 0 || n == 0 then 0 else n - 1 }

  /** The code of the reset that attempt i begins with. */
  function ResetBefore(o: ConnectOptions, resets: seq<int>, i: nat): int
    requires i > 0 && o.resetDelay != 0 ==> i <= |resets|
  {
    if i == 0 || o.resetDelay == 0 then 0 else resets[i - 1]
  }

  ghost predicate AllAttempts(attempts: seq<Attempt>, o: ConnectOptions, chip: Chip, port: Port, resets: seq<int>)
    requires o.Valid()
  {
    && |resets| == ResetsOf(o, |attempts|)
    && forall i :: 0 <= i < |attempts| ==> AttemptTold(attempts[i], o, chip, port, ResetBefore(o, resets, i))
  }

  /** The attempts of a connection: each but the last calls for another one, and the last one gives the code. There are
      none at all when attempts + 1 is 0 as a uint32_t. */
  ghost predicate Attempted(attempts: seq<Attempt>, o: ConnectOptions, chip: Chip, port: Port, resets: seq<int>, ret: int)
    requires o.Valid()
  {
    && |attempts| <= Wrap(o.attempts + 1) && AllAttempts(attempts, o, chip, port, resets)
    && (forall i :: 0 <= i < |attempts| - 1 ==> !Final(attempts[i]))
    && (if attempts == [] then Wrap(o.attempts + 1) == 0 && ret == -ERR_PROBE_NO_SYNC
        else
          var last := attempts[|attempts| - 1];
          ret == last.code && (Final(last) || |attempts| == Wrap(o.attempts + 1)))
  }

  function AttemptsTalk(attempts: seq<Attempt>): seq<Dialogue> {
    if attempts == [] then [] else AttemptsTalk(attempts[..|attempts| - 1]) + AttemptTalk(attempts[|attempts| - 1])
  }

  lemma AttemptNone(o: ConnectOptions, chip: Chip, port: Port)
    requires o.Valid()
    ensures AllAttempts([], o, chip, port, []) && AttemptsTalk([]) == []
  {
  }

  lemma AttemptNext(attempts: seq<Attempt>, a: Attempt, o: ConnectOptions, chip: Chip, port: Port, resets: seq<int>,
      resets': seq<int>)
    requires o.Valid() && AllAttempts(attempts, o, chip, port, resets)
    requires resets <= resets' && |resets'| == ResetsOf(o, |attempts| + 1)
    requires AttemptTold(a, o, chip, port, ResetBefore(o, resets', |attempts|))
    ensures AllAttempts(attempts + [a], o, chip, port, resets')
    ensures AttemptsTalk(attempts + [a]) == AttemptsTalk(attempts) + AttemptTalk(a)
  {
    hide AttemptTold, AttemptTalk;
    var all := attempts + [a];
    assert all[..|all| - 1] == attempts && all[|all| - 1] == a;
    forall i | 0 <= i < |all| ensures AttemptTold(all[i], o, chip, port, ResetBefore(o, resets', i)) {
      if i < |attempts| {
        assert all[i] == attempts[i] && ResetBefore(o, resets, i) == ResetBefore(o, resets', i);
      }
    }
  }

  /** The attempts so far, each of which calls for another one. */
  ghost predicate Retrying(attempts: seq<Attempt>, o: ConnectOptions, chip: Chip, port: Port, resets: seq<int>,
      start: seq<Dialogue>, log: seq<Dialogue>)
    requires o.Valid()
  {
    && AllAttempts(attempts, o, chip, port, resets) && log == start + AttemptsTalk(attempts)
    && forall i :: 0 <= i < |attempts| ==> !Final(attempts[i])
  }

  lemma RetryFirst(o: ConnectOptions, chip: Chip, port: Port, start: seq<Dialogue>)
    requires o.Valid()
    ensures Retrying([], o, chip, port, [], start, start) && start[|start|..] == AttemptsTalk([])
  {
    AttemptNone(o, chip, port);
    assert start + [] == start;
  }

  lemma RetryNext(attempts: seq<Attempt>, a: Attempt, o: ConnectOptions, chip: Chip, port: Port, resets: seq<int>,
      resets': seq<int>, start: seq<Dialogue>, log: seq<Dialogue>, log': seq<Dialogue>)
    requires o.Valid() && Retrying(attempts, o, chip, port, resets, start, log)
    requires log <= log' && log'[|log|..] == AttemptTalk(a)
    requires resets <= resets' && |resets'| == |resets| + if |attempts| == 0 || o.resetDelay == 0 then 0 else 1
    requires AttemptTold(a, o, chip, port, if |attempts| == 0 || o.resetDelay == 0 then 0 else resets'[|resets|])
    ensures start <= log' && log'[|start|..] == AttemptsTalk(attempts + [a])
    ensures !Final(a) ==> Retrying(attempts + [a], o, chip, port, resets', start, log')
    ensures |attempts| < Wrap(o.attempts + 1) && (Final(a) || |attempts| + 1 == Wrap(o.attempts + 1)) ==>
              Attempted(attempts + [a], o, chip, port, resets', a.code)
  {
    hide AttemptTold, AttemptTalk, AllAttempts, AttemptsTalk, Final;
    AttemptsCount(attempts, o, chip, port, resets);
    AttemptNext(attempts, a, o, chip, port, resets, resets');
    assert log' == log + log'[|log|..];
    assert start + AttemptsTalk(attempts) + AttemptTalk(a) == start + (AttemptsTalk(attempts) + AttemptTalk(a));
  }

  lemma RetryNone(attempts: seq<Attempt>, o: ConnectOptions, chip: Chip, port: Port, resets: seq<int>, start: seq<Dialogue>,
      log: seq<Dialogue>)
    requires o.Valid() && Retrying(attempts, o, chip, port, resets, start, log)
    requires attempts == [] && Wrap(o.attempts + 1) == 0
    ensures Attempted(attempts, o, chip, port, resets, -ERR_PROBE_NO_SYNC)
    ensures start <= log && log[|start|..] == AttemptsTalk(attempts)
  {
  }

  lemma FinalIs(a: Attempt)
    ensures Final(a) <==> a.code == 0 || (a.Entered? && a.code == -ERR_SERIAL_BAUD_UNSUPPORTED)
  {
  }

  lemma AttemptsCount(attempts: seq<Attempt>, o: ConnectOptions, chip: Chip, port: Port, resets: seq<int>)
    requires o.Valid() && AllAttempts(attempts, o, chip, port, resets)
    ensures |resets| == ResetsOf(o, |attempts|)
  {
  }

  /** What a connection says, and how its code comes from the answers. */
  ghost predicate Connected(talk: seq<Dialogue>, o: ConnectOptions, chip: Chip, port: Port, resets: seq<int>, ret: int) {
    o.Valid() && exists attempts :: Attempted(attempts, o, chip, port, resets, ret) && talk == AttemptsTalk(attempts)
  }

  lemma ConnectedBy(attempts: seq<Attempt>, o: ConnectOptions, chip: Chip, port: Port, resets: seq<int>, ret: int)
    requires o.Valid() && Attempted(attempts, o, chip, port, resets, ret)
    ensures Connected(AttemptsTalk(attempts), o, chip, port, resets, ret)
  {
    hide Attempted, AttemptsTalk;
  }

  /** A stage that has passed: its last answer is good, and the port could be set to a new speed. */
  lemma PassedWell(t: Turn, chip: Chip, errorFirst: bool)
    requires TurnTold(t, chip, errorFirst) && t.code == 0
    ensures t.talk != []
    ensures var d := t.talk[|t.talk| - 1];
      if Probes(t.stage) then GoodEvents(d.exchange.events) && SyncOf(d.exchange) == 0
      else d.Code(errorFirst) == 0 && (Speeds(t.stage) ==> t.stage.port == 0)
  {
    hide Dialogue.Code, SyncOf, Request, Again;
  }

  /** A connection that succeeds: every attempt before the last has failed, and in the last one somebody has answered and
      every stage has passed, in order. */
  lemma ConnectedWell(attempts: seq<Attempt>, o: ConnectOptions, chip: Chip, port: Port, resets: seq<int>)
    requires o.Valid() && Attempted(attempts, o, chip, port, resets, 0)
    ensures attempts != [] && attempts[|attempts| - 1].Entered?
    ensures var a := attempts[|attempts| - 1];
      && ProbesTold(a.probes, 0)
      && StagesOf(a.loading) == LoadStages(chip, o.baud, o.Image(), port.rom) && Passed(a.loading, chip, false)
      && StagesOf(a.settling) == SettleStages(chip, o.baud, o.burner != [], port.full)
      && Passed(a.settling, chip, chip == Arcs)
    ensures forall i :: 0 <= i < |attempts| - 1 ==> attempts[i].code != 0
  {
    hide Passed, LoadStages, SettleStages, ProbesTold, Failed;
    var k := |attempts| - 1;
    assert AttemptTold(attempts[k], o, chip, port, ResetBefore(o, resets, k));
  }

  lemma AttemptOps(a: Attempt, o: ConnectOptions, chip: Chip, port: Port, reset: int)
    requires o.Valid() && AttemptTold(a, o, chip, port, reset)
    ensures OnlyOps(AttemptTalk(a), ConnectOps())
  {
    hide ConnectOps, OnlyOps, LoadStages, SettleStages, Ran, Said, Probed;
    match a {
      case NotReset(_) => NoOps(ConnectOps());
      case NotProbed(code, probes) => ConnectOnly(probes, code);
      case Entered(code, probes, loading, settling) =>
        ConnectOnly(probes, 0);
        RanOps(loading, LoadStages(chip, o.baud, o.Image(), port.rom), chip, false, if settling == [] then code else 0);
        OpsJoin(probes, Said(loading), ConnectOps());
        if settling == [] {
          SaidNone();
          NoOps(ConnectOps());
        } else {
          RanOps(settling, SettleStages(chip, o.baud, o.burner != [], port.full), chip, chip == Arcs, code);
        }
        OpsJoin(probes + Said(loading), Said(settling), ConnectOps());
    }
  }

  lemma SaidNone()
    ensures Said([]) == []
  {
  }

  lemma ConnectOnly(probes: seq<Dialogue>, code: int)
    requires ConnectTold(probes, code)
    ensures OnlyOps(probes, ConnectOps())
  {
    hide Probed, OnlyOps;
    ProbesOps(probes, |probes| - 1, if ProbesTold(probes, code) then code else -Serial.ETIMEDOUT);
  }

  lemma {:induction false} AttemptsOps(attempts: seq<Attempt>, o: ConnectOptions, chip: Chip, port: Port, resets: seq<int>)
    requires o.Valid() && ResetsOf(o, |attempts|) <= |resets|
    requires forall i :: 0 <= i < |attempts| ==> AttemptTold(attempts[i], o, chip, port, ResetBefore(o, resets, i))
    ensures OnlyOps(AttemptsTalk(attempts), ConnectOps())
    decreases |attempts|
  {
    hide ConnectOps, OnlyOps, AttemptTold, AttemptTalk;
    if attempts == [] {
      NoOps(ConnectOps());
    } else {
      var k := |attempts| - 1;
      AttemptsOps(attempts[..k], o, chip, port, resets);
      AttemptOps(attempts[k], o, chip, port, ResetBefore(o, resets, k));
      OpsJoin(AttemptsTalk(attempts[..k]), AttemptTalk(attempts[k]), ConnectOps());
    }
  }

  lemma ConnectedOps(talk: seq<Dialogue>, o: ConnectOptions, chip: Chip, port: Port, resets: seq<int>, ret: int)
    requires Connected(talk, o, chip, port, resets, ret)
    ensures OnlyOps(talk, ConnectOps())
  {
    hide ConnectOps, OnlyOps, AttemptTold, AttemptsTalk;
    var attempts :| Attempted(attempts, o, chip, port, resets, ret) && talk == AttemptsTalk(attempts);
    AttemptsOps(attempts, o, chip, port, resets);
  }
}
