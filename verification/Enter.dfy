/** Connecting to the ROM, loading the RAM loader, and switching the speed of the serial port. */
module Enter {
  import opened Bytes
  import opened FlashMemory
  import opened Protocol
  import opened Cmd
  import opened Core
  import opened Api
  import opened Handshake
  import Serial

  /** ROM and loader answer for what they did. */
  ghost predicate HonestDevice(script: Script)
    requires GoodScript(script)
  {
    Honest(script, false) && Honest(script, true)
  }

  /** Host and device both at the initial speed, which the port can be set to; so far they were never apart. */
  ghost predicate AtStart(wire: Wire)
    reads wire
  {
    wire.inStep && wire.speed == wire.device.speed == BAUD_RATE_INIT && wire.speeds(BAUD_RATE_INIT) == 0
  }

  /** The log has grown, and the storage is what it was. */
  twostate predicate Linked(wire: Wire)
    reads wire
  {
    && old(wire.log) <= wire.log
    && wire.device.store == old(wire.device.store) && wire.device.medium == old(wire.device.medium)
  }

  /** The turns are all that has been said, and all that has happened to the speed of the device. */
  twostate predicate Turned(wire: Wire, turns: seq<Turn>)
    reads wire
  {
    Linked(wire) && Links(turns, old(wire.log), old(wire.device.speed), wire.log, wire.device.speed)
  }

  // ---- Probing ----

  /** try_sync: probes until one is answered or the time is up. */
  method TrySync(host: Host) returns (ret: int)
    requires host.Valid()
    modifies host.wire, host.req, host.res
    ensures host.Valid() && Asked(host.wire) && Linked(host.wire)
    ensures Probed(host.wire.Talk(), host.wire.patience(old(host.wire.t)), ret)
    ensures host.wire.inStep == (old(host.wire.inStep) && host.wire.speed == host.wire.device.speed)
  {
    hide Request, Reaction, Receive, SyncBody, SyncOf, Probing, Probed;
    var left := host.wire.patience(host.wire.t);
    ghost var talk: seq<Dialogue> := [];
    assert host.wire.log == host.wire.log + talk;
    assert Probing(talk) by {
      NoProbes();
    }
    while true
      invariant host.Valid() && Asked(host.wire)
      invariant host.wire.log == old(host.wire.log) + talk && Probing(talk)
      invariant |talk| + left == host.wire.patience(old(host.wire.t))
      invariant host.wire.inStep == (old(host.wire.inStep) && (talk == [] || host.wire.speed == host.wire.device.speed))
      decreases left
    {
      ghost var e, before := host.wire.Next(SyncRequest()), host.wire.log;
      HarmlessReaction(e, host.wire.device, CMD_SYNC, SyncBody());
      ret := host.Sync();
      ghost var d := Dialogue(SyncRequest(), e);
      ProbeNext(talk, d, host.wire.patience(old(host.wire.t)), left, ret);
      talk := talk + [d];
      assert host.wire.log == old(host.wire.log) + talk && host.wire.log[|old(host.wire.log)|..] == talk;
      if ret != -Serial.ETIMEDOUT {
        return;
      }
      if left == 0 {
        return -Serial.ETIMEDOUT;
      }
      left := left - 1;
    }
  }

  /** Probes as a stage of the handshake. */
  method ProbeStage(host: Host, g: Stage) returns (ret: int, ghost turn: Turn)
    requires host.Valid() && Probes(g)
    modifies host.wire, host.req, host.res
    ensures host.Valid() && Asked(host.wire) && Turned(host.wire, [turn])
    ensures turn.stage == g && turn.code == ret && TurnTold(turn, host.chip, host.ErrorFirst())
    ensures host.wire.inStep == (old(host.wire.inStep) && host.wire.speed == host.wire.device.speed)
  {
    hide Probed, Links, TurnTold, TurnSpeed;
    ghost var before := host.wire.log;
    ret := TrySync(host);
    turn := Turn(g, ret, host.wire.log[|before|..]);
    ProbeTurn(g, turn.talk, host.wire.patience(old(host.wire.t)), ret, host.chip, host.ErrorFirst(), host.wire.device.speed);
    LinksOne(turn, before, host.wire.device.speed, host.wire.log);
  }

  lemma LinksOne(t: Turn, log: seq<Dialogue>, speed: nat, log': seq<Dialogue>)
    requires log' == log + t.talk
    ensures Links([t], log, speed, log', TurnSpeed(t, speed))
  {
    hide TurnSpeed;
    LinksNone(log, speed);
    LinksNext([], t, log, speed, log, speed);
    assert [] + [t] == [t];
  }

  // ---- Speeds ----

  /** cmd_change_baud: the host follows the device. When a reply is lost the device may have switched alone. */
  method ChangeBaud(host: Host, baud: U32, oldBaud: U32) returns (ret: int)
    requires host.Valid()
    modifies host.wire, host.req, host.res
    ensures host.Valid() && host.wire.toggles == old(host.wire.toggles) && Linked(host.wire)
    ensures host.wire.Spoke(Request(CMD_CHANGE_BAUDRATE, 0, RangeBody(baud, oldBaud))) && host.wire.t == old(host.wire.t) + 1
    ensures host.wire.inStep == (old(host.wire.inStep) && old(host.wire.speed) == old(host.wire.device.speed))
    ensures var d := host.wire.Talk()[0];
      var code := d.Code(host.ErrorFirst());
      && host.wire.device == (if Carried(d.exchange) then old(host.wire.device).(speed := baud) else old(host.wire.device))
      && ret == (if code != 0 then code else host.wire.speeds(baud))
      && host.wire.speed == if ret == 0 then baud else old(host.wire.speed)
    ensures ret == 0 && Honest(host.wire.script, host.ErrorFirst()) ==>
              host.wire.speed == baud && host.wire.device == old(host.wire.device).(speed := baud)
  {
    hide CheckOf, Outcome, Carry, Request;
    var body := RangeBody(baud, oldBaud);
    ghost var d, r := host.wire.device, Request(CMD_CHANGE_BAUDRATE, 0, body);
    CarryBaud(d, baud, oldBaud);
    DialogueIs(host.wire.Next(r), CMD_CHANGE_BAUDRATE, 0, body, host.ErrorFirst());
    if Honest(host.wire.script, host.ErrorFirst()) {
      HonestReaction(host.wire.script, host.ErrorFirst(), host.wire.t, d, CMD_CHANGE_BAUDRATE, 0, body);
    }
    var value;
    ret, value := host.Simple(CMD_CHANGE_BAUDRATE, body);
    if ret != 0 {
      return;
    }
    ret := host.wire.SetSpeed(baud);
  }

  /** A change from the initial speed as a stage of the handshake. */
  method SpeedStage(host: Host, ghost g: Stage, baud: U32) returns (ret: int, ghost turn: Turn)
    requires host.Valid() && Speeds(g) && g.baud == baud && g.port == host.wire.speeds(baud)
    modifies host.wire, host.req, host.res
    ensures host.Valid() && host.wire.toggles == old(host.wire.toggles) && Turned(host.wire, [turn])
    ensures turn.stage == g && turn.code == ret && TurnTold(turn, host.chip, host.ErrorFirst())
    ensures host.wire.device == old(host.wire.device).(speed := host.wire.device.speed)
    ensures host.wire.inStep == (old(host.wire.inStep) && old(host.wire.speed) == old(host.wire.device.speed))
    ensures ret == 0 && Honest(host.wire.script, host.ErrorFirst()) ==> host.wire.speed == baud == host.wire.device.speed
  {
    hide Honest, Dialogue.Code, Request, Links;
    ghost var before := host.wire.log;
    ret := ChangeBaud(host, baud, BAUD_RATE_INIT);
    ghost var talk := host.wire.log[|before|..];
    turn := Turn(g, ret, talk);
    LinksOne(turn, before, old(host.wire.device.speed), host.wire.log);
  }

  /** cskburn_serial_connect. Only a reset brings the device back to the initial speed. */
  method Connect(host: Host, reset: bool) returns (ret: int)
    requires host.Valid()
    modifies host.wire, host.req, host.res
    ensures host.Valid() && Linked(host.wire)
    ensures host.wire.device.ram == old(host.wire.device.ram)
    ensures host.wire.toggles == old(host.wire.toggles) + if reset then 1 else 0
    ensures var failed := reset && host.wire.resets(old(host.wire.toggles)) != 0;
      if failed then
        && ret == host.wire.resets(old(host.wire.toggles))
        && host.wire.log == old(host.wire.log) && host.wire.device == old(host.wire.device)
        && host.wire.speed == old(host.wire.speed) && host.wire.inStep == old(host.wire.inStep)
      else
        && host.wire.device == (if reset then old(host.wire.device).(speed := BAUD_RATE_INIT) else old(host.wire.device))
        && host.wire.speed == (if host.wire.speeds(BAUD_RATE_INIT) == 0 then BAUD_RATE_INIT else old(host.wire.speed))
        && host.wire.inStep == (old(host.wire.inStep) && host.wire.speed == host.wire.device.speed)
        && ret != -Serial.ETIMEDOUT
        && (Probed(host.wire.Talk(), host.wire.patience(old(host.wire.t)), ret)
            || (ret == -ERR_PROBE_NO_SYNC
                && Probed(host.wire.Talk(), host.wire.patience(old(host.wire.t)), -Serial.ETIMEDOUT)))
    ensures host.wire.speeds(BAUD_RATE_INIT) == 0 && old(host.wire.inStep)
            && (reset || old(host.wire.device.speed) == BAUD_RATE_INIT) ==>
              host.wire.inStep && (ret == 0 ==> AtStart(host.wire))
  {
    hide Probed;
    if reset {
      ret := host.wire.Reset();
      if ret != 0 {
        return;
      }
    }
    var ignored := host.wire.SetSpeed(BAUD_RATE_INIT);
    ret := TrySync(host);
    if ret == -Serial.ETIMEDOUT {
      ret := -ERR_PROBE_NO_SYNC;
    }
  }

  // ---- The loader ----

  lemma OffsetOf(i: nat, blocks: nat, len: nat)
    requires blocks <= (len + RAM_BLOCK_SIZE - 1) / RAM_BLOCK_SIZE && i < blocks
    ensures RAM_BLOCK_SIZE * i < len
  {
  }

  lemma LaidIs(d: Device, addr: int, unit: int, c: seq<Byte>)
    ensures var l := Laid(d, true, addr, unit, c);
      l.ram.bytes == Store(d.ram.bytes, addr, c) && l.store == d.store && l.speed == d.speed
  {
  }

  /** One block of the loader. */
  method BlockStage(host: Host, image: seq<Byte>, i: U32, offset: nat, length: nat, ghost d: Device)
    returns (ret: int, ghost turn: Turn)
    requires host.Valid() && offset == RAM_BLOCK_SIZE * i && offset + length <= |image| && length <= RAM_BLOCK_SIZE
    requires Honest(host.wire.script, host.ErrorFirst()) ==>
               host.wire.device == Laid(d, true, LoadAddr(host.chip), RAM_BLOCK_SIZE, image[..offset])
    modifies host.wire, host.req, host.res
    ensures host.Valid() && host.wire.Went() && Turned(host.wire, [turn])
    ensures turn == Turn(LoadBlock(i, image[offset..offset + length]), ret, host.wire.Talk())
    ensures TurnTold(turn, host.chip, host.ErrorFirst())
    ensures ret == 0 && Honest(host.wire.script, host.ErrorFirst()) ==>
              host.wire.device == Laid(d, true, LoadAddr(host.chip), RAM_BLOCK_SIZE, image[..offset + length])
  {
    hide CheckOf, Carry, Request, Reaction, Honest, Checksum, BlockBody, Laid, Again, Stored, FlashTries, Attempts, Links;
    var data := image[offset..offset + length];
    var attempts := if RetriesLoaderBlocks(host.chip) then LOADER_BLOCK_TRIES else 1;
    ghost var before := host.wire.log;
    AttemptsStore(host.wire.script, host.wire.t, host.wire.device, before, ToFlash, CMD_MEM_DATA, data, i,
                  host.ErrorFirst(), attempts);
    LaidNext(d, true, LoadAddr(host.chip), RAM_BLOCK_SIZE, image, i, offset, offset + length);
    ret := TryLoaderBlock(host, data, i, attempts);
    turn := Turn(LoadBlock(i, data), ret, host.wire.log[|before|..]);
    LinksOne(turn, before, old(host.wire.device.speed), host.wire.log);
  }

  /** The loop over the blocks of the loader; d is the device before the begin command. */
  method LoadBlocks(host: Host, image: seq<Byte>, blocks: U32, ghost d: Device) returns (ret: int, ghost turns: seq<Turn>)
    requires host.Valid() && |image| < 0x1_0000_0000 && blocks == LoaderBlocks(image)
    requires Honest(host.wire.script, host.ErrorFirst()) ==>
               host.wire.device == Laid(d, true, LoadAddr(host.chip), RAM_BLOCK_SIZE, [])
    modifies host.wire, host.req, host.res
    ensures host.Valid() && host.wire.Went() && Turned(host.wire, turns)
    ensures Ran(turns, BlockStages(image, blocks), host.chip, host.ErrorFirst(), ret)
    ensures ret == 0 && Honest(host.wire.script, host.ErrorFirst()) && |image| <= 0xFFFF_F800 ==>
              host.wire.device == Laid(d, true, LoadAddr(host.chip), RAM_BLOCK_SIZE, image)
  {
    hide CheckOf, Carry, Request, Reaction, Honest, Laid, Links, Ran, TurnTold, BlockStages, LoaderBlock;
    ghost var honest, start, speed := Honest(host.wire.script, host.ErrorFirst()), host.wire.log, host.wire.device.speed;
    var len := |image|;
    var i: U32 := 0;
    turns := [];
    assert image[..0] == [];
    LinksNone(start, speed);
    RanNone(host.chip, host.ErrorFirst());
    BlockNone(image);
    while i < blocks
      invariant i <= blocks && host.Valid() && host.wire.Went() && Turned(host.wire, turns)
      invariant Ran(turns, BlockStages(image, i), host.chip, host.ErrorFirst(), 0)
      invariant honest ==> host.wire.device
                           == Laid(d, true, LoadAddr(host.chip), RAM_BLOCK_SIZE, image[..Least(RAM_BLOCK_SIZE * i, len)])
      decreases blocks - i
    {
      OffsetOf(i, blocks, len);
      ghost var before, was := host.wire.log, host.wire.device.speed;
      var offset := RAM_BLOCK_SIZE * i;
      var length := RAM_BLOCK_SIZE;
      if offset + length > len {
        length := len - offset;
      }
      ghost var turn;
      ret, turn := BlockStage(host, image, i, offset, length, d);
      LoaderBlockIs(image, i, offset, length);
      BlockNext(image, i, blocks);
      LinksJoin(turns, [turn], start, speed, before, was, host.wire.log, host.wire.device.speed);
      RanNext(turns, BlockStages(image, i), turn, BlockStages(image, blocks)[i as int + 1..], host.chip, host.ErrorFirst());
      turns := turns + [turn];
      if ret != 0 {
        return -ERR_BURNER_LOAD_FAILED, turns;
      }
      i := i + 1;
    }
    ret := 0;
    assert image[..len] == image;
  }

  /** The begin command of the loader. */
  method BeginStage(host: Host, len: U32, blocks: U32) returns (ret: int, ghost turn: Turn)
    requires host.Valid()
    modifies host.wire, host.req, host.res
    ensures host.Valid() && host.wire.Went() && Turned(host.wire, [turn])
    ensures turn.stage == LoadBegin(len, blocks) && turn.code == ret && TurnTold(turn, host.chip, host.ErrorFirst())
    ensures ret == 0 && Honest(host.wire.script, host.ErrorFirst()) ==>
              host.wire.device == Laid(old(host.wire.device), true, LoadAddr(host.chip), RAM_BLOCK_SIZE, [])
  {
    hide Request, Honest, Laid, Dialogue.Code, Links, BeginBody;
    ghost var before, d := host.wire.log, host.wire.device;
    LaidIs(d, LoadAddr(host.chip), RAM_BLOCK_SIZE, []);
    ret := BeginCommand(host, CMD_MEM_BEGIN, len, blocks, RAM_BLOCK_SIZE, LoadAddr(host.chip));
    turn := Turn(LoadBegin(len, blocks), ret, host.wire.log[|before|..]);
    LinksOne(turn, before, d.speed, host.wire.log);
  }

  /** cmd_mem_finish with the option to reboot. */
  method StartLoader(host: Host) returns (ret: int, ghost turn: Turn)
    requires host.Valid()
    modifies host.wire, host.req, host.res
    ensures host.Valid() && host.wire.toggles == old(host.wire.toggles) && host.wire.speed == old(host.wire.speed)
    ensures host.wire.inStep ==> old(host.wire.inStep)
    ensures old(host.wire.InStep()) ==> host.wire.inStep
    ensures host.wire.device in {old(host.wire.device), old(host.wire.device).(speed := BAUD_RATE_INIT)}
    ensures Turned(host.wire, [turn])
    ensures turn.stage == LoadEnd && turn.code == ret && TurnTold(turn, host.chip, host.ErrorFirst())
    ensures ret == 0 && Honest(host.wire.script, host.ErrorFirst()) ==>
              host.wire.device == old(host.wire.device).(speed := BAUD_RATE_INIT)
  {
    hide CheckOf, Outcome, Carry, Request, Links;
    var body := RangeBody(OPTION_REBOOT, LoadAddr(host.chip));
    ghost var d, r, before := host.wire.device, Request(CMD_MEM_END, 0, body), host.wire.log;
    CarryMemEnd(d, OPTION_REBOOT, LoadAddr(host.chip));
    DialogueIs(host.wire.Next(r), CMD_MEM_END, 0, body, host.ErrorFirst());
    if Honest(host.wire.script, host.ErrorFirst()) {
      HonestReaction(host.wire.script, host.ErrorFirst(), host.wire.t, d, CMD_MEM_END, 0, body);
    }
    var value;
    ret, value := host.Simple(CMD_MEM_END, body);
    turn := Turn(LoadEnd, ret, host.wire.log[|before|..]);
    LinksOne(turn, before, d.speed, host.wire.log);
  }

  /** Loading the image into RAM and starting it: when that succeeds the loader is in RAM byte for byte, and talks
      at the initial speed. */
  method LoadImage(host: Host, image: seq<Byte>) returns (ret: int, ghost turns: seq<Turn>)
    requires host.Valid() && |image| < 0x1_0000_0000
    modifies host.wire, host.req, host.res
    ensures host.Valid() && host.wire.toggles == old(host.wire.toggles) && host.wire.speed == old(host.wire.speed)
    ensures host.wire.inStep ==> old(host.wire.inStep)
    ensures old(host.wire.InStep()) ==> host.wire.inStep
    ensures Turned(host.wire, turns)
    ensures Ran(turns, ImageStages(image), host.chip, host.ErrorFirst(), ret)
    ensures ret == 0 && Honest(host.wire.script, host.ErrorFirst()) && |image| <= 0xFFFF_F800 ==>
      && host.wire.device.speed == BAUD_RATE_INIT
      && host.wire.device.ram.bytes == Store(old(host.wire.device.ram.bytes), LoadAddr(host.chip), image)
    ensures ret == 0 && Honest(host.wire.script, host.ErrorFirst()) ==> host.wire.device.speed == BAUD_RATE_INIT
  {
    hide Honest, Laid, Links, Ran, TurnTold, BlockStages;
    ghost var d, start, ef := host.wire.device, host.wire.log, host.ErrorFirst();
    var len := |image|;
    var blocks := Wrap(len + RAM_BLOCK_SIZE - 1) / RAM_BLOCK_SIZE;
    ghost var begin, body, end, before, speed;
    ret, begin := BeginStage(host, len, blocks);
    turns := [begin];
    RanNone(host.chip, ef);
    RanNext([], [], begin, BlockStages(image, blocks) + [LoadEnd], host.chip, ef);
    Front([begin.stage], BlockStages(image, blocks), [LoadEnd]);
    assert [] + [begin] == [begin];
    if ret != 0 {
      return -ERR_BURNER_LOAD_FAILED, turns;
    }
    before, speed := host.wire.log, host.wire.device.speed;
    ret, body := LoadBlocks(host, image, blocks, d);
    LinksJoin(turns, body, start, d.speed, before, speed, host.wire.log, host.wire.device.speed);
    RanJoin(turns, [begin.stage], body, BlockStages(image, blocks), host.chip, ef, ret);
    turns := turns + body;
    if ret != 0 {
      RanStop(turns, [begin.stage] + BlockStages(image, blocks), [LoadEnd], host.chip, ef, ret);
      return;
    }
    before, speed := host.wire.log, host.wire.device.speed;
    LaidIs(d, LoadAddr(host.chip), RAM_BLOCK_SIZE, image);
    ret, end := StartLoader(host);
    LinksJoin(turns, [end], start, d.speed, before, speed, host.wire.log, host.wire.device.speed);
    RanNext(turns, [begin.stage] + BlockStages(image, blocks), end, [], host.chip, ef);
    turns := turns + [end];
    if ret != 0 {
      ret := -ERR_BURNER_LOAD_FAILED;
    }
  }

  lemma Front(a: seq<Stage>, b: seq<Stage>, c: seq<Stage>)
    ensures [] + a + (b + c) == a + b + c && a + b + c + [] == a + b + c && [] + a == a
  {
  }

  /** The ROM speeds up and answers at the new speed. */
  method SpeedUp(host: Host, baud: U32) returns (ret: int, ghost turns: seq<Turn>)
    requires host.Valid()
    modifies host.wire, host.req, host.res
    ensures host.Valid() && host.wire.toggles == old(host.wire.toggles) && Turned(host.wire, turns)
    ensures host.wire.inStep ==> old(host.wire.inStep)
    ensures host.wire.device == old(host.wire.device).(speed := host.wire.device.speed)
    ensures Ran(turns, [RomSpeed(baud, host.wire.speeds(baud)), RomProbe], host.chip, host.ErrorFirst(), ret)
    ensures old(host.wire.InStep()) && Honest(host.wire.script, host.ErrorFirst()) ==>
      host.wire.inStep && (ret == 0 ==> host.wire.InStep())
  {
    hide Honest, Links, Ran, TurnTold;
    ghost var start, was, ef := host.wire.log, host.wire.device.speed, host.ErrorFirst();
    ghost var g := RomSpeed(baud, host.wire.speeds(baud));
    ghost var first, second;
    ret, first := SpeedStage(host, g, baud);
    turns := [first];
    RanNone(host.chip, ef);
    RanNext([], [], first, [RomProbe], host.chip, ef);
    assert [] + [first] == [first] && [] + [g] == [g] && [g] + [RomProbe] == [g, RomProbe];
    if ret != 0 {
      return if ret < 0 then -ERR_SERIAL_BAUD_UNSUPPORTED else -ERR_ROM_BAUD_REJECTED, turns;
    }
    ghost var before, speed := host.wire.log, host.wire.device.speed;
    ret, second := ProbeStage(host, RomProbe);
    LinksJoin(turns, [second], start, was, before, speed, host.wire.log, host.wire.device.speed);
    RanNext(turns, [g], second, [], host.chip, ef);
    assert [g] + [RomProbe] + [] == [g, RomProbe];
    turns := turns + [second];
    if ret != 0 {
      ret := -ERR_ROM_SYNC_LOST;
    }
  }

  /** The first half of cskburn_serial_enter: the ROM speeds up, takes the loader, and the loader starts slowly. */
  method Load(host: Host, baudRate: U32, image: seq<Byte>) returns (ret: int, ghost turns: seq<Turn>)
    requires host.Valid() && |image| < 0x1_0000_0000
    modifies host.wire, host.req, host.res
    ensures host.Valid() && host.wire.toggles == old(host.wire.toggles) && Turned(host.wire, turns)
    ensures host.wire.inStep ==> old(host.wire.inStep)
    ensures Ran(turns, RomStages(host.chip, baudRate, image, host.wire.speeds(RomBaud(baudRate))), host.chip,
                host.ErrorFirst(), ret)
    ensures old(AtStart(host.wire)) && Honest(host.wire.script, host.ErrorFirst()) ==>
      host.wire.inStep && (ret == 0 ==> AtStart(host.wire))
    ensures ret == 0 && Honest(host.wire.script, host.ErrorFirst()) && |image| <= 0xFFFF_F800 ==>
              host.wire.device.ram.bytes == Store(old(host.wire.device.ram.bytes), LoadAddr(host.chip), image)
  {
    hide Honest, Store, Ran, Links, ImageStages;
    ghost var start, was, ef := host.wire.log, host.wire.device.speed, host.ErrorFirst();
    ghost var fast: seq<Stage> := [];
    var speedup := RomChangesBaud(host.chip) && baudRate != BAUD_RATE_INIT;
    var loaderBaud := if baudRate > ROM_BAUD_RATE_MAX then ROM_BAUD_RATE_MAX else baudRate;
    ret, turns := 0, [];
    LinksNone(start, was);
    RanNone(host.chip, ef);
    if speedup {
      ret, turns := SpeedUp(host, loaderBaud);
      fast := [RomSpeed(loaderBaud, host.wire.speeds(loaderBaud)), RomProbe];
      if ret != 0 {
        RanStop(turns, fast, ImageStages(image), host.chip, ef, ret);
        return;
      }
    }
    ghost var before, speed, body := host.wire.log, host.wire.device.speed, [];
    ret, body := LoadImage(host, image);
    LinksJoin(turns, body, start, was, before, speed, host.wire.log, host.wire.device.speed);
    RanJoin(turns, fast, body, ImageStages(image), host.chip, ef, ret);
    turns := turns + body;
    if ret != 0 {
      return;
    }
    if speedup {
      var ignored := host.wire.SetSpeed(BAUD_RATE_INIT);
    }
  }

  /** The clock setting as a stage of the handshake. */
  method ClockStage(host: Host) returns (ret: int, ghost turn: Turn)
    requires host.Valid()
    modifies host.wire, host.req, host.res
    ensures host.Valid() && Asked(host.wire) && Turned(host.wire, [turn])
    ensures turn.stage == Clock && turn.code == ret && TurnTold(turn, host.chip, host.ErrorFirst())
  {
    hide Request, Dialogue.Code, Links;
    ghost var before := host.wire.log;
    var value;
    ret, value := Ask(host, CMD_SET_SYS_CLK, SysClkBody());
    turn := Turn(Clock, ret, host.wire.log[|before|..]);
    LinksOne(turn, before, host.wire.device.speed, host.wire.log);
  }

  /** The loader answers, and its clock is set. */
  method Greet(host: Host, custom: bool) returns (ret: int, ghost turns: seq<Turn>)
    requires host.Valid()
    modifies host.wire, host.req, host.res
    ensures host.Valid() && Asked(host.wire) && Turned(host.wire, turns)
    ensures Ran(turns, [FirstProbe] + If(!custom && RequiresSysClk(host.chip), [Clock]), host.chip, host.ErrorFirst(), ret)
  {
    hide TurnTold, Ran, Links;
    ghost var start, was, ef := host.wire.log, host.wire.device.speed, host.ErrorFirst();
    ghost var rest := If(!custom && RequiresSysClk(host.chip), [Clock]);
    ghost var first, second;
    ret, first := ProbeStage(host, FirstProbe);
    turns := [first];
    RanNone(host.chip, ef);
    RanNext([], [], first, rest, host.chip, ef);
    Front([FirstProbe], rest, []);
    assert [] + [first] == [first] && [FirstProbe] + [] == [FirstProbe] && [] + [FirstProbe] + rest == [FirstProbe] + rest;
    if ret != 0 {
      return -ERR_BURNER_NO_RESPONSE, turns;
    }
    if !custom && RequiresSysClk(host.chip) {
      ghost var before, speed := host.wire.log, host.wire.device.speed;
      ret, second := ClockStage(host);
      LinksJoin(turns, [second], start, was, before, speed, host.wire.log, host.wire.device.speed);
      RanNext(turns, [FirstProbe], second, [], host.chip, ef);
      assert [FirstProbe] + [Clock] + [] == [FirstProbe] + rest;
      turns := turns + [second];
      if ret != 0 {
        return Mapped(ret, ERR_BURNER_NO_RESPONSE), turns;
      }
    }
  }

  /** The second half: the loader answers, and switches to the requested speed. */
  method Settle(host: Host, baudRate: U32, custom: bool) returns (ret: int, ghost turns: seq<Turn>)
    requires host.Valid()
    modifies host.wire, host.req, host.res
    ensures host.Valid() && host.wire.toggles == old(host.wire.toggles) && Turned(host.wire, turns)
    ensures host.wire.inStep ==> old(host.wire.inStep)
    ensures host.wire.device.ram == old(host.wire.device.ram)
    ensures Ran(turns, SettleStages(host.chip, baudRate, custom, host.wire.speeds(baudRate)), host.chip, host.ErrorFirst(), ret)
    ensures old(host.wire.InStep()) && Honest(host.wire.script, host.ErrorFirst()) ==>
      host.wire.inStep && (ret == 0 ==> host.wire.InStep() && host.wire.speed == baudRate)
  {
    hide Honest, TurnTold, Ran, Links, If;
    ghost var start, was, ef := host.wire.log, host.wire.device.speed, host.ErrorFirst();
    ghost var g, head := FullSpeed(baudRate, host.wire.speeds(baudRate)),
                         [FirstProbe] + If(!custom && RequiresSysClk(host.chip), [Clock]);
    ghost var third, last, before, speed;
    assert head + [g, LastProbe] == head + [g] + [LastProbe] == head + [g] + [LastProbe] + [];
    ret, turns := Greet(host, custom);
    if ret != 0 {
      RanStop(turns, head, [g, LastProbe], host.chip, ef, ret);
      return;
    }
    before, speed := host.wire.log, host.wire.device.speed;
    ret, third := SpeedStage(host, g, baudRate);
    LinksJoin(turns, [third], start, was, before, speed, host.wire.log, host.wire.device.speed);
    RanNext(turns, head, third, [LastProbe], host.chip, ef);
    turns := turns + [third];
    if ret != 0 {
      return if ret < 0 then -ERR_SERIAL_BAUD_UNSUPPORTED else -ERR_BAUD_REJECTED, turns;
    }
    before, speed := host.wire.log, host.wire.device.speed;
    ret, last := ProbeStage(host, LastProbe);
    LinksJoin(turns, [last], start, was, before, speed, host.wire.log, host.wire.device.speed);
    RanNext(turns, head + [g], last, [], host.chip, ef);
    turns := turns + [last];
    if ret != 0 {
      ret := -ERR_BAUD_SYNC_LOST;
    }
  }

  /** What the port of the host answers to the two speeds of a connection. */
  function PortOf(wire: Wire, baud: U32): Port { Port(wire.speeds(RomBaud(baud)), wire.speeds(baud)) }

  /** The loader is in RAM, as far as the RAM reaches. */
  ghost predicate LoaderIn(ram: Flash, addr: U32, image: seq<Byte>) {
    forall k :: 0 <= k < |image| && addr as int + k < |ram| ==> ram[addr as int + k] == image[k]
  }

  lemma StoredLoader(ram: Flash, addr: U32, image: seq<Byte>)
    ensures LoaderIn(Store(ram, addr, image), addr, image)
  {
  }

  /** cskburn_serial_enter. An empty `burner` stands for the built-in loader. */
  method Enter(host: Host, o: ConnectOptions) returns (ret: int, ghost loading: seq<Turn>, ghost settling: seq<Turn>)
    requires host.Valid() && o.Valid()
    modifies host.wire, host.req, host.res, host`loaderRunning, host`readStream, host`layoutQueried
    ensures host.Valid() && host.wire.toggles == old(host.wire.toggles) && Turned(host.wire, loading + settling)
    ensures host.wire.inStep ==> old(host.wire.inStep)
    ensures host.wire.Talk() == Said(loading) + Said(settling)
    ensures EnterTold(loading, settling, o, host.chip, PortOf(host.wire, o.baud), ret)
    ensures ret == 0 ==> host.loaderRunning
    ensures ret == 0 ==> !host.layoutQueried && host.readStream == (o.burner == [] && StreamsByDefault(host.chip))
    ensures old(AtStart(host.wire)) && HonestDevice(host.wire.script) ==>
      host.wire.inStep && (ret == 0 ==> host.wire.InStep() && host.wire.speed == o.baud)
    ensures ret == 0 && HonestDevice(host.wire.script) && o.Image() != [] && |o.Image()| <= 0xFFFF_F800 ==>
      host.wire.device.ram.bytes == Store(old(host.wire.device.ram.bytes), LoadAddr(host.chip), o.Image())
  {
    hide Honest, Store, Links, Ran, RomStages, SettleStages;
    ghost var start, was := host.wire.log, host.wire.device.speed;
    var custom := o.burner != [];
    host.loaderRunning := false;
    host.layoutQueried := false;
    host.readStream := !custom && StreamsByDefault(host.chip);
    var image := if o.burner == [] then o.builtin else o.burner;
    loading, settling := [], [];
    LinksNone(start, was);
    if image != [] {
      ret, loading := Load(host, o.baud, image);
      if ret != 0 {
        NoSettling(loading, start, was, host.wire.log, host.wire.device.speed);
        return;
      }
    } else {
      NothingLoaded(host.chip, o.baud, host.wire.speeds(RomBaud(o.baud)));
    }
    host.loaderRunning := true;
    ghost var before, speed := host.wire.log, host.wire.device.speed;
    ret, settling := Settle(host, o.baud, custom);
    SettlingRuns(settling, host.chip, o.baud, custom, host.wire.speeds(o.baud), host.ErrorFirst(), ret);
    LinksJoin(loading, settling, start, was, before, speed, host.wire.log, host.wire.device.speed);
    TwoParts(loading, settling, start, was, before, speed, host.wire.log, host.wire.device.speed);
  }

  lemma NothingLoaded(chip: Chip, baud: U32, port: int)
    ensures Ran([], LoadStages(chip, baud, [], port), chip, false, 0)
  {
  }

  lemma SettlingRuns(turns: seq<Turn>, chip: Chip, baud: U32, custom: bool, port: int, errorFirst: bool, ret: int)
    requires Ran(turns, SettleStages(chip, baud, custom, port), chip, errorFirst, ret)
    ensures turns != []
  {
  }

  lemma NoSettling(loading: seq<Turn>, log: seq<Dialogue>, speed: nat, log': seq<Dialogue>, speed': nat)
    requires Links(loading, log, speed, log', speed')
    ensures Links(loading + [], log, speed, log', speed') && log <= log' && log'[|log|..] == Said(loading) + Said([])
  {
    assert loading + [] == loading;
    SaidNone();
  }

  lemma TwoParts(a: seq<Turn>, b: seq<Turn>, log: seq<Dialogue>, speed: nat, log': seq<Dialogue>, speed': nat,
      log'': seq<Dialogue>, speed'': nat)
    requires Links(a, log, speed, log', speed') && Links(b, log', speed', log'', speed'')
    ensures log <= log'' && log''[|log|..] == Said(a) + Said(b)
  {
    assert log'' == log + (Said(a) + Said(b));
  }

  // ---- The retry loop of the session ----

  /** The codes of the resets from number `from` on. */
  function ResetCodes(wire: Wire, from: nat, to: nat): (codes: seq<int>)
    requires from <= to
    ensures |codes| == to - from
  {
    seq(to - from, i requires 0 <= i < to - from => wire.resets(from + i))
  }

  lemma ResetCodesNext(wire: Wire, from: nat, to: nat)
    requires from <= to
    ensures ResetCodes(wire, from, to + 1) == ResetCodes(wire, from, to) + [wire.resets(to)]
  {
  }

  /** The device starts at the initial speed, to which the port can be set, and answers for what it did. */
  ghost predicate Sound(wire: Wire)
    requires wire.Valid()
    reads wire
  {
    wire.speeds(BAUD_RATE_INIT) == 0 && wire.inStep && wire.device.speed == BAUD_RATE_INIT && HonestDevice(wire.script)
  }

  /** And a reset takes time. */
  ghost predicate Steady(wire: Wire, o: ConnectOptions)
    requires wire.Valid()
    reads wire
  {
    o.resetDelay != 0 && Sound(wire)
  }

  /** What an attempt that ends well leaves behind: a loader that runs, and when the device is honest it is the image. */
  ghost predicate Loaded(host: Host, o: ConnectOptions)
    requires host.wire.Valid()
    reads host, host.wire
  {
    && host.loaderRunning
    && !host.layoutQueried && host.readStream == (o.burner == [] && StreamsByDefault(host.chip))
    && (HonestDevice(host.wire.script) && |o.Image()| <= 0xFFFF_F800 ==>
          LoaderIn(host.wire.device.ram.bytes, LoadAddr(host.chip), o.Image()))
  }

  /** The talk is that of a connection with this port, and with the resets from number `from` to number `to` of this line. */
  ghost predicate Met(wire: Wire, talk: seq<Dialogue>, o: ConnectOptions, chip: Chip, from: int, to: int, ret: int) {
    0 <= from <= to && Connected(talk, o, chip, PortOf(wire, o.baud), ResetCodes(wire, from, to), ret)
  }

  /** One turn of the retry loop. */
  method TryOnce(host: Host, o: ConnectOptions, resetDelay: U32) returns (ret: int, entered: bool, ghost a: Attempt)
    requires host.Valid() && o.Valid()
    modifies host.wire, host.req, host.res, host`loaderRunning, host`readStream, host`layoutQueried
    ensures host.Valid() && Linked(host.wire) && (ret == 0 ==> Loaded(host, o) && host.loaderRunning)
    ensures a.code == ret && entered == a.Entered? && host.wire.Talk() == AttemptTalk(a)
    ensures host.wire.toggles == old(host.wire.toggles) + if resetDelay != 0 then 1 else 0
    ensures AttemptTold(a, o, host.chip, PortOf(host.wire, o.baud),
                        if resetDelay != 0 then host.wire.resets(old(host.wire.toggles)) else 0)
    ensures resetDelay == 0 ==> host.wire.device.speed == AttemptSpeed(a, old(host.wire.device.speed))
    ensures host.wire.speeds(BAUD_RATE_INIT) == 0 && HonestDevice(host.wire.script) && old(host.wire.inStep)
            && (resetDelay != 0 || old(host.wire.device.speed) == BAUD_RATE_INIT) ==>
              host.wire.inStep && (ret == 0 ==> host.wire.InStep() && host.wire.speed == o.baud)
    ensures host.wire.speeds(BAUD_RATE_INIT) == 0 && resetDelay == 0 && old(host.wire.device.speed) != BAUD_RATE_INIT ==>
              !host.wire.inStep
    ensures host.wire.inStep ==> old(host.wire.inStep)
  {
    hide HonestDevice, Store, Probed, EnterTold, Said, SpeedAfter;
    ret := Connect(host, resetDelay != 0);
    ghost var probes := host.wire.log[|old(host.wire.log)|..];
    if ret != 0 {
      entered := false;
      if resetDelay != 0 && host.wire.resets(old(host.wire.toggles)) != 0 {
        a := NotReset(ret);
      } else {
        a := NotProbed(ret, probes);
        ConnectIs(probes, host.wire.patience(old(host.wire.t)), ret);
      }
      return;
    }
    ConnectIs(probes, host.wire.patience(old(host.wire.t)), ret);
    ghost var connected := host.wire.log;
    ghost var loading, settling;
    ret, loading, settling := Enter(host, o);
    entered := true;
    a := Entered(ret, probes, loading, settling);
    assert host.wire.log[|old(host.wire.log)|..] == probes + host.wire.log[|connected|..];
    assert probes + (Said(loading) + Said(settling)) == probes + Said(loading) + Said(settling);
    if o.Image() != [] {
      StoredLoader(old(host.wire.device.ram.bytes), LoadAddr(host.chip), o.Image());
    }
  }

  lemma ConnectIs(probes: seq<Dialogue>, patience: nat, ret: int)
    requires (ret != -Serial.ETIMEDOUT && Probed(probes, patience, ret))
             || (ret == -ERR_PROBE_NO_SYNC && Probed(probes, patience, -Serial.ETIMEDOUT))
    ensures ConnectTold(probes, ret)
  {
    hide Probed;
    ProbesAre(probes, patience, if ret != -Serial.ETIMEDOUT && Probed(probes, patience, ret) then ret else -Serial.ETIMEDOUT);
  }

  /** serial_connect without --wait. With a nonzero reset delay, every command of every attempt finds host and device
      at the same speed, whatever gets lost. Without resets, that is so if and only if each attempt that is followed by
      another one has left the device at the initial speed. */
  method SerialConnect(host: Host, o: ConnectOptions) returns (ret: int, ghost attempts: seq<Attempt>)
    requires host.Valid() && o.Valid()
    modifies host.wire, host.req, host.res, host`loaderRunning, host`readStream, host`layoutQueried
    ensures host.Valid() && Linked(host.wire) && (ret == 0 ==> Loaded(host, o) && host.loaderRunning)
    ensures old(host.wire.toggles) <= host.wire.toggles
    ensures Attempted(attempts, o, host.chip, PortOf(host.wire, o.baud),
                      ResetCodes(host.wire, old(host.wire.toggles), host.wire.toggles), ret)
    ensures host.wire.Talk() == AttemptsTalk(attempts)
    ensures old(Steady(host.wire, o)) ==>
      host.wire.inStep && (ret == 0 ==> host.wire.InStep() && host.wire.speed == o.baud)
    ensures old(Sound(host.wire)) && o.resetDelay == 0 ==> (host.wire.inStep <==> CameBack(attempts, |attempts| - 1))
  {
    hide HonestDevice, Store, Probed, AttemptTold, AttemptTalk, AttemptsTalk, AttemptSpeed, Loaded, AllAttempts,
         CameBack, Paced, ResetCodes, Retrying, Final;
    ghost var start, port, log := host.wire.toggles, PortOf(host.wire, o.baud), host.wire.log;
    ghost var steady, free := Steady(host.wire, o), o.resetDelay == 0 && Sound(host.wire);
    attempts := [];
    NoResets(host.wire, start);
    RetryFirst(o, host.chip, port, log);
    PacedFirst(steady, free, host.wire.inStep, host.wire.device.speed);
    ret := -ERR_PROBE_NO_SYNC;
    var i: U32 := 0;
    while i < Wrap(o.attempts + 1)
      invariant host.Valid() && Linked(host.wire) && start <= host.wire.toggles && |attempts| == i
      invariant Retrying(attempts, o, host.chip, port, ResetCodes(host.wire, start, host.wire.toggles), log, host.wire.log)
      invariant i > 0 ==> i < Wrap(o.attempts + 1)
      invariant i == 0 ==> ret == -ERR_PROBE_NO_SYNC && host.wire.log == log
      invariant Paced(attempts, steady, free, host.wire.inStep, host.wire.device.speed)
      decreases 0x1_0000_0000 - i
    {
      var resetDelay := if i == 0 then 0 else o.resetDelay;
      ghost var before, toggles, inStep, speed := host.wire.log, host.wire.toggles, host.wire.inStep, host.wire.device.speed;
      var entered;
      ghost var a;
      ResetCodesNext(host.wire, start, toggles);
      ret, entered, a := TryOnce(host, o, resetDelay);
      RetryNext(attempts, a, o, host.chip, port, ResetCodes(host.wire, start, toggles),
                ResetCodes(host.wire, start, host.wire.toggles), log, before, host.wire.log);
      PacedNext(attempts, a, steady, free, resetDelay != 0, inStep, speed, host.wire.inStep, host.wire.device.speed);
      FinalIs(a);
      attempts := attempts + [a];
      PacedIs(attempts, steady, free, host.wire.inStep, host.wire.device.speed);
      if ret != 0 && !entered {
        if i == o.attempts {
          return;
        }
        i := i + 1;
        continue;
      }
      if ret != 0 {
        if ret == -ERR_SERIAL_BAUD_UNSUPPORTED || i >= o.attempts {
          return;
        }
        i := i + 1;
        continue;
      }
      return;
    }
    RetryNone(attempts, o, host.chip, port, ResetCodes(host.wire, start, host.wire.toggles), log, host.wire.log);
    PacedIs(attempts, steady, free, host.wire.inStep, host.wire.device.speed);
  }

  lemma NoResets(wire: Wire, from: nat)
    ensures ResetCodes(wire, from, from) == []
  {
  }
}
