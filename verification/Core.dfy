/** The serial transfer protocol: writing an image block by block with retries, and erasing. */
module Core {
  import opened Bytes
  import opened FlashMemory
  import opened Protocol
  import opened Cmd
  import opened MemIo
  import Serial
  import Md5

  datatype Target = ToFlash | ToNand | ToRam | ToEmmc

  const ERR_FILE_READ_FAILED: int := 2001
  const ERR_FLASH_ERASE_FAILED: int := 7002
  const ERR_FLASH_WRITE_FAILED: int := 7003
  const ERR_NAND_WRITE_FAILED: int := 7004
  const ERR_RAM_WRITE_FAILED: int := 7005
  const ERR_EMMC_ERASE_FAILED: int := 7007
  const ERR_EMMC_WRITE_FAILED: int := 7008

  const FLASH_BLOCK_TRIES: nat := 3
  const LOADER_BLOCK_TRIES: nat := 3

  predicate SupportsEmmc(chip: Chip) { chip == Arcs }

  function BeginOp(target: Target): (op: Byte)
    ensures IsBegin(op) && InRam(op) == target.ToRam?
  {
    match target
    case ToFlash => CMD_FLASH_BEGIN
    case ToNand => CMD_NAND_BEGIN
    case ToRam => CMD_MEM_BEGIN
    case ToEmmc => CMD_EMMC_BEGIN
  }

  function DataOp(target: Target): (op: Byte)
    ensures IsData(op) && InRam(op) == target.ToRam?
  {
    match target
    case ToFlash => CMD_FLASH_DATA
    case ToNand => CMD_NAND_DATA
    case ToRam => CMD_MEM_DATA
    case ToEmmc => CMD_EMMC_DATA
  }

  function EndOp(target: Target): Byte {
    match target
    case ToFlash => CMD_FLASH_END
    case ToNand => CMD_NAND_END
    case ToRam => CMD_MEM_END
    case ToEmmc => CMD_EMMC_END
  }

  function EndBody(target: Target, jump: U32): (b: seq<Byte>)
    ensures |b| <= 8
  {
    match target
    case ToFlash => LittleEndian(0xFF, 4)
    case ToNand => LittleEndian(0, 4)
    case ToRam => RangeBody(if jump != 0 then OPTION_JUMP else OPTION_RUN, jump)
    case ToEmmc => LittleEndian(0, 4)
  }

  function WriteError(target: Target): (code: int)
    ensures code > 0
  {
    match target
    case ToFlash => ERR_FLASH_WRITE_FAILED
    case ToNand => ERR_NAND_WRITE_FAILED
    case ToRam => ERR_RAM_WRITE_FAILED
    case ToEmmc => ERR_EMMC_WRITE_FAILED
  }

  /** A positive code of the device is passed on; any other failure gets the code of the operation. */
  function Mapped(ret: int, error: int): (r: int)
    ensures error > 0 ==> (r == 0 <==> ret == 0)
  {
    if ret == 0 then 0 else if ret > 0 then ret else -error
  }

  // ---- The device answers for what it did ----

  /** The device carries a request out before it reports success for it. */
  ghost predicate Honest(script: Script, errorFirst: bool)
    requires GoodScript(script)
  {
    forall t, d, r :: |r| >= HEADER_LEN && CheckOf(script(t, d, r), r[1], errorFirst) == 0 ==>
                        script(t, d, r).sendCode >= 0 && script(t, d, r).carried
  }

  lemma HonestReaction(script: Script, errorFirst: bool, t: nat, d: Device, op: Byte, chk: U32, body: seq<Byte>)
    requires GoodScript(script) && Honest(script, errorFirst)
    ensures var r := Request(op, chk, body);
      var e := script(t, d, r);
      CheckOf(e, op, errorFirst) == 0 ==> Reaction(e, d, r) == Carry(d, r)
  {
    hide CheckOf, Carry;
    var r := Request(op, chk, body);
    assert r[1] == op;
  }

  lemma SomeReaction(e: Exchange, d: Device, r: seq<Byte>)
    ensures Reaction(e, d, r) == d || Reaction(e, d, r) == Carry(d, r)
  {
  }

  // ---- Blocks ----

  /** After these results a block is sent again. */
  predicate Again(target: Target, ret: int) {
    match target
    case ToFlash => ret == -Serial.ETIMEDOUT || ret > 0
    case ToNand => ret > 0
    case ToRam => false
    case ToEmmc => ret == -Serial.ETIMEDOUT || ret == 0x0A
  }

  datatype Tried = Tried(ret: int, t: nat, device: Device, log: seq<Dialogue>)

  /** Sending a block until a result settles it, at most `tries` times, by the rule for the target. */
  ghost function Attempts(script: Script, t: nat, d: Device, log: seq<Dialogue>, target: Target, op: Byte,
      request: seq<Byte>, errorFirst: bool, tries: nat): Tried
    requires GoodScript(script)
    decreases tries
  {
    var e := script(t, d, request);
    var ret := CheckOf(e, op, errorFirst);
    if tries > 1 && Again(target, ret) then
      Attempts(script, t + 1, Reaction(e, d, request), log + [Dialogue(request, e)], target, op, request, errorFirst, tries - 1)
    else Tried(ret, t + 1, Reaction(e, d, request), log + [Dialogue(request, e)])
  }

  lemma AttemptsStep(script: Script, t: nat, d: Device, log: seq<Dialogue>, target: Target, op: Byte,
      request: seq<Byte>, errorFirst: bool, tries: nat)
    requires GoodScript(script)
    ensures var e := script(t, d, request);
      var ret, d', log' := CheckOf(e, op, errorFirst), Reaction(e, d, request), log + [Dialogue(request, e)];
      Attempts(script, t, d, log, target, op, request, errorFirst, tries)
      == if tries > 1 && Again(target, ret)
         then Attempts(script, t + 1, d', log', target, op, request, errorFirst, tries - 1)
         else Tried(ret, t + 1, d', log')
  {
  }

  /** The requests of one block: the same one every time, each but the last with a result that calls for another, and
      the last one gives the result, unless the tries are used up. */
  ghost predicate Repeats(talk: seq<Dialogue>, target: Target, request: seq<Byte>, errorFirst: bool, tries: nat, ret: int) {
    && 0 < |talk| && (tries > 0 ==> |talk| <= tries)
    && (forall i :: 0 <= i < |talk| ==> talk[i].request == request)
    && (forall i :: 0 <= i < |talk| - 1 ==> Again(target, talk[i].Code(errorFirst)))
    && ret == talk[|talk| - 1].Code(errorFirst)
    && (Again(target, ret) && tries > 0 ==> |talk| == tries)
  }

  lemma RepeatsOne(d: Dialogue, target: Target, errorFirst: bool, tries: nat)
    requires tries > 1 ==> !Again(target, d.Code(errorFirst))
    ensures Repeats([d], target, d.request, errorFirst, tries, d.Code(errorFirst))
  {
  }

  lemma RepeatsMore(d: Dialogue, talk: seq<Dialogue>, target: Target, errorFirst: bool, tries: nat, ret: int)
    requires tries > 1 && Again(target, d.Code(errorFirst)) && Repeats(talk, target, d.request, errorFirst, tries - 1, ret)
    ensures Repeats([d] + talk, target, d.request, errorFirst, tries, ret)
  {
    hide Again;
    var all := [d] + talk;
    assert all[|all| - 1] == talk[|talk| - 1];
    forall i | 0 <= i < |all| - 1 ensures Again(target, all[i].Code(errorFirst)) {
      assert i > 0 ==> all[i] == talk[i - 1];
    }
  }

  /** What the attempts leave in the log. */
  lemma {:induction false} AttemptsRepeat(script: Script, t: nat, d: Device, log: seq<Dialogue>, target: Target, op: Byte,
      chk: U32, body: seq<Byte>, errorFirst: bool, tries: nat)
    requires GoodScript(script)
    ensures var request := Request(op, chk, body);
      var r := Attempts(script, t, d, log, target, op, request, errorFirst, tries);
      log <= r.log && Repeats(r.log[|log|..], target, request, errorFirst, tries, r.ret)
    decreases tries
  {
    hide CheckOf, Carry, Request, Reaction, Again, Repeats;
    var request := Request(op, chk, body);
    var e := script(t, d, request);
    var here := Dialogue(request, e);
    var r := Attempts(script, t, d, log, target, op, request, errorFirst, tries);
    DialogueIs(e, op, chk, body, errorFirst);
    if tries > 1 && Again(target, CheckOf(e, op, errorFirst)) {
      AttemptsRepeat(script, t + 1, Reaction(e, d, request), log + [here], target, op, chk, body, errorFirst, tries - 1);
      RepeatsMore(here, r.log[|log + [here]|..], target, errorFirst, tries, r.ret);
      SuffixFirst(log, here, r.log);
    } else {
      RepeatsOne(here, target, errorFirst, tries);
      assert r.log[|log|..] == [here];
    }
  }

  lemma SuffixFirst(a: seq<Dialogue>, d: Dialogue, b: seq<Dialogue>)
    requires a + [d] <= b
    ensures a <= b && b[|a|..] == [d] + b[|a + [d]|..]
  {
  }

  // ---- The rules for trying again, spelled out ----

  /** One request up to n times, and the code of the last answer. */
  ghost predicate Sends(talk: seq<Dialogue>, request: seq<Byte>, errorFirst: bool, n: nat, ret: int) {
    && 0 < |talk| <= n && (forall i :: 0 <= i < |talk| ==> talk[i].request == request)
    && ret == talk[|talk| - 1].Code(errorFirst)
  }

  /** Flash and loader: a lost reply and any code of the device are followed by another try; 0 and any other error of the
      host are not. */
  ghost predicate FlashTries(talk: seq<Dialogue>, request: seq<Byte>, errorFirst: bool, n: nat, ret: int) {
    && Sends(talk, request, errorFirst, n, ret)
    && (forall i :: 0 <= i < |talk| - 1 ==> talk[i].Code(errorFirst) == -Serial.ETIMEDOUT || talk[i].Code(errorFirst) > 0)
    && (|talk| < n ==> ret <= 0 && ret != -Serial.ETIMEDOUT)
  }

  /** NAND: only a code of the device is followed by another try. */
  ghost predicate NandTries(talk: seq<Dialogue>, request: seq<Byte>, errorFirst: bool, n: nat, ret: int) {
    && Sends(talk, request, errorFirst, n, ret)
    && (forall i :: 0 <= i < |talk| - 1 ==> talk[i].Code(errorFirst) > 0)
    && (|talk| < n ==> ret <= 0)
  }

  /** eMMC: a lost reply and the code 10 are followed by another try. */
  ghost predicate EmmcTries(talk: seq<Dialogue>, request: seq<Byte>, errorFirst: bool, n: nat, ret: int) {
    && Sends(talk, request, errorFirst, n, ret)
    && (forall i :: 0 <= i < |talk| - 1 ==> talk[i].Code(errorFirst) == -Serial.ETIMEDOUT || talk[i].Code(errorFirst) == 10)
    && (|talk| < n ==> ret != 10 && ret != -Serial.ETIMEDOUT)
  }

  ghost predicate TargetTries(talk: seq<Dialogue>, target: Target, request: seq<Byte>, errorFirst: bool, n: nat, ret: int) {
    match target
    case ToFlash => FlashTries(talk, request, errorFirst, n, ret)
    case ToNand => NandTries(talk, request, errorFirst, n, ret)
    case ToRam => Sends(talk, request, errorFirst, 1, ret)
    case ToEmmc => EmmcTries(talk, request, errorFirst, n, ret)
  }

  lemma RepeatsTry(talk: seq<Dialogue>, target: Target, request: seq<Byte>, errorFirst: bool, n: nat, ret: int)
    requires Repeats(talk, target, request, errorFirst, n, ret) && n > 0
    ensures TargetTries(talk, target, request, errorFirst, n, ret)
  {
    hide Dialogue.Code;
    assert |talk| > 1 ==> Again(target, talk[0].Code(errorFirst));
  }

  /** The code of answer k when the device gets the same request again and again. */
  ghost function CodeAt(script: Script, t: nat, d: Device, op: Byte, request: seq<Byte>, errorFirst: bool, k: nat): int
    requires GoodScript(script)
    decreases k
  {
    var e := script(t, d, request);
    if k == 0 then CheckOf(e, op, errorFirst)
    else CodeAt(script, t + 1, Reaction(e, d, request), op, request, errorFirst, k - 1)
  }

  /** Answer k settles the block: those before it call for another try, and it does not, or it is the last one. */
  ghost predicate Settles(script: Script, t: nat, d: Device, target: Target, op: Byte, request: seq<Byte>, errorFirst: bool,
      tries: nat, k: nat)
    requires GoodScript(script)
  {
    && k < tries && (k + 1 < tries ==> !Again(target, CodeAt(script, t, d, op, request, errorFirst, k)))
    && forall j :: 0 <= j < k ==> Again(target, CodeAt(script, t, d, op, request, errorFirst, j))
  }

  lemma {:induction false} AttemptsSettle(script: Script, t: nat, d: Device, log: seq<Dialogue>, target: Target, op: Byte,
      request: seq<Byte>, errorFirst: bool, tries: nat) returns (k: nat)
    requires GoodScript(script) && tries > 0
    ensures Settles(script, t, d, target, op, request, errorFirst, tries, k)
    ensures Attempts(script, t, d, log, target, op, request, errorFirst, tries).ret
         == CodeAt(script, t, d, op, request, errorFirst, k)
    decreases tries
  {
    hide CheckOf, Again, Reaction;
    var e := script(t, d, request);
    k := 0;
    if tries > 1 && Again(target, CheckOf(e, op, errorFirst)) {
      var d' := Reaction(e, d, request);
      var m := AttemptsSettle(script, t + 1, d', log + [Dialogue(request, e)], target, op, request, errorFirst, tries - 1);
      k := m + 1;
      forall j | 0 <= j < k ensures Again(target, CodeAt(script, t, d, op, request, errorFirst, j)) {
        if j > 0 {
          assert Again(target, CodeAt(script, t + 1, d', op, request, errorFirst, j - 1));
        }
      }
    }
  }

  /** A block of flash or loader succeeds exactly when one of the first n answers is good and before it there are only lost
      replies and codes of the device. */
  lemma FlashBlockSucceeds(script: Script, t: nat, d: Device, log: seq<Dialogue>, op: Byte, request: seq<Byte>,
      errorFirst: bool, n: nat)
    requires GoodScript(script) && n > 0
    ensures Attempts(script, t, d, log, ToFlash, op, request, errorFirst, n).ret == 0 <==>
      exists k :: 0 <= k < n && CodeAt(script, t, d, op, request, errorFirst, k) == 0
                  && forall j :: 0 <= j < k ==> CodeAt(script, t, d, op, request, errorFirst, j) == -Serial.ETIMEDOUT
                                                || CodeAt(script, t, d, op, request, errorFirst, j) > 0
  {
    hide CodeAt, Attempts;
    var k := AttemptsSettle(script, t, d, log, ToFlash, op, request, errorFirst, n);
  }

  lemma NandBlockSucceeds(script: Script, t: nat, d: Device, log: seq<Dialogue>, op: Byte, request: seq<Byte>,
      errorFirst: bool, n: nat)
    requires GoodScript(script) && n > 0
    ensures Attempts(script, t, d, log, ToNand, op, request, errorFirst, n).ret == 0 <==>
      exists k :: 0 <= k < n && CodeAt(script, t, d, op, request, errorFirst, k) == 0
                  && forall j :: 0 <= j < k ==> CodeAt(script, t, d, op, request, errorFirst, j) > 0
  {
    hide CodeAt, Attempts;
    var k := AttemptsSettle(script, t, d, log, ToNand, op, request, errorFirst, n);
  }

  lemma EmmcBlockSucceeds(script: Script, t: nat, d: Device, log: seq<Dialogue>, op: Byte, request: seq<Byte>,
      errorFirst: bool, n: nat)
    requires GoodScript(script) && n > 0
    ensures Attempts(script, t, d, log, ToEmmc, op, request, errorFirst, n).ret == 0 <==>
      exists k :: 0 <= k < n && CodeAt(script, t, d, op, request, errorFirst, k) == 0
                  && forall j :: 0 <= j < k ==> CodeAt(script, t, d, op, request, errorFirst, j) == -Serial.ETIMEDOUT
                                                || CodeAt(script, t, d, op, request, errorFirst, j) == 10
  {
    hide CodeAt, Attempts;
    var k := AttemptsSettle(script, t, d, log, ToEmmc, op, request, errorFirst, n);
  }

  lemma BlockTwice(d: Device, inRam: bool, seqNo: int, data: seq<Byte>)
    ensures WithBlock(WithBlock(d, inRam, seqNo, data), inRam, seqNo, data) == WithBlock(d, inRam, seqNo, data)
  {
    hide Put;
    var b := BankOf(d, inRam);
    PutTwice(MediumOf(d, inRam), b.bytes, b.base + b.unit * seqNo, data);
  }

  /** Whatever is lost or repeated, the device ends up with the block stored or untouched, and it is stored when
      the attempts succeed. */
  lemma {:induction false} AttemptsStore(script: Script, t: nat, d: Device, log: seq<Dialogue>, target: Target, op: Byte,
      data: seq<Byte>, seqNo: U32, errorFirst: bool, tries: nat)
    requires GoodScript(script) && |data| <= FLASH_BLOCK_SIZE && IsData(op)
    ensures var r := Attempts(script, t, d, log, target, op, BlockRequest(op, data, seqNo), errorFirst, tries);
      var stored := WithBlock(d, InRam(op), seqNo, data);
      && t < r.t && (tries > 0 ==> r.t <= t + tries)
      && (r.device == d || r.device == stored)
      && (r.ret == 0 && Honest(script, errorFirst) ==> r.device == stored)
    decreases tries
  {
    hide CheckOf, Carry, Checksum, BlockBody, Request, Reaction, WithBlock, Honest, Again;
    var request := BlockRequest(op, data, seqNo);
    var e := script(t, d, request);
    var d' := Reaction(e, d, request);
    CarryIsBlock(d, op, seqNo, data);
    SomeReaction(e, d, request);
    BlockTwice(d, InRam(op), seqNo, data);
    if tries > 1 && Again(target, CheckOf(e, op, errorFirst)) {
      AttemptsStore(script, t + 1, d', log + [Dialogue(request, e)], target, op, data, seqNo, errorFirst, tries - 1);
    } else if Honest(script, errorFirst) {
      HonestReaction(script, errorFirst, t, d, op, Checksum(data), BlockBody(seqNo, data));
    }
  }

  lemma CarryIsBlock(d: Device, op: Byte, seqNo: U32, data: seq<Byte>)
    requires IsData(op) && |data| <= FLASH_BLOCK_SIZE
    ensures Carry(d, BlockRequest(op, data, seqNo)) == WithBlock(d, InRam(op), seqNo, data)
  {
    hide Carry, Checksum, BlockBody, Request, WithBlock;
    CarryBlock(d, op, seqNo, data);
  }

  /** try_flash_block */
  method TryFlashBlock(host: Host, data: seq<Byte>, seqNo: U32) returns (ret: int)
    requires host.Valid() && |data| <= FLASH_BLOCK_SIZE
    modifies host.wire, host.req, host.res
    ensures host.Valid() && Sent(host, ToFlash, CMD_FLASH_DATA, data, seqNo, FLASH_BLOCK_TRIES, ret)
    ensures FlashTries(host.wire.Talk(), BlockRequest(CMD_FLASH_DATA, data, seqNo), host.ErrorFirst(), 3, ret)
  {
    hide CheckOf, Carry, Request, Reaction, Attempts, FlashTries;
    ghost var request := BlockRequest(CMD_FLASH_DATA, data, seqNo);
    ghost var goal := Pending(host, ToFlash, CMD_FLASH_DATA, request, FLASH_BLOCK_TRIES);
    PendingTries(host, ToFlash, CMD_FLASH_DATA, data, seqNo, FLASH_BLOCK_TRIES);
    ret := 0;
    for i := 0 to FLASH_BLOCK_TRIES
      invariant host.Valid() && host.wire.Went()
      invariant i < FLASH_BLOCK_TRIES ==> Pending(host, ToFlash, CMD_FLASH_DATA, request, FLASH_BLOCK_TRIES - i) == goal
      invariant i == FLASH_BLOCK_TRIES ==> goal == Tried(ret, host.wire.t, host.wire.device, host.wire.log)
    {
      AttemptsStep(host.wire.script, host.wire.t, host.wire.device, host.wire.log, ToFlash, CMD_FLASH_DATA, request,
                   host.ErrorFirst(), FLASH_BLOCK_TRIES - i);
      BlockKeepsSpeed(host, CMD_FLASH_DATA, data, seqNo);
      ret := host.Block(CMD_FLASH_DATA, data, seqNo);
      if ret == 0 {
        return 0;
      } else if ret == -Serial.ETIMEDOUT {
        continue;
      } else if ret < 0 {
        return;
      }
    }
  }

  /** try_loader_block: only some chips repeat blocks of the loader. */
  method TryLoaderBlock(host: Host, data: seq<Byte>, seqNo: U32, attempts: nat) returns (ret: int)
    requires host.Valid() && |data| <= FLASH_BLOCK_SIZE && attempts > 0
    modifies host.wire, host.req, host.res
    ensures host.Valid() && Sent(host, ToFlash, CMD_MEM_DATA, data, seqNo, attempts, ret)
    ensures FlashTries(host.wire.Talk(), BlockRequest(CMD_MEM_DATA, data, seqNo), host.ErrorFirst(), attempts, ret)
  {
    hide CheckOf, Carry, Request, Reaction, Attempts, FlashTries;
    ghost var request := BlockRequest(CMD_MEM_DATA, data, seqNo);
    ghost var goal := Pending(host, ToFlash, CMD_MEM_DATA, request, attempts);
    PendingTries(host, ToFlash, CMD_MEM_DATA, data, seqNo, attempts);
    ret := -Serial.ETIMEDOUT;
    for i := 0 to attempts
      invariant host.Valid() && host.wire.Went()
      invariant i < attempts ==> Pending(host, ToFlash, CMD_MEM_DATA, request, attempts - i) == goal
      invariant i == attempts ==> goal == Tried(ret, host.wire.t, host.wire.device, host.wire.log)
    {
      AttemptsStep(host.wire.script, host.wire.t, host.wire.device, host.wire.log, ToFlash, CMD_MEM_DATA, request,
                   host.ErrorFirst(), attempts - i);
      BlockKeepsSpeed(host, CMD_MEM_DATA, data, seqNo);
      ret := host.Block(CMD_MEM_DATA, data, seqNo);
      if ret == 0 {
        return;
      } else if ret < 0 && ret != -Serial.ETIMEDOUT {
        return;
      }
    }
  }

  /** try_nand_block: a timeout is not tried again. */
  method TryNandBlock(host: Host, data: seq<Byte>, seqNo: U32) returns (ret: int)
    requires host.Valid() && |data| <= FLASH_BLOCK_SIZE
    modifies host.wire, host.req, host.res
    ensures host.Valid() && Sent(host, ToNand, CMD_NAND_DATA, data, seqNo, FLASH_BLOCK_TRIES, ret)
    ensures NandTries(host.wire.Talk(), BlockRequest(CMD_NAND_DATA, data, seqNo), host.ErrorFirst(), 3, ret)
  {
    hide CheckOf, Carry, Request, Reaction, Attempts, NandTries;
    ghost var request := BlockRequest(CMD_NAND_DATA, data, seqNo);
    ghost var goal := Pending(host, ToNand, CMD_NAND_DATA, request, FLASH_BLOCK_TRIES);
    PendingTries(host, ToNand, CMD_NAND_DATA, data, seqNo, FLASH_BLOCK_TRIES);
    ret := 0;
    for i := 0 to FLASH_BLOCK_TRIES
      invariant host.Valid() && host.wire.Went()
      invariant i < FLASH_BLOCK_TRIES ==> Pending(host, ToNand, CMD_NAND_DATA, request, FLASH_BLOCK_TRIES - i) == goal
      invariant i == FLASH_BLOCK_TRIES ==> goal == Tried(ret, host.wire.t, host.wire.device, host.wire.log)
    {
      AttemptsStep(host.wire.script, host.wire.t, host.wire.device, host.wire.log, ToNand, CMD_NAND_DATA, request,
                   host.ErrorFirst(), FLASH_BLOCK_TRIES - i);
      BlockKeepsSpeed(host, CMD_NAND_DATA, data, seqNo);
      ret := host.Block(CMD_NAND_DATA, data, seqNo);
      if ret == 0 {
        return 0;
      } else if ret < 0 {
        return;
      }
    }
  }

  /** try_emmc_block: of the codes of the device, only "busy" is tried again. */
  method TryEmmcBlock(host: Host, data: seq<Byte>, seqNo: U32) returns (ret: int)
    requires host.Valid() && |data| <= FLASH_BLOCK_SIZE
    modifies host.wire, host.req, host.res
    ensures host.Valid() && Sent(host, ToEmmc, CMD_EMMC_DATA, data, seqNo, FLASH_BLOCK_TRIES, ret)
    ensures EmmcTries(host.wire.Talk(), BlockRequest(CMD_EMMC_DATA, data, seqNo), host.ErrorFirst(), 3, ret)
  {
    hide CheckOf, Carry, Request, Reaction, Attempts, EmmcTries;
    ghost var request := BlockRequest(CMD_EMMC_DATA, data, seqNo);
    ghost var goal := Pending(host, ToEmmc, CMD_EMMC_DATA, request, FLASH_BLOCK_TRIES);
    PendingTries(host, ToEmmc, CMD_EMMC_DATA, data, seqNo, FLASH_BLOCK_TRIES);
    ret := -Serial.ETIMEDOUT;
    for i := 0 to FLASH_BLOCK_TRIES
      invariant host.Valid() && host.wire.Went()
      invariant i < FLASH_BLOCK_TRIES ==> Pending(host, ToEmmc, CMD_EMMC_DATA, request, FLASH_BLOCK_TRIES - i) == goal
      invariant i == FLASH_BLOCK_TRIES ==> goal == Tried(ret, host.wire.t, host.wire.device, host.wire.log)
    {
      AttemptsStep(host.wire.script, host.wire.t, host.wire.device, host.wire.log, ToEmmc, CMD_EMMC_DATA, request,
                   host.ErrorFirst(), FLASH_BLOCK_TRIES - i);
      BlockKeepsSpeed(host, CMD_EMMC_DATA, data, seqNo);
      ret := host.Block(CMD_EMMC_DATA, data, seqNo);
      if ret == 0 {
        return 0;
      } else if ret != -Serial.ETIMEDOUT && ret != 0x0A {
        return;
      }
    }
  }

  /** What the attempts that are left come to from here. */
  ghost function Pending(host: Host, target: Target, op: Byte, request: seq<Byte>, tries: nat): Tried
    requires host.Valid()
    reads host, host.wire
  {
    Attempts(host.wire.script, host.wire.t, host.wire.device, host.wire.log, target, op, request, host.ErrorFirst(), tries)
  }

  lemma PendingTries(host: Host, target: Target, op: Byte, data: seq<Byte>, seqNo: U32, tries: nat)
    requires host.Valid() && tries > 0
    ensures var goal := Pending(host, target, op, BlockRequest(op, data, seqNo), tries);
      && host.wire.log <= goal.log
      && TargetTries(goal.log[|host.wire.log|..], target, BlockRequest(op, data, seqNo), host.ErrorFirst(), tries, goal.ret)
  {
    hide CheckOf, Carry, Request, Reaction, Attempts, Repeats, TargetTries, Checksum, BlockBody;
    ghost var log, request := host.wire.log, BlockRequest(op, data, seqNo);
    var goal := Pending(host, target, op, request, tries);
    AttemptsRepeat(host.wire.script, host.wire.t, host.wire.device, log, target, op, Checksum(data), BlockBody(seqNo, data),
                   host.ErrorFirst(), tries);
    RepeatsTry(goal.log[|log|..], target, request, host.ErrorFirst(), tries, goal.ret);
  }

  /** A block has gone out as often as it takes. */
  twostate predicate Sent(host: Host, target: Target, op: Byte, data: seq<Byte>, seqNo: U32, tries: nat, ret: int)
    reads host, host.wire
  {
    && old(host.Valid()) && host.wire.Went()
    && Tried(ret, host.wire.t, host.wire.device, host.wire.log)
       == old(Pending(host, target, op, BlockRequest(op, data, seqNo), tries))
  }

  lemma BlockKeepsSpeed(host: Host, op: Byte, data: seq<Byte>, seqNo: U32)
    requires IsData(op) && |data| <= FLASH_BLOCK_SIZE
    ensures var r := BlockRequest(op, data, seqNo);
      Reaction(host.wire.Next(r), host.wire.device, r).speed == host.wire.device.speed
  {
    hide Carry, Checksum, BlockBody, Request;
    CarryIsBlock(host.wire.device, op, seqNo, data);
  }

  // ---- Writing ----

  /** A device on which d has been written from addr on. */
  function Written(d: Device, inRam: bool, addr: int, c: seq<Byte>): Device { Laid(d, inRam, addr, FLASH_BLOCK_SIZE, c) }

  /** The same in blocks of another size. */
  function Laid(d: Device, inRam: bool, addr: int, unit: int, c: seq<Byte>): Device {
    WithBank(d, inRam, Bank(Put(MediumOf(d, inRam), BankOf(d, inRam).bytes, addr, c), addr, unit))
  }

  lemma LaidNothing(d: Device, inRam: bool, addr: U32, unit: U32, size: U32, blocks: U32, op: Byte)
    requires IsBegin(op) && InRam(op) == inRam
    ensures Carry(d, Request(op, 0, BeginBody(size, blocks, unit, addr))) == Laid(d, inRam, addr, unit, [])
  {
    hide Carry, Request, Put;
    CarryBegin(d, op, size, blocks, unit, addr);
    PutNothing(MediumOf(d, inRam), BankOf(d, inRam).bytes, addr);
  }

  lemma LaidNext(d: Device, inRam: bool, addr: int, unit: nat, c: seq<Byte>, i: nat, off: nat, end: nat)
    requires off == unit * i && off <= end <= |c| && (inRam || off % 0x1000 == 0)
    ensures WithBlock(Laid(d, inRam, addr, unit, c[..off]), inRam, i, c[off..end]) == Laid(d, inRam, addr, unit, c[..end])
  {
    hide Put;
    assert c[..off] + c[off..end] == c[..end];
    PutNext(MediumOf(d, inRam), BankOf(d, inRam).bytes, addr, c[..off], c[off..end]);
  }

  lemma WrittenNext(d: Device, inRam: bool, addr: int, c: seq<Byte>, i: nat, end: nat)
    requires FLASH_BLOCK_SIZE * i <= end <= |c|
    ensures var off := FLASH_BLOCK_SIZE * i;
      WithBlock(Written(d, inRam, addr, c[..off]), inRam, i, c[off..end]) == Written(d, inRam, addr, c[..end])
  {
    hide WithBlock, Laid;
    LaidNext(d, inRam, addr, FLASH_BLOCK_SIZE, c, i, FLASH_BLOCK_SIZE * i, end);
  }

  /** A command that neither stores nor changes the speed. */
  lemma SettledEnd(d: Device, target: Target, jump: U32)
    ensures Carry(d, Request(EndOp(target), 0, EndBody(target, jump))) == d
  {
    hide Carry, Request;
    if target.ToRam? {
      CarryMemEnd(d, if jump != 0 then OPTION_JUMP else OPTION_RUN, jump);
    } else {
      CarryNothing(d, EndOp(target), 0, EndBody(target, jump));
    }
  }

  /** A begin command. */
  method BeginCommand(host: Host, op: Byte, size: U32, blocks: U32, unit: U32, addr: U32) returns (ret: int)
    requires host.Valid() && IsBegin(op)
    modifies host.wire, host.req, host.res
    ensures host.Valid() && host.wire.Went()
    ensures host.wire.Spoke(Request(op, 0, BeginBody(size, blocks, unit, addr)))
    ensures ret == host.wire.Talk()[0].Code(host.ErrorFirst())
    ensures host.wire.device in {old(host.wire.device), Laid(old(host.wire.device), InRam(op), addr, unit, [])}
    ensures ret == 0 && Honest(host.wire.script, host.ErrorFirst()) ==>
              host.wire.device == Laid(old(host.wire.device), InRam(op), addr, unit, [])
  {
    hide CheckOf, Outcome, Carry, Request, Laid, BeginBody;
    var body := BeginBody(size, blocks, unit, addr);
    ghost var r, d := Request(op, 0, body), host.wire.device;
    LaidNothing(d, InRam(op), addr, unit, size, blocks, op);
    SomeReaction(host.wire.Next(r), d, r);
    LaidSpeed(d, InRam(op), addr, unit, []);
    DialogueIs(host.wire.Next(r), op, 0, body, host.ErrorFirst());
    if Honest(host.wire.script, host.ErrorFirst()) {
      HonestReaction(host.wire.script, host.ErrorFirst(), host.wire.t, d, op, 0, body);
    }
    var value;
    ret, value := host.Simple(op, body);
  }

  lemma LaidSpeed(d: Device, inRam: bool, addr: int, unit: int, c: seq<Byte>)
    ensures Laid(d, inRam, addr, unit, c).speed == d.speed
  {
  }

  function BeginRequest(target: Target, size: U32, addr: U32): seq<Byte> {
    Request(BeginOp(target), 0, BeginBody(size, BlocksOf(size), FLASH_BLOCK_SIZE, addr))
  }

  /** A write announces all of its bytes, in blocks of 4096, and where they go. */
  lemma BeginAnnounces(target: Target, size: U32, addr: U32)
    ensures var p := ParseRequest(BeginRequest(target, size, addr));
      && p.Parsed? && p.op == BeginOp(target) && |p.body| == 16
      && FromLittleEndian(p.body[..4]) == size
      && 4096 * (FromLittleEndian(p.body[4..8]) - 1) < size <= 4096 * FromLittleEndian(p.body[4..8])
      && FromLittleEndian(p.body[8..12]) == 4096 && FromLittleEndian(p.body[12..16]) == addr
  {
    hide ParseRequest, Request, FromLittleEndian, BeginBody;
    RequestRoundTrip(BeginOp(target), 0, BeginBody(size, BlocksOf(size), FLASH_BLOCK_SIZE, addr));
    BeginFields(size, BlocksOf(size), FLASH_BLOCK_SIZE, addr);
  }

  function EndRequest(target: Target, jump: U32): seq<Byte> { Request(EndOp(target), 0, EndBody(target, jump)) }

  /** The end command of a target. */
  method End(host: Host, target: Target, jump: U32) returns (ret: int)
    requires host.Valid()
    modifies host.wire, host.req, host.res
    ensures host.Valid() && host.wire.Went() && host.wire.device == old(host.wire.device)
    ensures host.wire.Spoke(EndRequest(target, jump))
    ensures ret == host.wire.Talk()[0].Code(host.ErrorFirst())
  {
    hide CheckOf, Outcome, Carry, Request;
    ghost var r := Request(EndOp(target), 0, EndBody(target, jump));
    DialogueIs(host.wire.Next(r), EndOp(target), 0, EndBody(target, jump), host.ErrorFirst());
    SettledEnd(host.wire.device, target, jump);
    SomeReaction(host.wire.Next(r), host.wire.device, r);
    var value;
    ret, value := host.Simple(EndOp(target), EndBody(target, jump));
  }

  function Tries(target: Target): nat { if target.ToRam? then 1 else FLASH_BLOCK_TRIES }

  /** One block of a target, tried as often as the target allows. */
  method PutBlock(host: Host, target: Target, data: seq<Byte>, seqNo: U32) returns (ret: int)
    requires host.Valid() && |data| <= FLASH_BLOCK_SIZE
    modifies host.wire, host.req, host.res
    ensures host.Valid() && host.wire.Went()
    ensures host.wire.device in {old(host.wire.device), WithBlock(old(host.wire.device), target.ToRam?, seqNo, data)}
    ensures ret == 0 && Honest(host.wire.script, host.ErrorFirst()) ==>
              host.wire.device == WithBlock(old(host.wire.device), target.ToRam?, seqNo, data)
    ensures TargetTries(host.wire.Talk(), target, BlockRequest(DataOp(target), data, seqNo), host.ErrorFirst(), 3, ret)
  {
    hide CheckOf, Carry, Request, Reaction, WithBlock, Honest, Checksum, BlockBody, Repeats, FlashTries, NandTries,
         EmmcTries, Sends;
    ghost var script, ef := host.wire.script, host.ErrorFirst();
    AttemptsStore(script, host.wire.t, host.wire.device, host.wire.log, target, DataOp(target), data, seqNo, ef, Tries(target));
    PendingTries(host, target, DataOp(target), data, seqNo, Tries(target));
    BlockKeepsSpeed(host, DataOp(target), data, seqNo);
    match target {
      case ToFlash => ret := TryFlashBlock(host, data, seqNo);
      case ToNand => ret := TryNandBlock(host, data, seqNo);
      case ToRam => ret := host.Block(CMD_MEM_DATA, data, seqNo);
      case ToEmmc => ret := TryEmmcBlock(host, data, seqNo);
    }
  }

  /** The buffers of the host and of a reader are different arrays. */
  ghost predicate Apart(host: Host, reader: MemReader)
    reads reader, reader.hook
  {
    && reader.buffer !in {host.req, host.res}
    && (reader.hook != null ==> reader.hook.buffer !in {host.req, host.res, reader.buffer})
  }

  /** BLOCKS(size, FLASH_BLOCK_SIZE) */
  function BlocksOf(size: nat): nat { (size + FLASH_BLOCK_SIZE - 1) / FLASH_BLOCK_SIZE }

  /** Block k of the data. */
  function BlockOf(data: seq<Byte>, k: nat): seq<Byte> {
    data[Least(FLASH_BLOCK_SIZE * k, |data|)..Least(FLASH_BLOCK_SIZE * k + FLASH_BLOCK_SIZE, |data|)]
  }

  /** The exchanges of block k, whose last one succeeds. */
  ghost predicate BlockSent(talk: seq<Dialogue>, target: Target, data: seq<Byte>, k: nat, errorFirst: bool) {
    TargetTries(talk, target, BlockRequest(DataOp(target), BlockOf(data, k), Wrap(k)), errorFirst, 3, 0)
  }

  /** Exactly the first n blocks of the data have gone out, each as often as it took. */
  ghost predicate BlocksSent(talk: seq<Dialogue>, target: Target, data: seq<Byte>, n: nat, errorFirst: bool)
    decreases n
  {
    if n == 0 then talk == []
    else
      exists cut: nat :: cut <= |talk| && BlocksSent(talk[..cut], target, data, n - 1, errorFirst)
                         && BlockSent(talk[cut..], target, data, n - 1, errorFirst)
  }

  lemma BlocksNext(talk: seq<Dialogue>, more: seq<Dialogue>, target: Target, data: seq<Byte>, i: nat, errorFirst: bool)
    requires BlocksSent(talk, target, data, i, errorFirst) && BlockSent(more, target, data, i, errorFirst)
    ensures BlocksSent(talk + more, target, data, i + 1, errorFirst)
  {
    hide BlockSent;
    var all, cut := talk + more, |talk|;
    assert all[..cut] == talk && all[cut..] == more;
  }

  ghost predicate OnlyOps(talk: seq<Dialogue>, ops: set<Byte>) { forall i :: 0 <= i < |talk| ==> talk[i].Op() in ops }

  lemma NoOps(ops: set<Byte>)
    ensures OnlyOps([], ops)
  {
  }

  lemma OpsJoin(a: seq<Dialogue>, b: seq<Dialogue>, ops: set<Byte>)
    requires OnlyOps(a, ops) && OnlyOps(b, ops)
    ensures OnlyOps(a + b, ops)
  {
  }

  lemma OpsWiden(a: seq<Dialogue>, few: set<Byte>, ops: set<Byte>)
    requires OnlyOps(a, few) && few <= ops
    ensures OnlyOps(a, ops)
  {
  }

  /** What a write says to the device, and what it makes of it. It begins with the begin request; it returns the code of
      the last answer, or that of a short file; it gives up on a block only when its tries do; and it returns 0 only after
      each block in order, and the end request. */
  ghost predicate WriteTold(talk: seq<Dialogue>, chip: Chip, target: Target, addr: U32, data: seq<Byte>, jump: U32,
      errorFirst: bool, ret: int)
  {
    if target.ToEmmc? && !SupportsEmmc(chip) then talk == [] && ret == -Serial.EINVAL
    else
      && talk != [] && talk[0].request == BeginRequest(target, Wrap(|data|), addr)
      && OnlyOps(talk, {BeginOp(target), DataOp(target), EndOp(target)})
      && (ret == -ERR_FILE_READ_FAILED || ret == Mapped(talk[|talk| - 1].Code(errorFirst), WriteError(target)))
      && (ret !in {0, -ERR_FILE_READ_FAILED} && talk[|talk| - 1].Op() == DataOp(target) ==>
            BlockLast(talk, target, errorFirst))
      && (ret == 0 ==>
            && |talk| >= 2 && talk[0].Code(errorFirst) == 0
            && talk[|talk| - 1].request == EndRequest(target, jump)
            && BlocksSent(talk[1..|talk| - 1], target, data, BlocksOf(|data|), errorFirst))
  }

  /** Up to two lost replies in a row never fail a write to flash or eMMC: when nothing else goes wrong, it succeeds. */
  lemma LostRepliesForgiven(talk: seq<Dialogue>, chip: Chip, target: Target, addr: U32, data: seq<Byte>, jump: U32,
      errorFirst: bool, ret: int)
    requires target.ToFlash? || (target.ToEmmc? && chip == Arcs)
    requires WriteTold(talk, chip, target, addr, data, jump, errorFirst, ret) && ret != -ERR_FILE_READ_FAILED
    requires forall i :: 0 <= i < |talk| ==>
      talk[i].Code(errorFirst) == 0 || (talk[i].Op() == DataOp(target) && talk[i].Code(errorFirst) == -Serial.ETIMEDOUT)
    requires forall i :: 2 <= i < |talk| ==>
      talk[i - 2].Code(errorFirst) == 0 || talk[i - 1].Code(errorFirst) == 0 || talk[i].Code(errorFirst) == 0
    ensures ret == 0
  {
    hide BlocksSent, BlockLast, Dialogue.Code, OnlyOps;
    if ret != 0 {
      assert talk[|talk| - 1].Code(errorFirst) == -Serial.ETIMEDOUT && BlockLast(talk, target, errorFirst);
      ThreeLost(talk, target, errorFirst);
    }
  }

  lemma ThreeLost(talk: seq<Dialogue>, target: Target, errorFirst: bool)
    requires (target.ToFlash? || target.ToEmmc?) && talk != [] && BlockLast(talk, target, errorFirst)
    requires talk[|talk| - 1].Code(errorFirst) == -Serial.ETIMEDOUT
    ensures var n := |talk| - 1;
      && n >= 2 && talk[n - 2].Code(errorFirst) != 0 && talk[n - 1].Code(errorFirst) != 0 && talk[n].Code(errorFirst) != 0
  {
    hide Dialogue.Code, TargetTries;
    var n := |talk| - 1;
    var s: nat :| s < |talk| && TriesFrom(talk, s, target, errorFirst);
    var last := talk[s..];
    LostThrice(last, target, talk[n].request, errorFirst);
    assert last[0] == talk[n - 2] && last[1] == talk[n - 1];
  }

  lemma LostThrice(talk: seq<Dialogue>, target: Target, request: seq<Byte>, errorFirst: bool)
    requires (target.ToFlash? || target.ToEmmc?) && TargetTries(talk, target, request, errorFirst, 3, -Serial.ETIMEDOUT)
    ensures |talk| == 3 && talk[0].Code(errorFirst) != 0 && talk[1].Code(errorFirst) != 0
  {
    hide Dialogue.Code;
  }

  /** Where block i ends. */
  function BlockEnd(i: nat, size: nat): nat { Least(FLASH_BLOCK_SIZE * i + FLASH_BLOCK_SIZE, size) }

  /** The bytes of block i from the reader, of which c[4096 * i..] is left. */
  method Fetch(reader: MemReader, i: U32, ghost c: seq<Byte>) returns (bytes: seq<Byte>, full: bool)
    requires reader.Valid() && (reader.hook != null ==> reader.hook.Valid() && reader.hook.buffer != reader.buffer)
    requires FLASH_BLOCK_SIZE * i < reader.size && FLASH_BLOCK_SIZE * i <= |c|
    requires reader.Contents()[reader.readOff..] == c[FLASH_BLOCK_SIZE * i..]
    modifies reader`readOff, reader.hook
    modifies if reader.hook == null then {} else {reader.hook.buffer}
    ensures reader.Valid() && reader.Contents() == old(reader.Contents())
    ensures reader.hook != null ==> reader.hook.Valid() && reader.hook.absorbed == old(reader.hook.absorbed) + bytes
    ensures |c| == reader.size ==> full
    ensures full ==>
      && BlockEnd(i, reader.size) <= |c| && bytes == c[FLASH_BLOCK_SIZE * i..BlockEnd(i, reader.size)]
      && reader.Contents()[reader.readOff..] == c[BlockEnd(i, reader.size)..]
  {
    hide Md5.Holds;
    ghost var all, r0 := reader.Contents(), reader.readOff;
    var offset := FLASH_BLOCK_SIZE * i;
    var length := FLASH_BLOCK_SIZE;
    if offset + length > reader.size {
      length := reader.size - offset;
    }
    bytes := reader.Read(length);
    full := |bytes| == length;
    if full {
      Taken(all, r0, c, offset, length);
    }
  }

  /** One turn of the loop of cskburn_serial_write: c is what was left in the reader, and d the device, before it. */
  method WriteBlock(host: Host, target: Target, ghost addr: U32, reader: MemReader, i: U32, ghost d: Device,
      ghost c: seq<Byte>)
    returns (ret: int, ghost stored: nat)
    requires host.Valid() && reader.Valid() && Apart(host, reader)
    requires reader.hook != null ==> reader.hook.Valid()
    requires FLASH_BLOCK_SIZE * i < reader.size && FLASH_BLOCK_SIZE * i <= |c| <= reader.size
    requires reader.Contents()[reader.readOff..] == c[FLASH_BLOCK_SIZE * i..]
    requires Honest(host.wire.script, host.ErrorFirst()) ==>
               host.wire.device == Written(d, target.ToRam?, addr, c[..FLASH_BLOCK_SIZE * i])
    modifies host.wire, host.req, host.res, reader`readOff, reader.hook
    modifies if reader.hook == null then {} else {reader.hook.buffer}
    ensures host.Valid() && host.wire.Went() && reader.Valid() && reader.Contents() == old(reader.Contents())
    ensures reader.hook != null ==> reader.hook.Valid()
    ensures stored <= |c|
    ensures Honest(host.wire.script, host.ErrorFirst()) ==>
              host.wire.device == Written(d, target.ToRam?, addr, c[..stored])
    ensures ret == 0 ==> stored == BlockEnd(i, reader.size) && reader.Contents()[reader.readOff..] == c[stored..]
    ensures ret == 0 && reader.hook != null ==>
              reader.hook.absorbed == old(reader.hook.absorbed) + c[FLASH_BLOCK_SIZE * i..stored]
    ensures BlockTold(host.wire.Talk(), target, BlockOf(c, i), i, host.ErrorFirst(), ret)
    ensures |c| == reader.size ==> ret != -ERR_FILE_READ_FAILED
  {
    hide CheckOf, Carry, Request, Reaction, WithBlock, Honest, Written, Again, BlockEnd, WriteError, Md5.Holds,
         TargetTries, BlockOf, Mapped, BlockTold;
    stored := FLASH_BLOCK_SIZE * i;
    ghost var before := host.wire.log;
    NoBlock(target, BlockOf(c, i), i, host.ErrorFirst());
    MappedZero(WriteError(target));
    var bytes, full := Fetch(reader, i, c);
    if !full {
      assert host.wire.log[|host.wire.log|..] == [];
      return -ERR_FILE_READ_FAILED, stored;
    }
    ghost var end := BlockEnd(i, reader.size);
    BlockEnds(i, reader.size);
    BlockOfIs(c, i, reader.size);
    WrittenNext(d, target.ToRam?, addr, c, i, end);
    ret := PutBlock(host, target, bytes, i);
    if ret == 0 || host.wire.device == Written(d, target.ToRam?, addr, c[..end]) {
      stored := end;
    }
    ghost var code := ret;
    ret := Mapped(ret, WriteError(target));
    MappedNotShort(code, target);
    TriesTold(host.wire.log[|before|..], target, BlockOf(c, i), i, host.ErrorFirst(), code);
  }

  lemma MappedNotShort(code: int, target: Target)
    ensures Mapped(code, WriteError(target)) != -ERR_FILE_READ_FAILED
  {
  }

  lemma TriesTold(talk: seq<Dialogue>, target: Target, data: seq<Byte>, i: U32, errorFirst: bool, code: int)
    requires TargetTries(talk, target, BlockRequest(DataOp(target), data, i), errorFirst, 3, code)
    ensures BlockTold(talk, target, data, i, errorFirst, Mapped(code, WriteError(target)))
  {
    hide Mapped, Request;
  }

  /** What one turn of the loop says: nothing when the file is short, or the block. */
  ghost predicate BlockTold(talk: seq<Dialogue>, target: Target, data: seq<Byte>, i: U32, errorFirst: bool, ret: int) {
    || (talk == [] && ret == -ERR_FILE_READ_FAILED)
    || (talk != []
        && var code := talk[|talk| - 1].Code(errorFirst);
        && ret == Mapped(code, WriteError(target))
        && TargetTries(talk, target, BlockRequest(DataOp(target), data, i), errorFirst, 3, code))
  }

  lemma NoBlock(target: Target, data: seq<Byte>, i: U32, errorFirst: bool)
    ensures BlockTold([], target, data, i, errorFirst, -ERR_FILE_READ_FAILED)
  {
  }

  lemma MappedZero(error: int)
    requires error > 0
    ensures forall ret :: Mapped(ret, error) == 0 <==> ret == 0
  {
  }

  lemma BlockOfIs(c: seq<Byte>, i: U32, size: nat)
    requires FLASH_BLOCK_SIZE * i < size && BlockEnd(i, size) <= |c| <= size
    ensures BlockOf(c, i) == c[FLASH_BLOCK_SIZE * i..BlockEnd(i, size)]
  {
  }

  lemma BlockEnds(i: nat, size: nat)
    requires FLASH_BLOCK_SIZE * i < size
    ensures FLASH_BLOCK_SIZE * i < BlockEnd(i, size) <= FLASH_BLOCK_SIZE * i + FLASH_BLOCK_SIZE
  {
  }

  lemma Taken(all: seq<Byte>, r0: nat, c: seq<Byte>, offset: nat, n: nat)
    requires r0 + n <= |all| && offset <= |c| && all[r0..] == c[offset..]
    ensures offset + n <= |c| && all[r0..r0 + n] == c[offset..offset + n] && all[r0 + n..] == c[offset + n..]
  {
    assert all[r0..r0 + n] == all[r0..][..n] == c[offset..][..n];
    assert all[r0 + n..] == all[r0..][n..] == c[offset..][n..];
  }

  lemma Grown(seen: seq<Byte>, c: seq<Byte>, from: nat, to: nat)
    requires from <= to <= |c|
    ensures seen + c[..from] + c[from..to] == seen + c[..to]
  {
    assert c[..from] + c[from..to] == c[..to];
  }

  /** The loop of cskburn_serial_write; d is the device before the begin command. */
  method WriteBlocks(host: Host, target: Target, ghost addr: U32, reader: MemReader, ghost d: Device, ghost c: seq<Byte>)
    returns (ret: int, ghost stored: nat)
    requires host.Valid() && reader.Valid() && Apart(host, reader)
    requires reader.hook != null ==> reader.hook.Valid()
    requires reader.Contents()[reader.readOff..] == c
    requires Honest(host.wire.script, host.ErrorFirst()) ==> host.wire.device == Written(d, target.ToRam?, addr, [])
    modifies host.wire, host.req, host.res, reader`readOff, reader.hook
    modifies if reader.hook == null then {} else {reader.hook.buffer}
    ensures host.Valid() && host.wire.Went() && reader.Valid() && reader.Contents() == old(reader.Contents())
    ensures reader.hook != null ==> reader.hook.Valid()
    ensures stored <= |c|
    ensures Honest(host.wire.script, host.ErrorFirst()) ==>
              host.wire.device == Written(d, target.ToRam?, addr, c[..stored])
    ensures ret == 0 ==> stored == |c| == reader.size
    ensures ret == 0 && reader.hook != null ==> reader.hook.absorbed == old(reader.hook.absorbed) + c
    ensures BlocksTold(host.wire.Talk(), target, c, BlocksOf(reader.size), host.ErrorFirst(), ret)
    ensures |c| == reader.size ==> ret != -ERR_FILE_READ_FAILED
  {
    hide CheckOf, Carry, Request, Reaction, WithBlock, Honest, Written, Again, Md5.Holds, BlocksSent, BlockTold,
         OnlyOps, BlockOf, Mapped, DataOp, BlocksTold, Dialogue.Code, SentSoFar;
    ghost var talk: seq<Dialogue>, start := [], host.wire.log;
    NoBlocks(target, c, host.ErrorFirst());
    assert start == start + talk;
    ghost var seen := if reader.hook == null then [] else reader.hook.absorbed;
    var blocks := BlocksOf(reader.size);
    stored, ret := 0, 0;
    assert c[..0] == [] && c[0..] == c && seen + c[..0] == seen;
    var i := 0;
    while i < blocks
      invariant i <= blocks && host.Valid() && host.wire.Went()
      invariant reader.Valid() && reader.Contents() == old(reader.Contents())
      invariant stored == Least(FLASH_BLOCK_SIZE * i, reader.size) <= |c|
      invariant reader.Contents()[reader.readOff..] == c[stored..]
      invariant Honest(host.wire.script, host.ErrorFirst()) ==>
                  host.wire.device == Written(d, target.ToRam?, addr, c[..stored])
      invariant reader.hook != null ==> reader.hook.Valid() && reader.hook.absorbed == seen + c[..stored]
      invariant host.wire.log == start + talk && SentSoFar(talk, target, c, i, host.ErrorFirst()) && ret == 0
      decreases blocks - i
    {
      ghost var done, before := stored, host.wire.log;
      ret, stored := WriteBlock(host, target, addr, reader, i, d, c);
      ghost var more := host.wire.log[|before|..];
      LogMore(start, talk, before, host.wire.log);
      BlocksStep(talk, more, target, c, i, blocks, host.ErrorFirst(), ret);
      if ret != 0 {
        return;
      }
      talk := talk + more;
      Grown(seen, c, done, stored);
      i := i + 1;
    }
    BlocksDone(talk, target, c, blocks, host.ErrorFirst());
    assert host.wire.log[|start|..] == talk;
    assert c[..|c|] == c;
  }

  /** The first n blocks have gone out, and nothing else. */
  ghost predicate SentSoFar(talk: seq<Dialogue>, target: Target, data: seq<Byte>, n: nat, errorFirst: bool) {
    OnlyOps(talk, {DataOp(target)}) && BlocksSent(talk, target, data, n, errorFirst)
  }

  /** A log that goes on. */
  lemma LogMore(start: seq<Dialogue>, talk: seq<Dialogue>, log: seq<Dialogue>, log': seq<Dialogue>)
    requires log == start + talk && log <= log'
    ensures start <= log' && log' == start + (talk + log'[|log|..]) && log'[|start|..] == talk + log'[|log|..]
  {
    assert log' == log + log'[|log|..];
  }

  lemma BlocksDone(talk: seq<Dialogue>, target: Target, data: seq<Byte>, n: nat, errorFirst: bool)
    requires SentSoFar(talk, target, data, n, errorFirst)
    ensures BlocksTold(talk, target, data, n, errorFirst, 0)
  {
  }

  /** The log ends with the tries of one block. */
  ghost predicate BlockLast(talk: seq<Dialogue>, target: Target, errorFirst: bool) {
    exists s: nat :: s < |talk| && TriesFrom(talk, s, target, errorFirst)
  }

  ghost predicate TriesFrom(talk: seq<Dialogue>, s: nat, target: Target, errorFirst: bool)
    requires s < |talk|
  {
    TargetTries(talk[s..], target, talk[|talk| - 1].request, errorFirst, 3, talk[|talk| - 1].Code(errorFirst))
  }

  lemma BlockIsLast(talk: seq<Dialogue>, more: seq<Dialogue>, target: Target, request: seq<Byte>, errorFirst: bool)
    requires more != [] && TargetTries(more, target, request, errorFirst, 3, more[|more| - 1].Code(errorFirst))
    ensures BlockLast(talk + more, target, errorFirst)
  {
    hide Dialogue.Code;
    var all := talk + more;
    assert all[|talk|..] == more && all[|all| - 1] == more[|more| - 1];
    assert more[|more| - 1].request == request;
    assert TriesFrom(all, |talk|, target, errorFirst);
  }

  lemma BlockStaysLast(talk: seq<Dialogue>, more: seq<Dialogue>, target: Target, errorFirst: bool)
    requires BlockLast(more, target, errorFirst)
    ensures BlockLast(talk + more, target, errorFirst)
  {
    hide Dialogue.Code, TargetTries;
    var s: nat :| s < |more| && TriesFrom(more, s, target, errorFirst);
    var all := talk + more;
    assert all[|talk| + s..] == more[s..] && all[|all| - 1] == more[|more| - 1];
    assert TriesFrom(all, |talk| + s, target, errorFirst);
  }

  /** What the loop over the blocks says. */
  ghost predicate BlocksTold(talk: seq<Dialogue>, target: Target, data: seq<Byte>, n: nat, errorFirst: bool, ret: int) {
    && OnlyOps(talk, {DataOp(target)})
    && (if ret == 0 then BlocksSent(talk, target, data, n, errorFirst)
        else ret == -ERR_FILE_READ_FAILED
             || (talk != [] && ret == Mapped(talk[|talk| - 1].Code(errorFirst), WriteError(target))
                 && BlockLast(talk, target, errorFirst)))
  }

  lemma NoBlocks(target: Target, data: seq<Byte>, errorFirst: bool)
    ensures SentSoFar([], target, data, 0, errorFirst)
  {
  }

  lemma RequestOp(op: Byte, chk: U32, body: seq<Byte>)
    ensures Request(op, chk, body)[1] == op
  {
  }

  lemma OnlyBlocks(talk: seq<Dialogue>, more: seq<Dialogue>, target: Target, data: seq<Byte>, i: U32, errorFirst: bool,
      ret: int)
    requires OnlyOps(talk, {DataOp(target)}) && BlockTold(more, target, data, i, errorFirst, ret)
    ensures OnlyOps(talk + more, {DataOp(target)})
  {
    hide Request, Mapped, Dialogue.Code, Again, DataOp;
    RequestOp(DataOp(target), Checksum(data), BlockBody(i, data));
  }

  lemma BlocksStep(talk: seq<Dialogue>, more: seq<Dialogue>, target: Target, data: seq<Byte>, i: U32, blocks: nat,
      errorFirst: bool, ret: int)
    requires SentSoFar(talk, target, data, i, errorFirst)
    requires BlockTold(more, target, BlockOf(data, i), i, errorFirst, ret)
    ensures ret == 0 ==> SentSoFar(talk + more, target, data, i as int + 1, errorFirst)
    ensures ret != 0 ==> BlocksTold(talk + more, target, data, blocks, errorFirst, ret)
  {
    hide BlocksSent, BlockOf, Request, OnlyOps, TargetTries, BlockLast, Dialogue.Code, Mapped;
    OnlyBlocks(talk, more, target, BlockOf(data, i), i, errorFirst, ret);
    MappedZero(WriteError(target));
    if ret == 0 {
      assert Wrap(i) == i;
      BlocksNext(talk, more, target, data, i, errorFirst);
    } else if more != [] {
      assert (talk + more)[|talk + more| - 1] == more[|more| - 1];
      BlockIsLast(talk, more, target, BlockRequest(DataOp(target), BlockOf(data, i), i), errorFirst);
    }
  }

  /** What is said behind the begin request: the blocks, and the end request. */
  ghost predicate BodyTold(talk: seq<Dialogue>, target: Target, data: seq<Byte>, n: nat, jump: U32, errorFirst: bool, ret: int)
  {
    && OnlyOps(talk, {DataOp(target), EndOp(target)})
    && (ret == -ERR_FILE_READ_FAILED
        || (talk != [] && ret == Mapped(talk[|talk| - 1].Code(errorFirst), WriteError(target))
            && (ret != 0 && talk[|talk| - 1].Op() == DataOp(target) ==> BlockLast(talk, target, errorFirst))))
    && (ret == 0 ==> talk != [] && talk[|talk| - 1].request == EndRequest(target, jump)
                     && BlocksSent(talk[..|talk| - 1], target, data, n, errorFirst))
  }

  lemma BodyEnds(blocks: seq<Dialogue>, end: Dialogue, target: Target, data: seq<Byte>, n: nat, jump: U32, errorFirst: bool)
    requires BlocksTold(blocks, target, data, n, errorFirst, 0) && end.request == EndRequest(target, jump)
    ensures BodyTold(blocks + [end], target, data, n, jump, errorFirst, Mapped(end.Code(errorFirst), WriteError(target)))
  {
    hide BlocksSent, Request, Mapped, Dialogue.Code;
    RequestOp(EndOp(target), 0, EndBody(target, jump));
    var talk := blocks + [end];
    assert talk[..|talk| - 1] == blocks;
  }

  lemma BodyStops(blocks: seq<Dialogue>, target: Target, data: seq<Byte>, n: nat, jump: U32, errorFirst: bool, ret: int)
    requires BlocksTold(blocks, target, data, n, errorFirst, ret) && ret != 0
    ensures BodyTold(blocks, target, data, n, jump, errorFirst, ret)
  {
    hide BlocksSent, Mapped, Dialogue.Code;
  }

  /** The begin request and what follows it make the whole of a write. */
  lemma WholeWrite(begin: Dialogue, body: seq<Dialogue>, chip: Chip, target: Target, addr: U32, c: seq<Byte>,
      data: seq<Byte>, jump: U32, errorFirst: bool, ret: int)
    requires !(target.ToEmmc? && !SupportsEmmc(chip)) && begin.Code(errorFirst) == 0 && (ret == 0 ==> c == data)
    requires begin.request == BeginRequest(target, Wrap(|data|), addr)
    requires BodyTold(body, target, c, BlocksOf(|data|), jump, errorFirst, ret)
    ensures WriteTold([begin] + body, chip, target, addr, data, jump, errorFirst, ret)
  {
    hide BlocksSent, BlockLast, Request, Mapped, Dialogue.Code;
    var talk := [begin] + body;
    if BlockLast(body, target, errorFirst) {
      BlockStaysLast([begin], body, target, errorFirst);
    }
    BeginOnly(begin, target, Wrap(|data|), addr);
    if body != [] {
      assert talk[|talk| - 1] == body[|body| - 1] && talk[1..|talk| - 1] == body[..|body| - 1];
    }
    MappedZero(WriteError(target));
  }

  lemma BeginOnly(begin: Dialogue, target: Target, size: U32, addr: U32)
    requires begin.request == BeginRequest(target, size, addr)
    ensures begin.Op() == BeginOp(target)
  {
    hide Request;
    RequestOp(BeginOp(target), 0, BeginBody(size, BlocksOf(size), FLASH_BLOCK_SIZE, addr));
  }

  /** A write whose begin request fails. */
  lemma NoWrite(begin: Dialogue, chip: Chip, target: Target, addr: U32, data: seq<Byte>, jump: U32, errorFirst: bool)
    requires !(target.ToEmmc? && !SupportsEmmc(chip)) && begin.Code(errorFirst) != 0
    requires begin.request == BeginRequest(target, Wrap(|data|), addr)
    ensures WriteTold([begin], chip, target, addr, data, jump, errorFirst, Mapped(begin.Code(errorFirst), WriteError(target)))
  {
    hide Request, Dialogue.Code, BlocksSent;
    MappedZero(WriteError(target));
    BeginOnly(begin, target, Wrap(|data|), addr);
  }

  /** What follows the begin request; d is the device before it. */
  method WriteBody(host: Host, target: Target, ghost addr: U32, reader: MemReader, jump: U32, ghost d: Device,
      ghost c: seq<Byte>)
    returns (ret: int, ghost stored: nat)
    requires host.Valid() && reader.Valid() && Apart(host, reader)
    requires reader.hook != null ==> reader.hook.Valid()
    requires reader.Contents()[reader.readOff..] == c
    requires Honest(host.wire.script, host.ErrorFirst()) ==> host.wire.device == Written(d, target.ToRam?, addr, [])
    modifies host.wire, host.req, host.res, reader`readOff, reader.hook
    modifies if reader.hook == null then {} else {reader.hook.buffer}
    ensures host.Valid() && host.wire.Went() && reader.Valid() && reader.Contents() == old(reader.Contents())
    ensures reader.hook != null ==> reader.hook.Valid()
    ensures stored <= |c|
    ensures Honest(host.wire.script, host.ErrorFirst()) ==>
              host.wire.device == Written(d, target.ToRam?, addr, c[..stored])
    ensures ret == 0 ==> stored == |c| == reader.size
    ensures ret == 0 && reader.hook != null ==> reader.hook.absorbed == old(reader.hook.absorbed) + c
    ensures BodyTold(host.wire.Talk(), target, c, BlocksOf(reader.size), jump, host.ErrorFirst(), ret)
    ensures |c| == reader.size ==> ret != -ERR_FILE_READ_FAILED
  {
    hide CheckOf, Carry, Request, Reaction, Honest, Laid, Md5.Holds, BlocksTold, BodyTold, EndBody, Mapped,
         Dialogue.Code;
    ghost var start := host.wire.log;
    MappedZero(WriteError(target));
    ret, stored := WriteBlocks(host, target, addr, reader, d, c);
    ghost var blocks := host.wire.log[|start|..];
    if ret != 0 {
      BodyStops(blocks, target, c, BlocksOf(reader.size), jump, host.ErrorFirst(), ret);
      return;
    }
    ret := End(host, target, jump);
    ghost var end := host.wire.log[|host.wire.log| - 1];
    assert host.wire.log[|start|..] == blocks + [end];
    BodyEnds(blocks, end, target, c, BlocksOf(reader.size), jump, host.ErrorFirst());
    MappedNotShort(ret, target);
    ret := Mapped(ret, WriteError(target));
  }

  /** How far a write has come: nothing done at all, or the first bytes of c at their place. */
  ghost predicate Partly(before: Device, now: Device, inRam: bool, addr: int, c: seq<Byte>, stored: nat) {
    && stored <= |c|
    && ((now == before && stored == 0) || now == Written(before, inRam, addr, c[..stored]))
  }

  /** cskburn_serial_write. However often requests and replies get lost, at any exit the device holds a prefix of
      the bytes from addr on and is untouched elsewhere; when it returns 0, it holds all of them, and the hook of
      the reader has seen each byte once, in order. */
  method SerialWrite(host: Host, target: Target, addr: U32, reader: MemReader, jump: U32)
    returns (ret: int, ghost stored: nat)
    requires host.Valid() && reader.Valid() && Apart(host, reader)
    requires reader.hook != null ==> reader.hook.Valid()
    modifies host.wire, host.req, host.res, reader`readOff, reader.hook
    modifies if reader.hook == null then {} else {reader.hook.buffer}
    ensures host.Valid() && host.wire.Went() && reader.Valid() && reader.Contents() == old(reader.Contents())
    ensures reader.hook != null ==> reader.hook.Valid() && Apart(host, reader)
    ensures target.ToEmmc? && !SupportsEmmc(host.chip) ==> ret == -Serial.EINVAL && unchanged(host.wire)
    ensures WriteTold(host.wire.Talk(), host.chip, target, addr, old(reader.Contents()), jump, host.ErrorFirst(), ret)
    ensures old(reader.readOff) == 0 ==> ret != -ERR_FILE_READ_FAILED
    ensures Honest(host.wire.script, host.ErrorFirst()) ==>
              Partly(old(host.wire.device), host.wire.device, target.ToRam?, addr,
                     old(reader.Contents()[reader.readOff..]), stored)
    ensures ret == 0 ==> old(reader.readOff) == 0
    ensures ret == 0 && Honest(host.wire.script, host.ErrorFirst()) ==>
              host.wire.device == Written(old(host.wire.device), target.ToRam?, addr, old(reader.Contents()))
    ensures ret == 0 && reader.hook != null ==>
              reader.hook.absorbed == old(reader.hook.absorbed) + old(reader.Contents())
  {
    hide CheckOf, Carry, Request, Reaction, Honest, Laid, Md5.Holds, WriteTold, BodyTold, BeginBody, Mapped, Wrap,
         Dialogue.Code;
    stored := 0;
    ghost var start := host.wire.log;
    if target.ToEmmc? && !SupportsEmmc(host.chip) {
      NothingTold(host.chip, target, addr, reader.Contents(), jump, host.ErrorFirst());
      assert start[|start|..] == [];
      return -Serial.EINVAL, 0;
    }
    ghost var d, c, all := host.wire.device, reader.Contents()[reader.readOff..], reader.Contents();
    assert c[..0] == [];
    var blocks := BlocksOf(reader.size);
    ret := BeginCommand(host, BeginOp(target), reader.size, blocks, FLASH_BLOCK_SIZE, addr);
    ghost var begin := host.wire.log[|start|];
    SizeWraps(|all|);
    assert begin.request == BeginRequest(target, Wrap(|all|), addr);
    if ret != 0 {
      assert host.wire.log[|start|..] == [begin];
      NoWrite(begin, host.chip, target, addr, all, jump, host.ErrorFirst());
      MappedNotShort(ret, target);
      return Mapped(ret, WriteError(target)), 0;
    }
    ghost var begun := host.wire.log;
    ret, stored := WriteBody(host, target, addr, reader, jump, d, c);
    ghost var body := host.wire.log[|begun|..];
    assert host.wire.log[|start|..] == [begin] + body;
    if ret == 0 {
      assert c == reader.Contents() && c[..|c|] == c;
    }
    WholeWrite(begin, body, host.chip, target, addr, c, all, jump, host.ErrorFirst(), ret);
  }

  lemma SizeWraps(n: nat)
    requires n < 0x8000_0000
    ensures Wrap(n) == n
  {
  }

  lemma NothingTold(chip: Chip, target: Target, addr: U32, data: seq<Byte>, jump: U32, errorFirst: bool)
    requires target.ToEmmc? && !SupportsEmmc(chip)
    ensures WriteTold([], chip, target, addr, data, jump, errorFirst, -Serial.EINVAL)
  {
  }
}
