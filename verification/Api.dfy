/** The other operations of the serial library: erasing, locking, and asking the device about itself. */
module Api {
  import opened Bytes
  import opened FlashMemory
  import opened Protocol
  import opened Cmd
  import opened Core
  import opened Utils
  import Md5Spec
  import Serial

  const ERR_CHIP_ID_READ_FAILED: int := 6001
  const ERR_FLASH_ID_READ_FAILED: int := 6002
  const ERR_FLASH_NOT_DETECTED: int := 6003
  const ERR_NAND_INIT_FAILED: int := 6004
  const ERR_EMMC_INIT_FAILED: int := 6005
  const ERR_FLASH_LOCK_FAILED: int := 7009
  const ERR_FLASH_UNLOCK_FAILED: int := 7010
  const ERR_VERIFY_READ_FAILED: int := 8001

  predicate SupportsFlashLock(chip: Chip) { chip == Arcs || chip == VenusA }
  predicate SupportsFlashIndex(chip: Chip) { chip == Arcs }
  predicate SupportsFlashLayout(chip: Chip) { chip == Arcs }

  /** A command that leaves the device as it is. */
  twostate predicate Asked(wire: Wire)
    reads wire
  {
    wire.Went() && wire.device == old(wire.device)
  }

  lemma HarmlessReaction(e: Exchange, d: Device, op: Byte, body: seq<Byte>)
    requires IsHarmless(op) && |body| < 0x1_0000
    ensures Reaction(e, d, Request(op, 0, body)) == d
  {
    hide Carry, Request;
    CarryNothing(d, op, 0, body);
  }

  method Ask(host: Host, op: Byte, body: seq<Byte>) returns (ret: int, value: U32)
    requires host.Valid() && IsHarmless(op) && IsOpcode(op) && |body| <= 16
    modifies host.wire, host.req, host.res
    ensures host.Valid() && Asked(host.wire) && host.wire.Spoke(Request(op, 0, body))
    ensures ret == host.wire.Talk()[0].Code(host.ErrorFirst()) && (ret == 0 ==> value == host.wire.Talk()[0].Value())
  {
    hide CheckOf, Outcome, Reaction, Request;
    ghost var e := host.wire.Next(Request(op, 0, body));
    HarmlessReaction(e, host.wire.device, op, body);
    DialogueIs(e, op, 0, body, host.ErrorFirst());
    ret, value := host.Simple(op, body);
  }

  method AskData(host: Host, op: Byte, body: seq<Byte>, size: nat, exact: bool) returns (ret: int, data: seq<Byte>)
    requires host.Valid() && IsHarmless(op) && IsOpcode(op) && |body| <= 16 && size <= FLASH_BLOCK_SIZE
    modifies host.wire, host.req, host.res
    ensures host.Valid() && Asked(host.wire) && host.wire.Spoke(Request(op, 0, body))
    ensures (ret, data) == host.wire.Talk()[0].Data(size, exact, host.ErrorFirst())
  {
    hide QueryOf, Reaction, Request;
    ghost var e := host.wire.Next(Request(op, 0, body));
    HarmlessReaction(e, host.wire.device, op, body);
    DialogueIs(e, op, 0, body, host.ErrorFirst());
    ret, data := host.Query(op, body, size, size, exact);
  }

  /** The one request is a command with this body. */
  ghost predicate Asks(talk: seq<Dialogue>, op: Byte, body: seq<Byte>) {
    |talk| == 1 && talk[0].request == Request(op, 0, body)
  }

  /** A command that is sent only where it is supported, and whose answer decides. */
  ghost predicate CommandTold(talk: seq<Dialogue>, supported: bool, op: Byte, body: seq<Byte>, error: int, errorFirst: bool,
      ret: int)
  {
    if supported then Asks(talk, op, body) && ret == Mapped(talk[0].Code(errorFirst), error)
    else talk == [] && ret == -Serial.ENOTSUP
  }

  // ---- Erasing ----

  /** What a command that erases may leave; when an honest device reports success, the range reads 0xFF. */
  twostate predicate MayErase(host: Host, addr: int, size: int, ret: int)
    requires host.wire.Valid()
    reads host, host.wire
  {
    var erased := old(host.wire.device).(store := Erased(old(host.wire.device.store), addr, size));
    && host.wire.Went() && host.wire.t == old(host.wire.t) + 1
    && host.wire.device in {old(host.wire.device), erased}
    && (ret == 0 && Honest(host.wire.script, host.ErrorFirst()) ==> host.wire.device == erased)
  }

  method EraseCommand(host: Host, op: Byte, addr: U32, size: U32) returns (ret: int)
    requires host.Valid() && IsErase(op)
    modifies host.wire, host.req, host.res
    ensures host.Valid() && MayErase(host, addr, size, ret)
    ensures host.wire.Spoke(Request(op, 0, RangeBody(addr, size))) && ret == host.wire.Talk()[0].Code(host.ErrorFirst())
  {
    hide CheckOf, Outcome, Carry, Request, Erase;
    var body := RangeBody(addr, size);
    ghost var d, r := host.wire.device, Request(op, 0, body);
    CarryErase(d, op, addr, size);
    DialogueIs(host.wire.Next(r), op, 0, body, host.ErrorFirst());
    SomeReaction(host.wire.Next(r), d, r);
    if Honest(host.wire.script, host.ErrorFirst()) {
      HonestReaction(host.wire.script, host.ErrorFirst(), host.wire.t, d, op, 0, body);
    }
    var value;
    ret, value := host.Simple(op, body);
  }

  /** What an erase says and returns: an empty range and one beyond 2^32 are refused before anything is sent, and so is
      a target that cannot be erased. */
  ghost predicate EraseTold(talk: seq<Dialogue>, chip: Chip, target: Target, addr: U32, size: U32, errorFirst: bool, ret: int)
  {
    if size == 0 || addr as int + size > 0x1_0000_0000 then talk == [] && ret == -Serial.EINVAL
    else if target.ToFlash? then
      CommandTold(talk, true, CMD_FLASH_ERASE_REGION, RangeBody(addr, size), ERR_FLASH_ERASE_FAILED, errorFirst, ret)
    else if target.ToEmmc? && SupportsEmmc(chip) then
      CommandTold(talk, true, CMD_EMMC_ERASE_DATA, RangeBody(addr, size), ERR_EMMC_ERASE_FAILED, errorFirst, ret)
    else talk == [] && ret == if target.ToNand? then -Serial.ENOTSUP else -Serial.EINVAL
  }

  /** cskburn_serial_erase. An empty range and one beyond 2^32 are refused before anything is sent. */
  method SerialErase(host: Host, target: Target, addr: U32, size: U32) returns (ret: int)
    requires host.Valid()
    modifies host.wire, host.req, host.res
    ensures host.Valid() && host.wire.Went()
    ensures var allowed := size != 0 && addr as int + size <= 0x1_0000_0000
                           && (target.ToFlash? || (target.ToEmmc? && SupportsEmmc(host.chip)));
      if allowed then MayErase(host, addr, size, ret) else ret < 0 && unchanged(host.wire)
    ensures EraseTold(host.wire.Talk(), host.chip, target, addr, size, host.ErrorFirst(), ret)
  {
    hide Honest, Erased, Request, Dialogue.Code;
    if size == 0 || addr as int + size > 0x1_0000_0000 {
      return -Serial.EINVAL;
    }
    if target.ToFlash? {
      ret := EraseCommand(host, CMD_FLASH_ERASE_REGION, addr, size);
      ret := Mapped(ret, ERR_FLASH_ERASE_FAILED);
    } else if target.ToNand? {
      ret := -Serial.ENOTSUP;
    } else if target.ToEmmc? && SupportsEmmc(host.chip) {
      ret := EraseCommand(host, CMD_EMMC_ERASE_DATA, addr, size);
      ret := Mapped(ret, ERR_EMMC_ERASE_FAILED);
    } else {
      ret := -Serial.EINVAL;
    }
  }

  ghost predicate EraseAllTold(talk: seq<Dialogue>, target: Target, errorFirst: bool, ret: int) {
    if target.ToRam? then talk == [] && ret == -Serial.EINVAL
    else CommandTold(talk, target.ToFlash?, CMD_FLASH_ERASE_CHIP, [], ERR_FLASH_ERASE_FAILED, errorFirst, ret)
  }

  /** cskburn_serial_erase_all */
  method SerialEraseAll(host: Host, target: Target) returns (ret: int)
    requires host.Valid()
    modifies host.wire, host.req, host.res
    ensures host.Valid() && host.wire.Went()
    ensures if target.ToFlash? then MayErase(host, 0, |old(host.wire.device.store.bytes)|, ret)
            else ret < 0 && unchanged(host.wire)
    ensures EraseAllTold(host.wire.Talk(), target, host.ErrorFirst(), ret)
  {
    hide CheckOf, Outcome, Carry, Request, Erase;
    match target {
      case ToFlash =>
        ghost var d, r := host.wire.device, Request(CMD_FLASH_ERASE_CHIP, 0, []);
        DialogueIs(host.wire.Next(r), CMD_FLASH_ERASE_CHIP, 0, [], host.ErrorFirst());
        CarryEraseChip(d);
        SomeReaction(host.wire.Next(r), d, r);
        if Honest(host.wire.script, host.ErrorFirst()) {
          HonestReaction(host.wire.script, host.ErrorFirst(), host.wire.t, d, CMD_FLASH_ERASE_CHIP, 0, []);
        }
        var value;
        ret, value := host.Simple(CMD_FLASH_ERASE_CHIP, []);
        ret := Mapped(ret, ERR_FLASH_ERASE_FAILED);
      case ToNand => ret := -Serial.ENOTSUP;
      case ToEmmc => ret := -Serial.ENOTSUP;
      case ToRam => ret := -Serial.EINVAL;
    }
  }

  // ---- Protection ----

  /** Targets with a protection that can be changed. */
  predicate Protects(chip: Chip, target: Target) { target.ToFlash? && SupportsFlashLock(chip) }

  /** cskburn_serial_lock */
  method SerialLock(host: Host, target: Target) returns (ret: int)
    requires host.Valid()
    modifies host.wire, host.req, host.res
    ensures host.Valid() && Asked(host.wire)
    ensures if Protects(host.chip, target) then host.wire.Spoke(Request(CMD_FLASH_LOCK, 0, [])) else unchanged(host.wire)
    ensures CommandTold(host.wire.Talk(), Protects(host.chip, target), CMD_FLASH_LOCK, [], ERR_FLASH_LOCK_FAILED,
                        host.ErrorFirst(), ret)
  {
    hide Dialogue.Code, Request;
    if !target.ToFlash? || !SupportsFlashLock(host.chip) {
      return -Serial.ENOTSUP;
    }
    var value;
    ret, value := Ask(host, CMD_FLASH_LOCK, []);
    ret := Mapped(ret, ERR_FLASH_LOCK_FAILED);
  }

  /** cskburn_serial_unlock */
  method SerialUnlock(host: Host, target: Target) returns (ret: int)
    requires host.Valid()
    modifies host.wire, host.req, host.res
    ensures host.Valid() && Asked(host.wire)
    ensures if Protects(host.chip, target) then host.wire.Spoke(Request(CMD_FLASH_UNLOCK, 0, [])) else unchanged(host.wire)
    ensures CommandTold(host.wire.Talk(), Protects(host.chip, target), CMD_FLASH_UNLOCK, [], ERR_FLASH_UNLOCK_FAILED,
                        host.ErrorFirst(), ret)
  {
    hide Dialogue.Code, Request;
    if !target.ToFlash? || !SupportsFlashLock(host.chip) {
      return -Serial.ENOTSUP;
    }
    var value;
    ret, value := Ask(host, CMD_FLASH_UNLOCK, []);
    ret := Mapped(ret, ERR_FLASH_UNLOCK_FAILED);
  }

  datatype Protection = Unlocked | Locked | Unknown

  /** What the answer means: the loader may not know the command, refuse it, or name a state. */
  function ProtectionOf(code: int, value: U32): (int, Protection) {
    if code == 0xFF then (-Serial.ENOTSUP, Unknown)
    else if code != 0 then (code, Unknown)
    else if value > 2 then (-Serial.EIO, Unknown)
    else (0, if value == 0 then Unlocked else if value == 1 then Locked else Unknown)
  }

  ghost predicate ProtectionTold(talk: seq<Dialogue>, chip: Chip, target: Target, errorFirst: bool, ret: int, p: Protection) {
    if Protects(chip, target) then
      Asks(talk, CMD_GET_FLASH_PROTECTION, []) && (ret, p) == ProtectionOf(talk[0].Code(errorFirst), talk[0].Value())
    else talk == [] && (ret, p) == (-Serial.ENOTSUP, Unknown)
  }

  /** cskburn_serial_get_flash_protection: a loader that does not know the command counts as not supporting it. */
  method GetFlashProtection(host: Host, target: Target) returns (ret: int, protection: Protection)
    requires host.Valid()
    modifies host.wire, host.req, host.res
    ensures host.Valid() && Asked(host.wire)
    ensures if Protects(host.chip, target) then host.wire.Spoke(Request(CMD_GET_FLASH_PROTECTION, 0, []))
            else unchanged(host.wire)
    ensures ProtectionTold(host.wire.Talk(), host.chip, target, host.ErrorFirst(), ret, protection)
  {
    hide Dialogue.Code, Dialogue.Value, Request;
    protection := Unknown;
    if !target.ToFlash? || !SupportsFlashLock(host.chip) {
      return -Serial.ENOTSUP, Unknown;
    }
    var value;
    ret, value := Ask(host, CMD_GET_FLASH_PROTECTION, []);
    if ret == 0xFF {
      return -Serial.ENOTSUP, Unknown;
    }
    if ret != 0 {
      return;
    }
    if value > 2 {
      return -Serial.EIO, Unknown;
    }
    protection := if value == 0 then Unlocked else if value == 1 then Locked else Unknown;
  }

  function IndexRequest(index: U32): seq<Byte> { Request(CMD_SET_FLASH_INDEX, 0, LittleEndian(index, 4)) }

  ghost predicate IndexTold(talk: seq<Dialogue>, chip: Chip, index: U32, errorFirst: bool, ret: int) {
    if SupportsFlashIndex(chip) then
      Asks(talk, CMD_SET_FLASH_INDEX, LittleEndian(index, 4)) && ret == talk[0].Code(errorFirst)
    else talk == [] && ret == -Serial.ENOTSUP
  }

  /** cskburn_serial_set_flash_index: the code of the answer is passed on as it is. */
  method SetFlashIndex(host: Host, index: U32) returns (ret: int)
    requires host.Valid()
    modifies host.wire, host.req, host.res
    ensures host.Valid() && Asked(host.wire)
    ensures if SupportsFlashIndex(host.chip) then host.wire.Spoke(IndexRequest(index)) else unchanged(host.wire)
    ensures IndexTold(host.wire.Talk(), host.chip, index, host.ErrorFirst(), ret)
  {
    hide Dialogue.Code, Request;
    if !SupportsFlashIndex(host.chip) {
      return -Serial.ENOTSUP;
    }
    var value;
    ret, value := Ask(host, CMD_SET_FLASH_INDEX, LittleEndian(index, 4));
  }

  // ---- Digests ----

  function Md5Op(target: Target): (op: Byte)
    ensures IsHarmless(op) && IsOpcode(op)
  {
    match target
    case ToFlash => CMD_SPI_FLASH_MD5
    case ToNand => CMD_NAND_MD5
    case ToEmmc => CMD_EMMC_MD5
    case ToRam => CMD_SYNC
  }

  function Md5Body(addr: U32, size: U32): (b: seq<Byte>)
    ensures |b| == 16
  {
    RangeBody(addr, size) + LittleEndian(0, 8)
  }

  /** The digest that the device reports for a range. */
  function Md5Reply(e: Exchange, target: Target, errorFirst: bool): (int, seq<Byte>)
    requires GoodEvents(e.events)
  {
    QueryOf(e, Md5Op(target), MD5_LEN, MD5_LEN, false, errorFirst)
  }

  /** A device that computes the digests it reports from what it holds. */
  ghost predicate Digests(script: Script, errorFirst: bool)
    requires GoodScript(script)
  {
    forall t: nat, d: Device, request: seq<Byte>, target: Target, addr: U32, size: U32 ::
      !target.ToRam? && AsksRange(request, Md5Op(target), addr, size) && addr as int + size <= |d.store.bytes| ==>
        var q := Md5Reply(script(t, d, request), target, errorFirst);
        q.0 == 0 ==> q.1 == Md5Spec.Digest(d.store.bytes[addr..addr as int + size])
  }

  ghost predicate DigestTold(talk: seq<Dialogue>, target: Target, addr: U32, size: U32, errorFirst: bool, ret: int,
      md5: seq<Byte>)
  {
    && Asks(talk, Md5Op(target), Md5Body(addr, size))
    && ret == Mapped(talk[0].Data(MD5_LEN, false, errorFirst).0, ERR_VERIFY_READ_FAILED)
    && md5 == talk[0].Data(MD5_LEN, false, errorFirst).1
  }

  /** Targets without digests. */
  predicate NoDigest(chip: Chip, target: Target) { target.ToRam? || (target.ToEmmc? && !SupportsEmmc(chip)) }

  /** What asking for a digest says and returns. */
  ghost predicate VerifyTold(talk: seq<Dialogue>, chip: Chip, target: Target, addr: U32, size: U32, errorFirst: bool,
      ret: int, md5: seq<Byte>)
  {
    if NoDigest(chip, target) then talk == [] && (ret, md5) == (-Serial.EINVAL, [])
    else DigestTold(talk, target, addr, size, errorFirst, ret, md5)
  }

  /** The digest command of a target. */
  method FetchDigest(host: Host, target: Target, addr: U32, size: U32) returns (ret: int, md5: seq<Byte>)
    requires host.Valid() && !target.ToRam?
    modifies host.wire, host.req, host.res
    ensures host.Valid() && Asked(host.wire)
    ensures ret == 0 && Digests(host.wire.script, host.ErrorFirst())
            && addr as int + size <= |host.wire.device.store.bytes| ==>
              md5 == Md5Spec.Digest(host.wire.device.store.bytes[addr..addr as int + size])
    ensures host.wire.Spoke(Request(Md5Op(target), 0, Md5Body(addr, size)))
    ensures DigestTold(host.wire.Talk(), target, addr, size, host.ErrorFirst(), ret, md5)
  {
    hide QueryOf, Request, Md5Spec.Digest, AsksRange;
    RangeAsked(Md5Op(target), addr, size, LittleEndian(0, 8));
    ghost var e := host.wire.Next(Request(Md5Op(target), 0, Md5Body(addr, size)));
    ghost var q := Md5Reply(e, target, host.ErrorFirst());
    DialogueIs(e, Md5Op(target), 0, Md5Body(addr, size), host.ErrorFirst());
    ret, md5 := AskData(host, Md5Op(target), Md5Body(addr, size), MD5_LEN, false);
    assert (ret, md5) == q;
    ret := Mapped(ret, ERR_VERIFY_READ_FAILED);
  }

  /** cskburn_serial_verify */
  method SerialVerify(host: Host, target: Target, addr: U32, size: U32) returns (ret: int, md5: seq<Byte>)
    requires host.Valid()
    modifies host.wire, host.req, host.res
    ensures host.Valid() && Asked(host.wire)
    ensures ret == 0 && Digests(host.wire.script, host.ErrorFirst())
            && addr as int + size <= |host.wire.device.store.bytes| ==>
              md5 == Md5Spec.Digest(host.wire.device.store.bytes[addr..addr as int + size])
    ensures NoDigest(host.chip, target) ==> unchanged(host.wire)
    ensures VerifyTold(host.wire.Talk(), host.chip, target, addr, size, host.ErrorFirst(), ret, md5)
  {
    hide Md5Spec.Digest, Digests, DigestTold;
    md5 := [];
    if target.ToRam? || (target.ToEmmc? && !SupportsEmmc(host.chip)) {
      return -Serial.EINVAL, [];
    }
    ret, md5 := FetchDigest(host, target, addr, size);
  }

  // ---- What the device says about itself ----

  ghost predicate ChipIdTold(talk: seq<Dialogue>, errorFirst: bool, ret: int, id: seq<Byte>) {
    && Asks(talk, CMD_READ_CHIP_ID, [])
    && ret == Mapped(talk[0].Data(8, false, errorFirst).0, ERR_CHIP_ID_READ_FAILED)
    && id == talk[0].Data(8, false, errorFirst).1
  }

  /** cskburn_serial_read_chip_id */
  method ReadChipId(host: Host) returns (ret: int, id: seq<Byte>)
    requires host.Valid()
    modifies host.wire, host.req, host.res
    ensures host.Valid() && Asked(host.wire) && (ret == 0 ==> |id| == 8)
    ensures host.wire.Spoke(Request(CMD_READ_CHIP_ID, 0, []))
    ensures ChipIdTold(host.wire.Talk(), host.ErrorFirst(), ret, id)
  {
    hide Request, Dialogue.Data;
    ret, id := AskData(host, CMD_READ_CHIP_ID, [], 8, false);
    ret := Mapped(ret, ERR_CHIP_ID_READ_FAILED);
  }

  /** The capacity that a flash id declares; 0 for an id that no flash has. */
  function IdCapacity(id: U32): (size: int)
    ensures size != 0 ==> exists k :: 1 <= k <= 31 && size == Pow2(k)
  {
    var k := id / 0x1_0000 % 0x100;
    if id % 0x100_0000 == 0 || id % 0x100_0000 == 0xFF_FFFF || k == 0 || k > 31 then 0 else Pow2(k)
  }

  /** The third byte of an id is the binary logarithm of the capacity, unless nothing is connected. */
  lemma CapacityOfId(maker: Byte, kind: Byte, k: Byte, more: Byte)
    ensures IdCapacity(maker as int + 0x100 * kind as int + 0x1_0000 * k as int + 0x100_0000 * more as int)
         == if k == 0 || k > 31 then 0 else Pow2(k)
  {
    hide Pow2;
    IdParts(maker as int + 0x100 * kind as int, k as int, more);
  }

  lemma IdParts(low: int, k: int, more: int)
    requires 0 <= low < 0x1_0000 && 0 <= k < 0x100
    ensures var id := low + 0x1_0000 * k + 0x100_0000 * more;
      id / 0x1_0000 % 0x100 == k && id % 0x100_0000 == low + 0x1_0000 * k
  {
    var id := low + 0x1_0000 * k + 0x100_0000 * more;
    assert id == low + 0x1_0000 * (k + 0x100 * more);
    assert id / 0x1_0000 == k + 0x100 * more;
  }

  /** The capacity of the flash, unless the id cannot be read or no flash has it. */
  function InfoOf(code: int, id: U32): (int, int) {
    if code != 0 then (Mapped(code, ERR_FLASH_ID_READ_FAILED), 0)
    else if IdCapacity(id) == 0 then (-ERR_FLASH_NOT_DETECTED, 0)
    else (0, IdCapacity(id))
  }

  ghost predicate InfoTold(talk: seq<Dialogue>, errorFirst: bool, ret: int, size: int) {
    Asks(talk, CMD_READ_FLASH_ID, []) && (ret, size) == InfoOf(talk[0].Code(errorFirst), talk[0].Value())
  }

  /** cskburn_serial_get_flash_info */
  method GetFlashInfo(host: Host) returns (ret: int, size: int)
    requires host.Valid()
    modifies host.wire, host.req, host.res
    ensures host.Valid() && Asked(host.wire)
    ensures ret == 0 ==> exists k :: 1 <= k <= 31 && size == Pow2(k)
    ensures host.wire.Spoke(Request(CMD_READ_FLASH_ID, 0, []))
    ensures InfoTold(host.wire.Talk(), host.ErrorFirst(), ret, size)
  {
    hide Dialogue.Code, Dialogue.Value, Request, Pow2;
    var id;
    size := 0;
    ret, id := Ask(host, CMD_READ_FLASH_ID, []);
    if ret != 0 {
      return Mapped(ret, ERR_FLASH_ID_READ_FAILED), 0;
    }
    size := IdCapacity(id);
    if size == 0 {
      return -ERR_FLASH_NOT_DETECTED, 0;
    }
  }

  /** cskburn_flash_layout_t */
  datatype FlashMap = FlashMap(version: U32, capabilities: U32, count: U32, total: U32, sizes: seq<U32>)

  function Field(data: seq<Byte>, k: nat): U32
    requires 4 * k + 4 <= |data|
  {
    FromLittleEndianRange(data[4 * k..4 * k + 4]);
    Pow256Four();
    FromLittleEndian(data[4 * k..4 * k + 4])
  }

  function ParseFlashMap(data: seq<Byte>): (m: FlashMap)
    requires |data| == 32
    ensures |m.sizes| == 2
  {
    FlashMap(Field(data, 0), Field(data, 1), Field(data, 2), Field(data, 3), [Field(data, 6), Field(data, 7)])
  }

  /** The reply as the loader lays it out: four words, the ids of two flashes, and their sizes. */
  function MapBytes(m: FlashMap, id0: U32, id1: U32): (b: seq<Byte>)
    requires |m.sizes| == 2
    ensures |b| == 32
  {
    Words([m.version, m.capabilities, m.count, m.total]) + Words([id0, id1, m.sizes[0], m.sizes[1]])
  }

  function Words(w: seq<U32>): (b: seq<Byte>)
    ensures |b| == 4 * |w|
  {
    if w == [] then [] else Words(w[..|w| - 1]) + LittleEndian(w[|w| - 1], 4)
  }

  lemma {:induction false} WordAt(w: seq<U32>, k: nat)
    requires k < |w|
    ensures Words(w)[4 * k..4 * k + 4] == LittleEndian(w[k], 4)
    decreases |w|
  {
    var n := |w| - 1;
    if k < n {
      WordAt(w[..n], k);
      assert Words(w)[4 * k..4 * k + 4] == Words(w[..n])[4 * k..4 * k + 4];
    }
  }

  lemma FieldOf(b: seq<Byte>, k: nat, v: U32)
    requires 4 * k + 4 <= |b| && b[4 * k..4 * k + 4] == LittleEndian(v, 4)
    ensures Field(b, k) == v
  {
    Pow256Four();
    LittleEndianRoundTrip(v, 4);
  }

  /** The host reads each field where the loader puts it. */
  lemma MapRoundTrip(m: FlashMap, id0: U32, id1: U32)
    requires |m.sizes| == 2
    ensures ParseFlashMap(MapBytes(m, id0, id1)) == m
  {
    hide Words, Field;
    var low, high := [m.version, m.capabilities, m.count, m.total], [id0, id1, m.sizes[0], m.sizes[1]];
    var b := MapBytes(m, id0, id1);
    forall k | 0 <= k < 4 ensures b[4 * k..4 * k + 4] == LittleEndian(low[k], 4) {
      WordAt(low, k);
      assert b[4 * k..4 * k + 4] == Words(low)[4 * k..4 * k + 4];
    }
    forall k | 0 <= k < 4 ensures b[16 + 4 * k..16 + 4 * k + 4] == LittleEndian(high[k], 4) {
      WordAt(high, k);
      assert b[16 + 4 * k..16 + 4 * k + 4] == Words(high)[4 * k..4 * k + 4];
    }
    FieldOf(b, 0, low[0]);
    FieldOf(b, 1, low[1]);
    FieldOf(b, 2, low[2]);
    FieldOf(b, 3, low[3]);
    FieldOf(b, 6, high[2]);
    FieldOf(b, 7, high[3]);
    assert [m.sizes[0], m.sizes[1]] == m.sizes;
  }

  /** The first two words of what an eMMC or a NAND flash tells about itself. */
  lemma FirstFields(count: U32, size: U32, more: seq<Byte>)
    ensures var b := LittleEndian(count, 4) + LittleEndian(size, 4) + more; Field(b, 0) == count && Field(b, 1) == size
  {
    hide Field, LittleEndian;
    var b := LittleEndian(count, 4) + LittleEndian(size, 4) + more;
    assert b[4 * 0..4 * 0 + 4] == LittleEndian(count, 4) && b[4 * 1..4 * 1 + 4] == LittleEndian(size, 4);
    FieldOf(b, 0, count);
    FieldOf(b, 1, size);
  }

  const LAYOUT_VERSION: U32 := 1
  const LAYOUT_MAX_DEVICES: U32 := 2

  predicate LogicalAddressing(m: FlashMap) { m.capabilities % 2 == 1 }
  predicate StreamReading(m: FlashMap) { m.capabilities / 2 % 2 == 1 }

  function SumOf(sizes: seq<U32>): nat { if sizes == [] then 0 else SumOf(sizes[..|sizes| - 1]) + sizes[|sizes| - 1] }

  /** What the library lets pass: one or two flashes of nonzero size that fill the total. */
  predicate SaneMap(m: FlashMap) {
    && m.version == LAYOUT_VERSION && LogicalAddressing(m)
    && 1 <= m.count <= LAYOUT_MAX_DEVICES && |m.sizes| == LAYOUT_MAX_DEVICES
    && (forall i :: 0 <= i < m.count ==> m.sizes[i] != 0)
    && SumOf(m.sizes[..m.count]) == m.total
  }

  /** The code for a reply: 0 exactly for a layout that is let pass. */
  function MapCode(code: int, data: seq<Byte>): int
    requires code == 0 ==> |data| == 32
  {
    if code != 0 then code else if SaneMap(ParseFlashMap(data)) then 0 else -Serial.EIO
  }

  ghost predicate MapTold(talk: seq<Dialogue>, chip: Chip, errorFirst: bool, ret: int, m: FlashMap) {
    if SupportsFlashLayout(chip) then
      && Asks(talk, CMD_GET_FLASH_LAYOUT, [])
      && var q := talk[0].Data(32, true, errorFirst);
      && ret == MapCode(q.0, q.1) && (q.0 == 0 ==> m == ParseFlashMap(q.1))
    else talk == [] && ret == -Serial.ENOTSUP
  }

  /** cskburn_serial_get_flash_layout */
  method GetFlashLayout(host: Host) returns (ret: int, m: FlashMap)
    requires host.Valid()
    modifies host.wire, host.req, host.res, host`readStream, host`layoutQueried
    ensures host.Valid() && Asked(host.wire) && host.loaderRunning == old(host.loaderRunning)
    ensures ret == 0 ==> SaneMap(m) && host.readStream == StreamReading(m)
    ensures SupportsFlashLayout(host.chip) ==> host.wire.Spoke(Request(CMD_GET_FLASH_LAYOUT, 0, []))
    ensures MapTold(host.wire.Talk(), host.chip, host.ErrorFirst(), ret, m)
    ensures ret != 0 && SupportsFlashLayout(host.chip) ==> !host.readStream
    ensures !SupportsFlashLayout(host.chip) ==> unchanged(host.wire) && unchanged(host)
  {
    hide Dialogue.Data, Request, Field;
    m := FlashMap(0, 0, 0, 0, [0, 0]);
    if !SupportsFlashLayout(host.chip) {
      return -Serial.ENOTSUP, m;
    }
    host.layoutQueried := true;
    host.readStream := false;
    var data;
    ret, data := AskData(host, CMD_GET_FLASH_LAYOUT, [], 32, true);
    if ret != 0 {
      return;
    }
    m := ParseFlashMap(data);
    if m.version != LAYOUT_VERSION || !LogicalAddressing(m) || m.count == 0 || m.count > LAYOUT_MAX_DEVICES {
      return -Serial.EIO, m;
    }
    var total: nat := 0;
    for i := 0 to m.count
      invariant total == SumOf(m.sizes[..i]) && forall k :: 0 <= k < i ==> m.sizes[k] != 0
      invariant host.Valid() && Asked(host.wire) && !host.readStream
    {
      if m.sizes[i] == 0 {
        return -Serial.EIO, m;
      }
      assert m.sizes[..i + 1][..i] == m.sizes[..i];
      total := total + m.sizes[i];
    }
    if total != m.total {
      return -Serial.EIO, m;
    }
    host.readStream := StreamReading(m);
  }

  ghost predicate NandTold(talk: seq<Dialogue>, config: seq<Byte>, errorFirst: bool, ret: int, size: int) {
    && Asks(talk, CMD_NAND_INIT, config)
    && var q := talk[0].Data(8, true, errorFirst);
    && ret == Mapped(q.0, ERR_NAND_INIT_FAILED)
    && size == if q.0 == 0 then Wrap(Field(q.1, 0) * Field(q.1, 1)) else 0
  }

  /** cskburn_serial_init_nand: the product is a uint32_t. */
  method InitNand(host: Host, config: seq<Byte>) returns (ret: int, size: int)
    requires host.Valid() && |config| == 8
    modifies host.wire, host.req, host.res
    ensures host.Valid() && Asked(host.wire)
    ensures host.wire.Spoke(Request(CMD_NAND_INIT, 0, config))
    ensures NandTold(host.wire.Talk(), config, host.ErrorFirst(), ret, size)
  {
    hide Request, Field, Dialogue.Data;
    var data;
    size := 0;
    ret, data := AskData(host, CMD_NAND_INIT, config, 8, true);
    if ret != 0 {
      return Mapped(ret, ERR_NAND_INIT_FAILED), 0;
    }
    size := Wrap(Field(data, 0) * Field(data, 1));
  }

  ghost predicate EmmcTold(talk: seq<Dialogue>, chip: Chip, errorFirst: bool, ret: int, size: int) {
    if SupportsEmmc(chip) then
      && Asks(talk, CMD_EMMC_READ_CARD_INFO, [])
      && var q := talk[0].Data(16, false, errorFirst);
      && ret == Mapped(q.0, ERR_EMMC_INIT_FAILED)
      && size == if q.0 == 0 then Field(q.1, 0) * Field(q.1, 1) else 0
    else talk == [] && (ret, size) == (-Serial.ENOTSUP, 0)
  }

  /** cskburn_serial_get_emmc_info; the capacity is a 64-bit product. */
  method GetEmmcInfo(host: Host) returns (ret: int, size: int)
    requires host.Valid()
    modifies host.wire, host.req, host.res
    ensures host.Valid() && Asked(host.wire)
    ensures if SupportsEmmc(host.chip) then host.wire.Spoke(Request(CMD_EMMC_READ_CARD_INFO, 0, [])) else unchanged(host.wire)
    ensures EmmcTold(host.wire.Talk(), host.chip, host.ErrorFirst(), ret, size)
  {
    hide Request, Field, Dialogue.Data;
    var data;
    size := 0;
    if !SupportsEmmc(host.chip) {
      return -Serial.ENOTSUP, 0;
    }
    ret, data := AskData(host, CMD_EMMC_READ_CARD_INFO, [], 16, false);
    if ret != 0 {
      return Mapped(ret, ERR_EMMC_INIT_FAILED), 0;
    }
    size := Field(data, 0) * Field(data, 1);
  }
}
