/** The burn session: detection, validation, reading back, erasing, writing, locking, and the clean-up on every exit. */
module SerialBurn {
  import opened Bytes
  import opened FlashMemory
  import opened FlashImage
  import opened Partitions
  import opened Protocol
  import opened ReadPartsHex
  import opened MemIo
  import opened Cmd
  import opened Core
  import opened Api
  import opened Bounds
  import opened SessionPlan
  import Enter
  import Handshake
  import Md5
  import Md5Spec
  import Reading
  import Serial
  import Utils

  class Session {
    const host: Host
    const o: Options
    var burnerReady: bool
    var flashLocked: bool
    var flashIndexSelected: bool
    var flashSize: int
    var flashMap: FlashMap
    var logical: bool
    var dual: bool
    ghost var trace: seq<Step>
    /** The first call, which connects. */
    ghost var first: Step
    /** What had been said before the session. */
    ghost const start: seq<Dialogue>
    /** Whether a range or a file has been refused. */
    ghost var refused: bool

    constructor (host: Host, o: Options)
      requires host.Valid() && |o.nand| == 8
      ensures Valid() && this.host == host && this.o == o && trace == [] && !refused && start == host.wire.log
      ensures !burnerReady && !flashLocked && !flashIndexSelected && !logical && !dual && flashSize == 0
    {
      this.host, this.o := host, o;
      burnerReady, flashLocked, flashIndexSelected, logical, dual := false, false, false, false, false;
      flashSize, flashMap, trace, refused, first := 0, FlashMap(0, 0, 0, 0, [0, 0]), [], false, Step(DoConnect, 0, []);
      start := host.wire.log;
      KeptNone(host.wire.log, o, host.chip, false, FlashMap(0, 0, 0, 0, [0, 0]));
    }

    ghost function Frame(): set<object> { {this, host, host.wire, host.req, host.res} }

    ghost predicate Valid()
      reads this, host, host.wire
    {
      && host.Valid() && |o.nand| == 8 && flashMap.count <= |flashMap.sizes|
      && (logical ==> SaneMap(flashMap) && flashSize == flashMap.total && dual == (flashMap.count > 1))
      && (!logical ==> !dual) && (logical ==> o.target.ToFlash? && host.chip == Arcs)
      && (burnerReady ==> host.loaderRunning && trace != [])
      && Begins(trace, first)
      && Kept(start, trace, host.wire.log, o, host.chip, logical, flashMap)
    }

    ghost function Calls(): seq<Call>
      reads this
    {
      CallsOf(trace)
    }

    /** The device shows what it holds, in blocks and as a stream. */
    ghost predicate Shows()
      requires host.Valid()
      reads host, host.wire
    {
      && Reading.ShowsBlocks(host.wire.script, host.ErrorFirst())
      && Reading.ShowsStream(host.wire.script, host.ErrorFirst())
    }

    /** No call has failed, and no range or file has been refused. */
    ghost predicate Fine()
      reads this
    {
      AllGood(trace, o, host.chip) && !refused
    }

    /** What is burned: the storage, or the RAM. */
    ghost function Memory(): Flash
      reads host.wire
    {
      BankOf(host.wire.device, o.target.ToRam?).bytes
    }

    ghost function MediumHere(): Medium
      reads host.wire
    {
      MediumOf(host.wire.device, o.target.ToRam?)
    }

    // ---- What the device has told ----

    ghost predicate Knows()
      reads this
    {
      Found(trace, o, host.chip, logical, dual, flashSize, flashMap)
    }

    ghost predicate Heeds()
      reads this
    {
      Minded(trace, host.chip, logical, flashMap)
    }

    ghost predicate WasLocked()
      reads this
    {
      SaidLocked(trace, o, host.chip)
    }

    ghost predicate IsFree()
      reads this
    {
      Freed(trace, o, host.chip)
    }

    ghost predicate Alone()
      reads this
    {
      Untouched(trace)
    }

    /** What is to be done damages the flash. */
    predicate Damages(parts: nat) { o.target.ToFlash? && (o.eraseAll || o.erases != [] || parts > 0) }

    /** Everything went well so far, and there is a connection. */
    ghost predicate Going()
      reads this, host, host.wire
    {
      Valid() && Fine() && burnerReady
    }

    /** The code is that of the first step that is not good. */
    ghost predicate Blamed(ret: int)
      reads this
    {
      Blames(trace, o, host.chip, ret)
    }

    /** What has been learned is still known. */
    twostate predicate Remembers()
      reads this
    {
      && (old(Knows()) ==> Knows()) && (old(Heeds()) ==> Heeds()) && WasLocked() == old(WasLocked())
      && (old(Alone()) ==> Alone())
    }

    /** What a call leaves of what has been learned. */
    twostate predicate Recalls(c: Call, ret: int)
      reads this
    {
      && (old(Knows()) ==> Knows())
      && (!(c.GetMap? && ret == 0) ==> (old(Heeds()) ==> Heeds()))
      && (!c.ProbeProtection? ==> WasLocked() == old(WasLocked()) && (old(IsFree()) ==> IsFree()))
      && (!c.ProbeProtection? && !c.Unlock? ==> (old(Alone()) ==> Alone()))
      && (forall r: int :: old(Blamed(r)) ==> Blamed(r))
    }

    /** A call enters the log of the session, with what has been said since `before`. */
    ghost method Log(c: Call, ret: int, before: seq<Dialogue>)
      requires c.SelectFlash? ==> c.index == AUTOMATIC
      requires Kept(start, trace, before, o, host.chip, logical, flashMap) && before <= host.wire.log
      requires Told(Step(c, ret, host.wire.log[|before|..]), o, host.chip) && (c.DoConnect? ==> trace == [])
      requires Begins(trace, first) && (trace == [] ==> first == Step(c, ret, host.wire.log[|before|..]))
      requires c.Erase? ==> EraseInside(c, logical, flashMap)
      requires Damaging(c) && o.target.ToFlash? ==> IsFree()
      modifies `trace
      ensures trace == old(trace) + [Step(c, ret, host.wire.log[|before|..])] && Calls() == old(Calls()) + [c]
      ensures Begins(trace, first) && Recalls(c, ret)
      ensures Kept(start, trace, host.wire.log, o, host.chip, logical, flashMap)
      ensures Fine() <==> old(Fine()) && Good(trace[|trace| - 1], o, host.chip)
      ensures old(Fine()) && !Good(trace[|trace| - 1], o, host.chip) ==> Blamed(StepCode(trace[|trace| - 1]))
      ensures Quiet(trace) <==> old(Quiet(trace)) && !Damaging(c)
    {
      hide Kept, Begins, Told, Found, Minded, SaidLocked, Freed, Untouched, AllGood, Quiet, Good, CallsOf, TellsLock,
           Blames;
      ghost var s := Step(c, ret, host.wire.log[|before|..]);
      assert before + s.talk == host.wire.log;
      LogGrows(trace, s, o, host.chip);
      BeginsNext(trace, s, first);
      Recall(s);
      Accuse(s);
      CallsNext(trace, s);
      KeptNext(start, trace, before, o, host.chip, logical, flashMap, s);
      trace := trace + [s];
    }

    lemma Accuse(s: Step)
      ensures AllGood(trace, o, host.chip) && !Good(s, o, host.chip) ==> Blames(trace + [s], o, host.chip, StepCode(s))
      ensures forall r: int :: Blames(trace, o, host.chip, r) ==> Blames(trace + [s], o, host.chip, r)
    {
      hide AllGood, Good, Blames;
      if AllGood(trace, o, host.chip) && !Good(s, o, host.chip) {
        BlamesNew(trace, s, o, host.chip);
      }
      forall r: int | Blames(trace, o, host.chip, r) ensures Blames(trace + [s], o, host.chip, r) {
        BlamesGrows(trace, s, o, host.chip, r);
      }
    }

    lemma Recall(s: Step)
      ensures Found(trace, o, host.chip, logical, dual, flashSize, flashMap) ==>
                Found(trace + [s], o, host.chip, logical, dual, flashSize, flashMap)
      ensures Minded(trace, host.chip, logical, flashMap) && !(s.call.GetMap? && s.ret == 0) ==>
                Minded(trace + [s], host.chip, logical, flashMap)
      ensures !s.call.ProbeProtection? ==> (SaidLocked(trace + [s], o, host.chip) <==> SaidLocked(trace, o, host.chip))
      ensures Freed(trace, o, host.chip) && !s.call.ProbeProtection? ==> Freed(trace + [s], o, host.chip)
      ensures Untouched(trace) && !s.call.ProbeProtection? && !s.call.Unlock? ==> Untouched(trace + [s])
    {
      hide Found, Minded, SaidLocked, Freed, Untouched, TellsLock;
      if Found(trace, o, host.chip, logical, dual, flashSize, flashMap) {
        FoundGrows(trace, s, o, host.chip, logical, dual, flashSize, flashMap);
      }
      if Minded(trace, host.chip, logical, flashMap) && !(s.call.GetMap? && s.ret == 0) {
        MindedGrows(trace, s, host.chip, logical, flashMap);
      }
      LockGrows(trace, s, o, host.chip);
      UntouchedGrows(trace, s);
      if Freed(trace, o, host.chip) && !s.call.ProbeProtection? {
        FreedGrows(trace, s, o, host.chip);
      }
    }

    /** One call has been logged; the rest of the session is as it was. */
    twostate predicate Did(c: Call, ret: int)
      reads this, host, host.wire
    {
      && old(Valid()) && Valid() && host.wire.Went() && trace == old(trace) + [Step(c, ret, host.wire.Talk())]
      && Calls() == old(Calls()) + [c]
      && (Fine() <==> old(Fine()) && Good(Step(c, ret, host.wire.Talk()), o, host.chip))
      && (old(Fine()) && !Fine() ==> Blamed(StepCode(Step(c, ret, host.wire.Talk()))))
      && Recalls(c, ret)
      && (Quiet(trace) <==> old(Quiet(trace)) && !Damaging(c))
      && refused == old(refused) && burnerReady == old(burnerReady) && flashLocked == old(flashLocked)
      && flashIndexSelected == old(flashIndexSelected)
      && host.loaderRunning == old(host.loaderRunning)
    }

    /** The same, and the call left the device as it was. */
    twostate predicate DidAsk(c: Call, ret: int)
      reads this, host, host.wire
    {
      Did(c, ret) && host.wire.device == old(host.wire.device)
    }

    // ---- Calls, with their log ----

    method CallChipId() returns (ret: int)
      requires Valid() && burnerReady
      modifies `trace, host.wire, host.req, host.res
      ensures DidAsk(GetChipId, ret)
    {
      hide ChipIdTold, Told, Kept, Begins, Knows, Heeds, WasLocked, IsFree, Alone, Blamed, CallsOf, AllGood, Quiet,
           Good, EraseInside;
      ghost var before := host.wire.log;
      var id;
      ret, id := ReadChipId(host);
      ghost var talk := host.wire.log[|before|..];
      ChipIdIsTold(talk, ret, id, o, host.chip);
      Log(GetChipId, ret, before);
    }

    method CallMap() returns (ret: int, m: FlashMap)
      requires Valid() && burnerReady
      modifies `trace, host.wire, host.req, host.res, host`readStream, host`layoutQueried
      ensures DidAsk(GetMap, ret) && (ret == 0 ==> SaneMap(m) && m.count <= |m.sizes|)
      ensures MapTold(host.wire.Talk(), host.chip, host.chip == Arcs, ret, m)
    {
      hide MapTold, Told, Kept, Begins, Knows, Heeds, WasLocked, IsFree, Alone, Blamed, CallsOf, AllGood, Quiet, Good,
           EraseInside;
      ghost var before := host.wire.log;
      ret, m := GetFlashLayout(host);
      ghost var talk := host.wire.log[|before|..];
      MapIsTold(talk, ret, m, o, host.chip);
      Log(GetMap, ret, before);
    }

    method CallInfo() returns (ret: int, size: int)
      requires Valid() && burnerReady
      modifies `trace, host.wire, host.req, host.res
      ensures DidAsk(GetInfo, ret) && InfoTold(host.wire.Talk(), host.chip == Arcs, ret, size)
      ensures ret == 0 ==> exists k :: 1 <= k <= 31 && size == Utils.Pow2(k)
    {
      hide InfoTold, Told, Kept, Begins, Knows, Heeds, WasLocked, IsFree, Alone, Blamed, CallsOf, AllGood, Quiet,
           Good, EraseInside, Utils.Pow2, SaneMap;
      ghost var before := host.wire.log;
      ret, size := GetFlashInfo(host);
      ghost var talk := host.wire.log[|before|..];
      InfoIsTold(talk, ret, size, o, host.chip);
      Log(GetInfo, ret, before);
    }

    method CallNand() returns (ret: int, size: int)
      requires Valid() && burnerReady
      modifies `trace, host.wire, host.req, host.res
      ensures DidAsk(NandInit, ret) && NandTold(host.wire.Talk(), o.nand, host.chip == Arcs, ret, size)
    {
      hide NandTold, Told, Kept, Begins, Knows, Heeds, WasLocked, IsFree, Alone, Blamed, CallsOf, AllGood, Quiet,
           Good, EraseInside, SaneMap;
      ghost var before := host.wire.log;
      ret, size := InitNand(host, o.nand);
      ghost var talk := host.wire.log[|before|..];
      NandIsTold(talk, ret, size, o, host.chip);
      Log(NandInit, ret, before);
    }

    method CallEmmc() returns (ret: int, size: int)
      requires Valid() && burnerReady
      modifies `trace, host.wire, host.req, host.res
      ensures DidAsk(EmmcInfo, ret) && EmmcTold(host.wire.Talk(), host.chip, host.chip == Arcs, ret, size)
    {
      hide EmmcTold, Told, Kept, Begins, Knows, Heeds, WasLocked, IsFree, Alone, Blamed, CallsOf, AllGood, Quiet,
           Good, EraseInside, SaneMap;
      ghost var before := host.wire.log;
      ret, size := GetEmmcInfo(host);
      ghost var talk := host.wire.log[|before|..];
      EmmcIsTold(talk, ret, size, o, host.chip);
      Log(EmmcInfo, ret, before);
    }

    method CallUnlock() returns (ret: int)
      requires Valid() && burnerReady
      modifies `trace, host.wire, host.req, host.res
      ensures DidAsk(Unlock, ret)
    {
      hide CommandTold, Told, Kept, Begins, Knows, Heeds, WasLocked, IsFree, Alone, Blamed, CallsOf, AllGood, Quiet,
           Good, EraseInside, SaneMap, CheckOf;
      ghost var before := host.wire.log;
      ret := SerialUnlock(host, o.target);
      ghost var talk := host.wire.log[|before|..];
      UnlockIsTold(talk, ret, o, host.chip);
      Log(Unlock, ret, before);
    }

    method CallProtection(c: Call) returns (ret: int, p: Protection)
      requires Valid() && burnerReady && (c.GetProtection? || c.ProbeProtection?)
      modifies `trace, host.wire, host.req, host.res
      ensures DidAsk(c, ret) && ProtectionTold(host.wire.Talk(), host.chip, o.target, host.chip == Arcs, ret, p)
    {
      hide ProtectionTold, Told, Kept, Begins, Knows, Heeds, WasLocked, IsFree, Alone, Blamed, CallsOf, AllGood,
           Quiet, Good, EraseInside, SaneMap, CheckOf;
      ghost var before := host.wire.log;
      ret, p := GetFlashProtection(host, o.target);
      ghost var talk := host.wire.log[|before|..];
      ProtectionIsTold(c, talk, ret, p, o, host.chip);
      Log(c, ret, before);
    }

    method CallLock() returns (ret: int)
      requires Valid() && burnerReady
      modifies `trace, host.wire, host.req, host.res
      ensures DidAsk(Lock, ret)
    {
      hide CommandTold, Told, Kept, Begins, Knows, Heeds, WasLocked, IsFree, Alone, Blamed, CallsOf, AllGood, Quiet,
           Good, EraseInside, SaneMap, CheckOf;
      ghost var before := host.wire.log;
      ret := SerialLock(host, o.target);
      ghost var talk := host.wire.log[|before|..];
      LockIsTold(talk, ret, o, host.chip);
      Log(Lock, ret, before);
    }

    method CallSelect(index: U32) returns (ret: int)
      requires Valid() && burnerReady && index == AUTOMATIC
      modifies `trace, host.wire, host.req, host.res
      ensures DidAsk(SelectFlash(index), ret)
    {
      hide IndexTold, Told, Kept, Begins, Knows, Heeds, WasLocked, IsFree, Alone, Blamed, CallsOf, AllGood, Quiet,
           Good, EraseInside, SaneMap;
      ghost var before := host.wire.log;
      ret := SetFlashIndex(host, index);
      ghost var talk := host.wire.log[|before|..];
      SelectIsTold(talk, index, ret, o, host.chip);
      Log(SelectFlash(index), ret, before);
    }

    /** A digest is asked for, because of the command line or to compare it. */
    method CallVerify(a: Area, ghost c: Call) returns (ret: int, md5: seq<Byte>)
      requires Valid() && burnerReady && (c == Verify(a) || (c.Confirm? && c.area == a))
      modifies `trace, host.wire, host.req, host.res
      ensures DidAsk(c, ret) && (ret == 0 ==> md5 == Reading.DigestIn(host.wire.Talk(), a.size, host.chip == Arcs))
      ensures ret == 0 && Digests(host.wire.script, host.ErrorFirst())
              && a.addr as int + a.size <= |host.wire.device.store.bytes| ==>
                md5 == Md5Spec.Digest(host.wire.device.store.bytes[a.addr..a.addr as int + a.size])
    {
      hide Kept, Begins, Knows, Heeds, WasLocked, IsFree, Alone, Blamed, CallsOf, AllGood, Quiet, Good, Told,
           VerifyTold, EraseInside, SaneMap, Digests, Md5Spec.Digest, Reading.DigestIn;
      ghost var before := host.wire.log;
      ret, md5 := SerialVerify(host, o.target, a.addr, a.size);
      VerifyIsTold(host.wire.log[|before|..], c, a, ret, md5, o, host.chip);
      Log(c, ret, before);
    }

    /** The read itself. */
    method ReadAll(a: Area, file: Reading.Writer) returns (ret: int, md5: seq<Byte>, ghost n: nat)
      requires Valid() && burnerReady
      modifies host.wire, host.req, host.res, host`readStream, host`layoutQueried, file
      ensures host.Valid() && Asked(host.wire) && Told(Step(Read(a, file.written), ret, host.wire.Talk()), o, host.chip)
      ensures n <= a.size && (ret == 0 ==> n == a.size)
      ensures ret == 0 && o.verifyAll ==> md5 == Reading.DigestIn(host.wire.Talk(), a.size, host.chip == Arcs)
      ensures var memory := old(host.wire.device.store.bytes);
        Shows() && Reading.Lies(a.addr, a.size, memory) ==>
          Reading.Copied(old(file.written), file.written, memory, a.addr, n)
    {
      hide Kept, Begins, Told, SaneMap, Reading.ReadTold, Reading.ShowsBlocks, Reading.ShowsStream, Reading.Copied,
           Reading.DigestIn;
      ghost var before := host.wire.log;
      ret, md5, n := Reading.SerialRead(host, o.target, a.addr, a.size, file, o.verifyAll);
      ReadIsTold(host.wire.log[|before|..], a, file.written, old(host.layoutQueried), old(host.readStream), ret, md5, n, o,
                 host.chip);
    }

    method CallRead(a: Area, file: Reading.Writer) returns (ret: int, md5: seq<Byte>, ghost n: nat)
      requires Valid() && burnerReady
      modifies `trace, host.wire, host.req, host.res, host`readStream, host`layoutQueried, file
      ensures DidAsk(Read(a, file.written), ret) && n <= a.size && (ret == 0 ==> n == a.size)
      ensures ret == 0 && o.verifyAll ==> md5 == Reading.DigestIn(host.wire.Talk(), a.size, host.chip == Arcs)
      ensures var memory := old(host.wire.device.store.bytes);
        Shows() && Reading.Lies(a.addr, a.size, memory) ==>
          Reading.Copied(old(file.written), file.written, memory, a.addr, n)
    {
      hide Kept, Begins, Knows, Heeds, WasLocked, IsFree, Alone, Blamed, CallsOf, AllGood, Quiet, Good, Told,
           Reading.ReadTold, EraseInside, SaneMap, Reading.ShowsBlocks, Reading.ShowsStream, Reading.Copied,
           Reading.Lies, Reading.DigestIn;
      ghost var before := host.wire.log;
      ret, md5, n := ReadAll(a, file);
      Log(Read(a, file.written), ret, before);
    }

    /** What an erasing call leaves of the flash. */
    twostate predicate DidErase(c: Call, addr: int, size: int, ret: int)
      reads this, host, host.wire
    {
      && Did(c, ret)
      && (ret == 0 && Enter.HonestDevice(host.wire.script) ==>
            Memory() == FlashMemory.Erase(old(Memory()), addr, size))
    }

    method CallErase(addr: U32, size: U32) returns (ret: int)
      requires Valid() && burnerReady && EraseInside(Erase(addr, size), logical, flashMap)
      requires o.target.ToFlash? ==> IsFree()
      modifies `trace, host.wire, host.req, host.res
      ensures DidErase(Erase(addr, size), addr, size, ret)
      ensures o.target.ToFlash? && size != 0 && addr as int + size <= 0x1_0000_0000 ==> host.wire.t == old(host.wire.t) + 1
    {
      hide EraseTold, Told, Kept, Begins, Knows, Heeds, WasLocked, IsFree, Alone, Blamed, CallsOf, AllGood, Quiet,
           Good, EraseInside, SaneMap, Honest, FlashMemory.Erase;
      ghost var before := host.wire.log;
      ret := SerialErase(host, o.target, addr, size);
      ghost var talk := host.wire.log[|before|..];
      EraseIsTold(talk, addr, size, ret, o, host.chip);
      Log(Erase(addr, size), ret, before);
    }

    method CallEraseAll() returns (ret: int)
      requires Valid() && burnerReady && (o.target.ToFlash? ==> IsFree())
      modifies `trace, host.wire, host.req, host.res
      ensures DidErase(EraseAll, 0, |old(Memory())|, ret)
    {
      hide EraseAllTold, Told, Kept, Begins, Knows, Heeds, WasLocked, IsFree, Alone, Blamed, CallsOf, AllGood, Quiet,
           Good, EraseInside, SaneMap, Honest, FlashMemory.Erase;
      ghost var before := host.wire.log;
      ret := SerialEraseAll(host, o.target);
      ghost var talk := host.wire.log[|before|..];
      EraseAllIsTold(talk, ret, o, host.chip);
      Log(EraseAll, ret, before);
    }

    /** A reader that has been read out: it holds what it held, and its hook has seen all of it when all went well. */
    twostate predicate ReadOut(reader: MemReader, ret: int)
      reads host, reader, reader.buffer, reader.hook, if reader.hook == null then {} else {reader.hook.buffer}
    {
      && old(reader.Valid()) && reader.Valid() && reader.Contents() == old(reader.Contents())
      && reader.hook == old(reader.hook)
      && (reader.hook != null ==>
            && reader.hook.Valid() && Apart(host, reader)
            && (ret == 0 ==> reader.hook.absorbed == old(reader.hook.absorbed) + old(reader.Contents())))
    }

    /** The write itself. */
    method WriteAll(addr: U32, reader: MemReader, jump: U32) returns (ret: int)
      requires Valid() && burnerReady && reader.Valid() && reader.readOff == 0
      requires Apart(host, reader) && (reader.hook != null ==> reader.hook.Valid())
      modifies host.wire, host.req, host.res, reader`readOff, reader.hook
      modifies if reader.hook == null then {} else {reader.hook.buffer}
      ensures host.Valid() && host.wire.Went() && ReadOut(reader, ret)
      ensures Told(Step(Write(addr, old(reader.Contents()), jump), ret, host.wire.Talk()), o, host.chip)
      ensures ret == 0 && Enter.HonestDevice(host.wire.script) ==>
                Memory() == Put(MediumHere(), old(Memory()), addr, old(reader.Contents()))
    {
      hide Kept, Begins, Told, SaneMap, Honest, Put, Md5.Holds, Partly, WriteTold, Written, Laid;
      ghost var before := host.wire.log;
      WrittenBytes(host.wire.device, o.target.ToRam?, addr, reader.Contents());
      ghost var stored;
      ret, stored := SerialWrite(host, o.target, addr, reader, jump);
      WriteIsTold(host.wire.log[|before|..], addr, reader.Contents(), jump, ret, o, host.chip);
    }

    method CallWrite(addr: U32, reader: MemReader, jump: U32) returns (ret: int)
      requires Valid() && burnerReady && reader.Valid() && reader.readOff == 0 && (o.target.ToFlash? ==> IsFree())
      requires Apart(host, reader) && (reader.hook != null ==> reader.hook.Valid())
      modifies `trace, host.wire, host.req, host.res, reader`readOff, reader.hook
      modifies if reader.hook == null then {} else {reader.hook.buffer}
      ensures Did(Write(addr, old(reader.Contents()), jump), ret) && ReadOut(reader, ret)
      ensures ret == 0 && Enter.HonestDevice(host.wire.script) ==>
                Memory() == Put(MediumHere(), old(Memory()), addr, old(reader.Contents()))
    {
      hide Kept, Begins, Knows, Heeds, WasLocked, IsFree, Alone, Blamed, CallsOf, AllGood, Quiet, Good, Told,
           EraseInside, SaneMap, Put, Md5.Holds, Apart, Enter.HonestDevice, ReadOut;
      ghost var before := host.wire.log;
      ghost var c := reader.Contents();
      ret := WriteAll(addr, reader, jump);
      Log(Write(addr, c, jump), ret, before);
    }

    // ---- Detection ----

    /** Calls have been made that all went well if and only if ret is 0, and the device is as it was. */
    twostate predicate Asking(ret: int)
      reads this, host, host.wire
    {
      && Valid() && host.wire.Went() && host.wire.device == old(host.wire.device)
      && (ret == 0 <==> Fine()) && (ret != 0 ==> refused || Blamed(ret)) && Quiet(trace)
      && burnerReady == old(burnerReady) && flashLocked == old(flashLocked) && host.loaderRunning == old(host.loaderRunning)
      && (old(Heeds()) ==> Heeds()) && WasLocked() == old(WasLocked()) && first == old(first)
      && (old(IsFree()) ==> IsFree()) && (!o.unlock && old(Alone()) ==> Alone())
    }

    /** Before anything has been erased or written, with every call so far gone well, and before asking for locks. */
    ghost predicate Early()
      reads this, host, host.wire
    {
      Going() && Quiet(trace) && !WasLocked()
    }

    lemma SaneTotal(m: FlashMap)
      requires SaneMap(m)
      ensures m.total != 0
    {
      var sizes := m.sizes[..m.count];
      assert sizes[|sizes| - 1] != 0;
    }

    /** A layout that the library has let pass is checked once more, which it passes, and adopted. */
    method AdoptMap(m: FlashMap) returns (ret: int)
      requires Early() && !logical && !dual && !flashIndexSelected && o.target.ToFlash? && host.chip == Arcs
      requires SaneMap(m) && m.count <= |m.sizes|
      modifies `flashSize, `flashMap, `logical, `dual, `flashIndexSelected
      ensures Valid() && flashIndexSelected == dual && ret == 0 && logical && flashMap == m
    {
      hide SumOf, AllGood, Quiet, Kept, SaidLocked, Freed, Untouched;
      KeptQuiet(start, trace, host.wire.log, o, host.chip, logical, flashMap, true, m);
      SaneTotal(m);
      if m.version != LAYOUT_VERSION || !LogicalAddressing(m)
         || m.count == 0 || m.count > LAYOUT_MAX_DEVICES || m.total == 0 {
        return -ERR_FLASH_NOT_DETECTED;
      }
      flashSize, flashMap, logical := m.total, m, true;
      dual := m.count > 1;
      flashIndexSelected := dual;
      ret := 0;
    }

    /** Without a layout, the size comes from the id of the flash. */
    method Measure() returns (ret: int)
      requires Early() && !logical && o.target.ToFlash?
      modifies `trace, `flashSize, host.wire, host.req, host.res
      ensures DidAsk(GetInfo, ret) && (ret == 0 ==> Knows())
    {
      hide Kept, Begins, Utils.Pow2, SaneMap, CallsOf, AllGood, Quiet, InfoTold, Found, Minded, SaidLocked, Freed,
           Untouched;
      ghost var was := trace;
      var size;
      ret, size := CallInfo();
      if ret == 0 {
        flashSize := size;
        FoundSize(was, trace[|was|], o, host.chip, size, flashMap);
      }
    }

    method DetectFlash() returns (ret: int)
      requires Early() && !logical && !dual && !flashIndexSelected && o.target.ToFlash?
      modifies this, host.wire, host.req, host.res, host`readStream, host`layoutQueried
      ensures Asking(ret) && flashIndexSelected == dual && refused == old(refused)
      ensures ret == 0 ==> Calls() == old(Calls()) + DetectCalls(o, host.chip, logical)
      ensures ret == 0 ==> Knows()
    {
      hide Kept, Begins, Utils.Pow2, SaneMap, CallsOf, AllGood, Quiet, MapTold, InfoTold, Found, Minded, SaidLocked,
           Freed, Untouched;
      ghost var was, before := trace, flashMap;
      var m := FlashMap(0, 0, 0, 0, [0, 0]);
      var known := -Serial.ENOTSUP;
      if host.chip == Arcs {
        known, m := CallMap();
      }
      if known != 0 && !Reading.LayoutTolerated(known) {
        return known;
      }
      if known == 0 {
        ret := AdoptMap(m);
        FoundMap(was, trace[|was|], o, host.chip, m);
        if Minded(was, host.chip, false, before) {
          MindedMap(was, trace[|was|], host.chip, before, m);
        }
        return;
      }
      ret := Measure();
    }

    method Detect() returns (ret: int)
      requires Early() && !logical && !dual && !flashIndexSelected
      modifies this, host.wire, host.req, host.res, host`readStream, host`layoutQueried
      ensures Asking(ret) && flashIndexSelected == dual && refused == old(refused)
      ensures ret == 0 ==> Calls() == old(Calls()) + DetectCalls(o, host.chip, logical)
      ensures ret == 0 ==> Knows()
    {
      hide Kept, Begins, SaneMap, Reading.LayoutTolerated, MapTold, InfoTold, NandTold, EmmcTold, AllGood, Quiet,
           CallsOf, Found, Minded, SaidLocked, Freed, Untouched;
      ghost var was := trace;
      ret := 0;
      match o.target {
        case ToFlash => ret := DetectFlash();
        case ToNand =>
          var size;
          ret, size := CallNand();
          if ret == 0 {
            flashSize := size;
            FoundSize(was, trace[|was|], o, host.chip, size, flashMap);
          }
        case ToEmmc =>
          var size;
          ret, size := CallEmmc();
          if ret == 0 {
            CardSize(trace[|was|].talk, host.chip, size);
            flashSize := size;
            if size == 0 {
              ret := -ERR_EMMC_INIT_FAILED;
            } else {
              FoundSize(was, trace[|was|], o, host.chip, size, flashMap);
            }
          }
        case ToRam => FoundRam(trace, o, host.chip, flashSize, flashMap);
      }
    }

    lemma CardSize(talk: seq<Dialogue>, chip: Chip, size: int)
      requires EmmcTold(talk, chip, chip == Arcs, 0, size)
      ensures EmmcTold(talk, chip, chip == Arcs, 0, 0) <==> size == 0
    {
      hide Field, Asks, Dialogue.Data;
    }

    // ---- Validation ----

    method CheckArea(a: Area) returns (ret: int)
      requires Valid()
      ensures ret == AreaCode(o, a, flashSize, logical, flashMap)
    {
      hide Kept, Begins, InsideOne;
      ret := ValidateFlashBounds(a, flashSize);
      if ret == 0 && o.target.ToFlash? && logical {
        ret := ValidateFlashLayoutArea(flashMap, a);
      }
    }

    method ValidateErases() returns (ret: int)
      requires Valid()
      modifies `refused
      ensures ret == FirstOf(EraseCodes(o, flashSize, logical, flashMap))
      ensures ret == 0 <==> forall k :: 0 <= k < |o.erases| ==> AllowedErase(o, o.erases[k], flashSize, logical, flashMap)
      ensures refused == (old(refused) || ret != 0)
    {
      hide Kept, Begins, Allowed, SaneMap, FirstOf, AreaCode;
      ghost var codes := EraseCodes(o, flashSize, logical, flashMap);
      FirstNone(codes);
      for i := 0 to |o.erases|
        invariant FirstOf(codes[..i]) == 0
        invariant forall k :: 0 <= k < i ==> AllowedErase(o, o.erases[k], flashSize, logical, flashMap)
        invariant refused == old(refused)
      {
        FirstStep(codes, i);
        if !o.target.ToEmmc? && !Utils.IsAligned(o.erases[i].addr, Utils.FLASH_ALIGN) {
          refused := true;
          return -ERR_ARG_ADDR_UNALIGNED;
        } else if !o.target.ToEmmc? && !Utils.IsAligned(o.erases[i].size, Utils.FLASH_ALIGN) {
          refused := true;
          return -ERR_ARG_ADDR_UNALIGNED;
        }
        ret := CheckArea(o.erases[i]);
        if ret != 0 {
          refused := true;
          return;
        }
      }
      ret := 0;
      assert codes[..|codes|] == codes;
    }

    method ValidateAreas(areas: seq<Area>) returns (ret: int)
      requires Valid()
      modifies `refused
      ensures ret == FirstOf(AreaCodes(o, areas, flashSize, logical, flashMap))
      ensures ret == 0 <==> forall k :: 0 <= k < |areas| ==> Allowed(o, areas[k], flashSize, logical, flashMap)
      ensures refused == (old(refused) || ret != 0)
    {
      hide Kept, Begins, Allowed, SaneMap, FirstOf, AreaCode;
      ghost var codes := AreaCodes(o, areas, flashSize, logical, flashMap);
      FirstNone(codes);
      for i := 0 to |areas|
        invariant FirstOf(codes[..i]) == 0
        invariant forall k :: 0 <= k < i ==> Allowed(o, areas[k], flashSize, logical, flashMap)
        invariant refused == old(refused)
      {
        FirstStep(codes, i);
        ret := CheckArea(areas[i]);
        if ret != 0 {
          refused := true;
          return;
        }
      }
      ret := 0;
      assert codes[..|codes|] == codes;
    }

    method ValidateParts(parts: seq<Area>) returns (ret: int)
      requires Valid()
      modifies `refused
      ensures ret == FirstOf(PartCodes(o, parts, flashSize, logical, flashMap))
      ensures ret == 0 <==> forall k :: 0 <= k < |parts| ==> AllowedPart(o, parts[k], flashSize, logical, flashMap)
      ensures refused == (old(refused) || ret != 0)
    {
      hide Kept, Begins, Allowed, SaneMap, FirstOf, AreaCode;
      ghost var codes := PartCodes(o, parts, flashSize, logical, flashMap);
      FirstNone(codes);
      for i := 0 to |parts|
        invariant FirstOf(codes[..i]) == 0
        invariant forall k :: 0 <= k < i ==> AllowedPart(o, parts[k], flashSize, logical, flashMap)
        invariant refused == old(refused)
      {
        FirstStep(codes, i);
        if o.target.ToNand? && !Utils.IsAligned(parts[i].addr, Utils.NAND_ALIGN) {
          refused := true;
          return -ERR_ARG_ADDR_UNALIGNED;
        } else if o.target.ToFlash? && !Utils.IsAligned(parts[i].addr, Utils.FLASH_ALIGN) {
          refused := true;
          return -ERR_ARG_ADDR_UNALIGNED;
        }
        if !o.target.ToRam? {
          ret := CheckArea(parts[i]);
          if ret != 0 {
            refused := true;
            return;
          }
        }
      }
      ret := 0;
      assert codes[..|codes|] == codes;
    }

    /** The checks before the first erase: they pass if and only if everything asked for is acceptable. */
    method Validate(parts: seq<Area>) returns (ret: int)
      requires Valid()
      modifies `refused
      ensures ret == RangeCode(o, parts, flashSize, logical, flashMap)
      ensures ret == 0 <==> Accepted(o, parts, flashSize, logical, flashMap)
      ensures refused == (old(refused) || ret != 0)
    {
      hide Kept, Begins, Allowed, AllowedErase, AllowedPart, SaneMap, FirstOf, AreaCodes, EraseCodes, PartCodes;
      FirstOfFour(FirstOf(AreaCodes(o, o.readBack, flashSize, logical, flashMap)),
                  FirstOf(EraseCodes(o, flashSize, logical, flashMap)),
                  FirstOf(AreaCodes(o, o.verifies, flashSize, logical, flashMap)),
                  FirstOf(PartCodes(o, parts, flashSize, logical, flashMap)));
      ret := ValidateAreas(o.readBack);
      if ret != 0 {
        return;
      }
      ret := ValidateErases();
      if ret != 0 {
        return;
      }
      ret := ValidateAreas(o.verifies);
      if ret != 0 {
        return;
      }
      ret := ValidateParts(parts);
    }

    // ---- Reading back ----

    /** One file: what it holds in the end is the range of the flash, and with --verify-all the digest of the device is
        that of what it holds. */
    method ReadFile(a: Area, file: Reading.Writer?) returns (ret: int)
      requires Early()
      requires file != null ==> file.written == []
      modifies `trace, `refused, host.wire, host.req, host.res, host`readStream, host`layoutQueried, file
      ensures Asking(ret) && flashIndexSelected == old(flashIndexSelected) && (old(Knows()) ==> Knows())
      ensures refused == (file == null) && (file == null ==> ret == -Reading.ERR_FILE_WRITE_FAILED)
      ensures file != null ==>
        && |trace| == |old(trace)| + 1 && Calls() == old(Calls()) + [Read(a, file.written)]
        && var s := trace[|old(trace)|];
        ret == 0 <==>
          s.ret == 0 && (o.verifyAll ==> Md5Spec.Digest(file.written) == Reading.DigestIn(s.talk, a.size, host.chip == Arcs))
      ensures var memory := old(host.wire.device.store.bytes);
        ret == 0 && Reading.Lies(a.addr, a.size, memory) && Shows() ==>
          file != null && file.written == memory[a.addr..a.addr as int + a.size]
    {
      hide Kept, Begins, SaneMap, Reading.ShowsBlocks, Reading.ShowsStream, Md5Spec.Digest, Reading.DigestIn, Found,
           Minded, SaidLocked, Freed, Untouched, CallsOf, AllGood, Quiet;
      if file == null {
        refused := true;
        return -Reading.ERR_FILE_WRITE_FAILED;
      }
      var md5;
      ghost var n;
      ret, md5, n := CallRead(a, file);
      if ret != 0 {
        return;
      }
      if o.verifyAll {
        var local := Md5Spec.Digest(file.written);
        if local != md5 {
          return -ERR_VERIFY_MISMATCH;
        }
      }
    }

    ghost predicate Opened(files: seq<Reading.Writer?>) { forall i :: 0 <= i < |files| ==> files[i] != null }

    /** What the files hold. */
    ghost function Held(files: seq<Reading.Writer?>): (data: seq<seq<Byte>>)
      reads set f | f in files && f != null
      ensures |data| == |files|
    {
      seq(|files|, i requires 0 <= i < |files| reads set f | f in files && f != null =>
        if files[i] == null then [] else files[i].written)
    }

    /** The files hold the ranges of the memory, as far as it reaches. */
    ghost predicate Delivered(files: seq<Reading.Writer?>, memory: seq<Byte>)
      requires |files| == |o.readBack|
      reads set f | f in files && f != null
    {
      forall i :: 0 <= i < |files| && o.readBack[i].addr as int + o.readBack[i].size <= |memory| ==>
        && files[i] != null
        && files[i].written == memory[o.readBack[i].addr..o.readBack[i].addr as int + o.readBack[i].size]
    }

    method ReadBack(files: seq<Reading.Writer?>) returns (ret: int)
      requires Early() && |files| == |o.readBack|
      requires forall i :: 0 <= i < |files| && files[i] != null ==> files[i].written == []
      requires forall i, j :: 0 <= i < j < |files| && files[i] != null ==> files[i] != files[j]
      requires forall i :: 0 <= i < |o.readBack| ==> InBounds(o.readBack[i], flashSize)
      modifies `trace, `refused, host.wire, host.req, host.res, host`readStream, host`layoutQueried
      modifies set f | f in files && f != null
      ensures Asking(ret) && flashIndexSelected == old(flashIndexSelected) && (old(Knows()) ==> Knows())
      ensures if ret == 0 then Opened(files) else refused ==> !Opened(files) && ret == -Reading.ERR_FILE_WRITE_FAILED
      ensures ret == 0 && Shows() ==> Delivered(files, old(host.wire.device.store.bytes))
      ensures ret == 0 ==> Calls() == old(Calls()) + ReadCalls(o.readBack, Held(files))
    {
      hide Kept, Begins, SaneMap, Reading.ShowsBlocks, Reading.ShowsStream, Md5Spec.Digest, Reading.DigestIn, Found,
           Minded, SaidLocked, Freed, Untouched, CallsOf, AllGood, Quiet;
      ghost var memory := host.wire.device.store.bytes;
      ghost var shows := Shows();
      ghost var data: seq<seq<Byte>> := [];
      ret := 0;
      NoCalls(Calls());
      for i := 0 to |files|
        invariant Asking(0) && flashIndexSelected == old(flashIndexSelected) && (old(Knows()) ==> Knows())
        invariant |data| == i && forall k :: 0 <= k < i ==> files[k] != null && files[k].written == data[k]
        invariant Calls() == old(Calls()) + ReadCalls(o.readBack[..i], data)
        invariant forall k :: i <= k < |files| && files[k] != null ==> files[k].written == []
        invariant shows ==> forall k :: 0 <= k < i && o.readBack[k].addr as int + o.readBack[k].size <= |memory| ==>
          files[k] != null && files[k].written == memory[o.readBack[k].addr..o.readBack[k].addr as int + o.readBack[k].size]
      {
        assert InBounds(o.readBack[i], flashSize);
        ret := ReadFile(o.readBack[i], files[i]);
        if ret != 0 {
          return;
        }
        ReadNext(o.readBack, i, data, files[i].written);
        Onto(old(Calls()), ReadCalls(o.readBack[..i], data), [Read(o.readBack[i], files[i].written)]);
        data := data + [files[i].written];
      }
      ret := 0;
      assert o.readBack[..|o.readBack|] == o.readBack;
      assert data == Held(files);
    }

    // ---- Unlocking ----

    /** Unlocking on demand. A loader that cannot tell about protection leaves -ENOTSUP behind, with which the
        session goes on. */
    method AutoUnlock(parts: nat) returns (ret: int, go: bool)
      requires Early() && (o.unlock ==> IsFree())
      modifies `trace, host.wire, host.req, host.res
      ensures Altering(go) && host.wire.device == old(host.wire.device) && Quiet(trace)
      ensures go && Damages(parts) ==> IsFree()
      ensures !Damages(parts) ==> (old(Alone()) ==> Alone())
      ensures if go then ret == 0 || Alters(o, parts) else ret != 0
      ensures !go ==> Blamed(ret)
      ensures go ==> Calls() == old(Calls()) + UnlockCalls(o, parts, WasLocked())
    {
      hide Kept, Begins, SaneMap, Dialogue.Code, Dialogue.Value, Found, Minded, SaidLocked, Freed, Untouched, Blames,
           CallsOf, AllGood, Quiet, ProtectionTold, TellsLock;
      ghost var was := trace;
      ret := 0;
      if Alters(o, parts) && !o.unlock {
        var p;
        ret, p := CallProtection(ProbeProtection);
        LockGrows(was, trace[|was|], o, host.chip);
        LockIs(trace[|was|], o, host.chip, p);
        ghost var probed := trace;
        if !TellsLock(trace[|was|], o, host.chip) {
          FreedByProbe(was, trace[|was|], o, host.chip);
        }
        if ret == -Serial.ENOTSUP {
        } else if ret != 0 {
          return ret, false;
        } else if p == Locked {
          ret := CallUnlock();
          if ret != 0 {
            return ret, false;
          }
          FreedByUnlock(probed, trace[|probed|], o, host.chip);
        }
      }
      go := true;
    }

    // ---- Erasing and verifying ----

    /** Unlocking, erasing and writing is under way; everything went well so far if and only if `well`. */
    twostate predicate Altering(well: bool)
      reads this, host, host.wire
    {
      && Valid() && host.wire.Went() && (well <==> Fine())
      && burnerReady == old(burnerReady) && flashLocked == old(flashLocked)
      && flashIndexSelected == old(flashIndexSelected) && host.loaderRunning == old(host.loaderRunning)
      && logical == old(logical) && dual == old(dual) && flashMap == old(flashMap) && flashSize == old(flashSize)
      && refused == old(refused) && (old(Knows()) ==> Knows()) && (old(Heeds()) ==> Heeds())
    }

    /** Behind the unlocking. */
    twostate predicate Working(well: bool)
      reads this, host, host.wire
    {
      && Altering(well) && WasLocked() == old(WasLocked())
      && (old(IsFree()) ==> IsFree()) && (old(Alone()) ==> Alone())
    }

    /** Two flashes are erased one after the other, and nothing else is. */
    method EraseDual() returns (ret: int)
      requires Going() && logical && IsFree()
      modifies `trace, host.wire, host.req, host.res
      ensures Working(ret == 0)
      ensures ret != 0 ==> Blamed(ret)
      ensures ret == 0 && Enter.HonestDevice(host.wire.script) ==>
                Memory() == FlashMemory.Erase(old(Memory()), 0, flashMap.total)
      ensures ret == 0 ==> Calls() == old(Calls()) + EraseCalls(FlashAreas(flashMap, flashMap.count))
    {
      hide Kept, Begins, Enter.HonestDevice, FlashMemory.Erase, StartOf, EraseCalls, CallsOf, Knows, Heeds, WasLocked,
           IsFree, Alone, Blamed, AllGood, Quiet;
      ghost var flash, m := Memory(), flashMap;
      var base: nat := 0;
      ret := 0;
      EraseNone(flash, 0);
      StartNone(m);
      NoCalls(Calls());
      for i := 0 to flashMap.count
        invariant Working(true) && base == StartOf(m, i)
        invariant Calls() == old(Calls()) + EraseCalls(FlashAreas(m, i))
        invariant Enter.HonestDevice(host.wire.script) ==> Memory() == FlashMemory.Erase(flash, 0, base)
      {
        StartNext(m, i);
        StartGrows(m, i + 1, m.count);
        SumIsTotal(m);
        assert Inside(m, i, base, m.sizes[i]);
        ret := CallErase(base, flashMap.sizes[i]);
        if ret != 0 {
          return;
        }
        EraseNext(flash, 0, base, m.sizes[i]);
        EraseCallsNext(FlashAreas(m, i), Area(base, m.sizes[i]));
        Onto(old(Calls()), EraseCalls(FlashAreas(m, i)), [Erase(base, m.sizes[i])]);
        base := base + flashMap.sizes[i];
      }
      ret := 0;
      SumIsTotal(m);
    }

    /** The areas of the command line, one after the other. */
    method EraseList(ret0: int) returns (ret: int, go: bool)
      requires Going() && AllowedErases(o, flashSize, logical, flashMap)
      requires o.target.ToFlash? && o.erases != [] ==> IsFree()
      modifies `trace, host.wire, host.req, host.res
      ensures Working(go) && (if go then ret == 0 || (ret == ret0 && o.erases == []) else ret != 0)
      ensures !go ==> Blamed(ret)
      ensures go && Enter.HonestDevice(host.wire.script) ==>
                Memory() == EraseAreas(old(Memory()), o.erases)
      ensures go ==> Calls() == old(Calls()) + EraseCalls(o.erases)
    {
      hide Kept, Begins, Enter.HonestDevice, FlashMemory.Erase, SaneMap, EraseCalls, CallsOf, AllGood, Quiet,
           AllowedErases, EraseInside, Knows, Heeds, WasLocked, IsFree, Alone, Blamed;
      ghost var flash := Memory();
      ret := ret0;
      assert o.erases[..0] == [];
      NoCalls(Calls());
      for i := 0 to |o.erases|
        invariant Working(true) && (ret == 0 || (ret == ret0 && i == 0))
        invariant Calls() == old(Calls()) + EraseCalls(o.erases[..i])
        invariant Enter.HonestDevice(host.wire.script) ==> Memory() == EraseAreas(flash, o.erases[..i])
      {
        ErasedInside(o, flashSize, logical, flashMap, i);
        ret := CallErase(o.erases[i].addr, o.erases[i].size);
        if ret != 0 {
          return ret, false;
        }
        assert o.erases[..i + 1][..i] == o.erases[..i] && o.erases[..i + 1] == o.erases[..i] + [o.erases[i]];
        EraseCallsNext(o.erases[..i], o.erases[i]);
        Onto(old(Calls()), EraseCalls(o.erases[..i]), [Erase(o.erases[i].addr, o.erases[i].size)]);
      }
      assert o.erases[..|o.erases|] == o.erases;
      go := true;
    }

    /** The erase phase. */
    method Erases(ret0: int) returns (ret: int, go: bool)
      requires Going() && AllowedErases(o, flashSize, logical, flashMap)
      requires Damages(0) ==> IsFree()
      modifies `trace, host.wire, host.req, host.res
      ensures Working(go)
      ensures !go ==> Blamed(ret)
      ensures if go then ret == 0 || (ret == ret0 && !o.eraseAll && o.erases == []) else ret != 0
      ensures go && Enter.HonestDevice(host.wire.script) ==> Memory() == Wiped(o, dual, flashMap, old(Memory()))
      ensures go ==> Calls() == old(Calls()) + WipeCalls(o, dual, flashMap)
    {
      hide Kept, Begins, Enter.HonestDevice, FlashMemory.Erase, SaneMap, EraseCalls, CallsOf, FlashAreas, AllGood,
           Quiet, EraseAreas, AllowedErases, Knows, Heeds, WasLocked, IsFree, Alone, Blamed;
      if !o.eraseAll {
        ret, go := EraseList(ret0);
        return;
      }
      if o.target.ToFlash? && logical && dual {
        ret := EraseDual();
      } else {
        ret := CallEraseAll();
      }
      go := ret == 0;
    }

    /** The digests asked for on the command line. */
    method VerifyAreas(ret0: int) returns (ret: int, go: bool)
      requires Going()
      modifies `trace, host.wire, host.req, host.res
      ensures Working(go) && host.wire.device == old(host.wire.device)
      ensures !go ==> Blamed(ret)
      ensures if go then ret == 0 || (ret == ret0 && o.verifies == []) else ret != 0
      ensures go ==> Calls() == old(Calls()) + VerifyCalls(o.verifies)
    {
      hide Kept, Begins, SaneMap, Digests, CallsOf, VerifyCalls, AllGood, Quiet, Knows, Heeds, WasLocked, IsFree,
           Alone, Blamed, Reading.DigestIn;
      ret := ret0;
      NoCalls(Calls());
      assert o.verifies[..0] == [];
      for i := 0 to |o.verifies|
        invariant Working(true) && host.wire.device == old(host.wire.device) && (ret == 0 || (ret == ret0 && i == 0))
        invariant Calls() == old(Calls()) + VerifyCalls(o.verifies[..i])
      {
        var md5;
        ret, md5 := CallVerify(o.verifies[i], Verify(o.verifies[i]));
        if ret != 0 {
          return ret, false;
        }
        VerifyNext(o.verifies, i);
        Onto(old(Calls()), VerifyCalls(o.verifies[..i]), [Verify(o.verifies[i])]);
      }
      assert o.verifies[..|o.verifies|] == o.verifies;
      go := true;
    }

    // ---- Writing partitions ----

    /** The erase before a partition. Its range is never empty and never beyond 2^32, so the library never refuses
        it, and the command goes out. */
    method EraseFor(addr: U32, size: U32) returns (ret: int)
      requires Going() && (o.target.ToFlash? ==> IsFree())
      requires o.target.ToFlash? ==> AllowedPart(o, Area(addr, size), flashSize, logical, flashMap) && size < 0x8000_0000
      modifies `trace, host.wire, host.req, host.res
      ensures Working(ret == 0)
      ensures ret != 0 ==> Blamed(ret)
      ensures o.target.ToFlash? && !AutoErases(host.chip) ==> host.wire.t == old(host.wire.t) + 1
      ensures ret == 0 && Enter.HonestDevice(host.wire.script) ==>
        Memory() ==
          if o.target.ToFlash? && !AutoErases(host.chip) then FlashMemory.Erase(old(Memory()), addr, RoundUp(size))
          else old(Memory())
      ensures ret == 0 ==> Calls() == old(Calls()) + EraseFirst(o, host.chip, addr, size)
    {
      hide Kept, Begins, Enter.HonestDevice, FlashMemory.Erase, SaneMap, RoundUp, CallsOf, AllGood, Quiet, EraseSize,
           Knows, Heeds, WasLocked, IsFree, Alone, Blamed;
      ret := 0;
      if o.target.ToFlash? && !AutoErases(host.chip) {
        EraseSizeIs(addr, size);
        PartErasedInside(o, Area(addr, size), flashSize, logical, flashMap);
        ret := CallErase(addr, EraseSize(size));
      }
    }

    /** The comparison of digests after a partition: 0 exactly when the device has sent the digest of the bytes of the
        image. With a device that computes its digests from what it holds, the flash then has been shown to agree with the
        image, whatever the device did with the blocks. */
    method Compare(addr: U32, reader: MemReader) returns (ret: int)
      requires Going() && reader.Valid()
      requires reader.hook != null && reader.hook.Valid() && reader.hook.buffer != reader.buffer
      requires reader.hook.buffer !in {host.req, host.res}
      modifies `trace, host.wire, host.req, host.res, reader.hook, reader.hook.buffer
      ensures Working(ret == 0) && host.wire.device == old(host.wire.device)
      ensures ret != 0 ==> Blamed(ret)
      ensures reader.Valid() && (reader.buffer !in {host.req, host.res} ==> reader.Contents() == old(reader.Contents()))
      ensures Calls() == old(Calls()) + [Confirm(Area(addr, reader.size), old(reader.hook.absorbed))]
      ensures |trace| == |old(trace)| + 1
        && var s := trace[|old(trace)|];
        ret == 0 <==> s.ret == 0 && Md5Spec.Digest(old(reader.hook.absorbed))
                                    == Reading.DigestIn(s.talk, reader.size, host.chip == Arcs)
      ensures ret == 0 && Digests(host.wire.script, host.ErrorFirst())
              && addr as int + reader.size <= |host.wire.device.store.bytes| ==>
                Md5Spec.Digest(host.wire.device.store.bytes[addr..addr as int + reader.size])
                == Md5Spec.Digest(old(reader.hook.absorbed))
    {
      hide Kept, Begins, SaneMap, Digests, Md5Spec.Digest, Md5.Holds, Reading.DigestIn, CallsOf, AllGood, Quiet,
           Knows, Heeds, WasLocked, IsFree, Alone, Blamed;
      ghost var bytes := reader.hook.absorbed;
      var image := reader.FinishVerify();
      var md5;
      ret, md5 := CallVerify(Area(addr, reader.size), Confirm(Area(addr, reader.size), bytes));
      if ret != 0 {
        return;
      }
      if image != md5 {
        return -ERR_VERIFY_MISMATCH;
      }
    }

    /** One partition erased and written. */
    method WriteOne(addr: U32, reader: MemReader, jump: U32) returns (ret: int)
      requires Going() && (o.target.ToFlash? ==> IsFree())
      requires reader.Valid() && Apart(host, reader) && (reader.hook != null ==> reader.hook.Valid()) && reader.readOff == 0
      requires AllowedPart(o, Area(addr, reader.size), flashSize, logical, flashMap)
      modifies `trace, host.wire, host.req, host.res, reader`readOff, reader.hook
      modifies if reader.hook == null then {} else {reader.hook.buffer}
      ensures Working(ret == 0) && reader.Valid() && reader.Contents() == old(reader.Contents())
      ensures ret != 0 ==> Blamed(ret)
      ensures reader.hook != null ==> reader.hook.Valid() && Apart(host, reader)
      ensures ret == 0 && Enter.HonestDevice(host.wire.script) ==>
                Memory() == WrittenOne(o, host.chip, MediumHere(), old(Memory()), Part(addr, old(reader.Contents())))
      ensures ret == 0 && reader.hook != null ==>
                reader.hook.absorbed == old(reader.hook.absorbed) + old(reader.Contents())
      ensures ret == 0 ==>
        Calls() == old(Calls()) + EraseFirst(o, host.chip, addr, reader.size) + [Write(addr, old(reader.Contents()), jump)]
    {
      hide Enter.HonestDevice, FlashMemory.Erase, Put, SaneMap, RoundUp, Md5.Holds, AllowedPart, CallsOf, AllGood,
           Quiet, EraseFirst, Kept, Knows, Heeds, WasLocked, IsFree, Alone, Blamed;
      ret := EraseFor(addr, reader.size);
      if ret != 0 {
        return;
      }
      ret := CallWrite(addr, reader, jump);
    }

    /** One partition: erased, written, and compared. */
    method BurnOne(addr: U32, reader: MemReader, jump: U32) returns (ret: int)
      requires Going() && (o.target.ToFlash? ==> IsFree())
      requires reader.Valid() && reader.readOff == 0 && reader.hook == null && reader.buffer !in {host.req, host.res}
      requires AllowedPart(o, Area(addr, reader.size), flashSize, logical, flashMap)
      modifies `trace, host.wire, host.req, host.res, reader`readOff, reader`hook
      ensures Working(ret == 0) && reader.Valid() && reader.Contents() == old(reader.Contents())
      ensures ret != 0 ==> Blamed(ret)
      ensures ret == 0 && Enter.HonestDevice(host.wire.script) ==>
                Memory() == WrittenOne(o, host.chip, MediumHere(), old(Memory()), Part(addr, old(reader.Contents())))
      ensures ret == 0 && o.verifyAll && Digests(host.wire.script, host.ErrorFirst())
              && addr as int + reader.size <= |host.wire.device.store.bytes| ==>
                Md5Spec.Digest(host.wire.device.store.bytes[addr..addr as int + reader.size]) == Md5Spec.Digest(reader.Contents())
      ensures ret == 0 ==> Calls() == old(Calls()) + OneCalls(o, host.chip, Part(addr, old(reader.Contents())), jump)
    {
      hide Kept, Begins, Enter.HonestDevice, WrittenOne, SaneMap, Digests, Md5Spec.Digest, Md5.Holds, AllowedPart,
           CallsOf, AllGood, Quiet, EraseSize, Knows, Heeds, WasLocked, IsFree, Alone, Blamed, Reading.DigestIn;
      ghost var c, was := reader.Contents(), Calls();
      if o.verifyAll {
        reader.InstallVerify();
      }
      ret := WriteOne(addr, reader, jump);
      if ret != 0 {
        return;
      }
      if o.verifyAll {
        assert [] + c == c;
        ret := Compare(addr, reader);
      } else {
        NoCalls(Calls());
      }
      OntoThree(was, EraseFirst(o, host.chip, addr, reader.size), [Write(addr, c, jump)],
                If(o.verifyAll, [Confirm(Area(addr, reader.size), c)]));
    }

    /** The partitions from number i on have not been touched yet. */
    ghost predicate Waiting(table: PartTable, parts: seq<Part>, i: nat)
      reads table, table.readers, set r | r in table.readers :: r.buffer
    {
      && |parts| == |table.readers| == |table.addrs|
      && (forall k :: 0 <= k < |parts| ==> table.readers[k].buffer !in {host.req, host.res})
      && (forall k, j :: 0 <= k < j < |parts| ==> table.readers[k] != table.readers[j])
      && (forall j :: i <= j < |parts| ==>
            && table.readers[j].Valid() && table.readers[j].readOff == 0 && table.readers[j].hook == null
            && parts[j] == Part(table.addrs[j], table.readers[j].Contents()))
    }

    /** Partition number i. */
    method BurnNext(table: PartTable, i: nat, jump: U32, ghost parts: seq<Part>) returns (ret: int)
      requires Going() && (o.target.ToFlash? ==> IsFree()) && Waiting(table, parts, i) && i < |parts| && Small(parts)
      requires AllowedPart(o, AreaOf(parts[i]), flashSize, logical, flashMap)
      modifies `trace, host.wire, host.req, host.res, table.readers
      ensures Working(ret == 0) && Waiting(table, parts, i + 1)
      ensures ret != 0 ==> Blamed(ret)
      ensures ret == 0 && Enter.HonestDevice(host.wire.script) ==>
                Memory() == WrittenOne(o, host.chip, MediumHere(), old(Memory()), parts[i])
      ensures ret == 0 ==> Calls() == old(Calls()) + OneCalls(o, host.chip, parts[i], jump)
    {
      hide Kept, Begins, Enter.HonestDevice, SaneMap, WrittenOne, AllowedPart, Digests, Md5Spec.Digest, CallsOf,
           OneCalls, AllGood, Quiet, Knows, Heeds, WasLocked, IsFree, Alone, Blamed;
      assert AreaOf(parts[i]) == Area(table.addrs[i], table.readers[i].size);
      ret := BurnOne(table.addrs[i], table.readers[i], jump);
    }

    lemma WaitingCounts(table: PartTable, parts: seq<Part>)
      requires Waiting(table, parts, 0)
      ensures |parts| == |table.readers|
    {
    }

    /** The loop over the partitions. */
    method BurnParts(table: PartTable, ret0: int) returns (ret: int, jumpAddr: U32)
      requires Going() && Small(table.parts) && Waiting(table, table.parts, 0)
      requires AllowedParts(o, table.parts, flashSize, logical, flashMap)
      requires o.target.ToFlash? && table.parts != [] ==> IsFree()
      modifies `trace, host.wire, host.req, host.res, table.readers
      ensures Working(Fine()) && (Fine() ==> ret == 0 || (ret == ret0 && table.parts == [])) && (!Fine() ==> ret != 0)
      ensures !Fine() ==> Blamed(ret)
      ensures Fine() && Enter.HonestDevice(host.wire.script) ==>
                Memory() == WriteOut(o, host.chip, MediumHere(), old(Memory()), table.parts)
      ensures Fine() ==> Calls() == old(Calls()) + PartCalls(o, host.chip, table.parts, |table.parts|)
      ensures Fine() ==> jumpAddr == LastJump(o, |table.parts|)
    {
      hide Kept, Begins, Enter.HonestDevice, SaneMap, AllowedPart, CallsOf, OneCalls, AllGood, Quiet, WriteOut,
           WrittenOne, PartCalls, AllowedParts, Waiting, JumpFor, Knows, Heeds, WasLocked, IsFree, Alone, Blamed;
      ghost var memory, medium, parts := Memory(), MediumHere(), table.parts;
      var n := |table.readers|;
      WaitingCounts(table, parts);
      ret, jumpAddr := ret0, 0;
      NoCalls(Calls());
      WriteOutNone(o, host.chip, medium, memory);
      NoParts(o, host.chip, n);
      assert parts[..0] == [];
      for i := 0 to n
        invariant Working(true) && (ret == 0 || (ret == ret0 && i == 0)) && Waiting(table, parts, i)
        invariant Calls() == old(Calls()) + PartCalls(o, host.chip, parts[..i], n)
        invariant jumpAddr == if i == n then LastJump(o, n) else 0
        invariant Enter.HonestDevice(host.wire.script) ==> Memory() == WriteOut(o, host.chip, medium, memory, parts[..i])
      {
        AllowedAt(o, parts, flashSize, logical, flashMap, i);
        jumpAddr := if o.target.ToRam? && i == n - 1 then o.jump else 0;
        JumpIs(o, i, n);
        ret := BurnNext(table, i, jumpAddr, parts);
        if ret != 0 {
          return;
        }
        WriteOutNext(o, host.chip, medium, memory, parts, i);
        PartNext(o, host.chip, parts, i, n);
        Onto(old(Calls()), PartCalls(o, host.chip, parts[..i], n), OneCalls(o, host.chip, parts[i], jumpAddr));
      }
      assert parts[..n] == parts;
    }

    // ---- The session ----

    ghost predicate Inputs(files: seq<Reading.Writer?>, table: PartTable)
      reads this, host, files, table, table.Repr
    {
      && table.Valid() && host.req !in table.Repr && host.res !in table.Repr
      && |files| == |o.readBack|
      && (forall i :: 0 <= i < |files| && files[i] != null ==> files[i].written == [])
      && (forall i, j :: 0 <= i < j < |files| && files[i] != null ==> files[i] != files[j])
    }

    /** The ranges of the partitions, from their readers. */
    method Ranges(table: PartTable) returns (a: seq<Area>)
      requires table.Valid()
      ensures Small(table.parts) && a == AreasOf(table.parts)
    {
      a := [];
      for i := 0 to |table.readers|
        invariant |a| == i
        invariant forall k :: 0 <= k < i ==> |table.parts[k].data| < 0x8000_0000 && a[k] == AreaOf(table.parts[k])
      {
        assert table.parts[i] == Part(table.addrs[i], table.readers[i].Contents());
        a := a + [Area(table.addrs[i], table.readers[i].size)];
      }
    }

    /** What the command line asks for about the protection. */
    method Protections() returns (ret: int)
      requires Early()
      modifies `trace, host.wire, host.req, host.res
      ensures Asking(ret) && (old(Knows()) ==> Knows()) && (ret == 0 && o.unlock ==> IsFree())
      ensures ret == 0 ==> Calls() == old(Calls()) + If(o.unlock, [Unlock]) + If(o.readProtection, [GetProtection])
    {
      hide Kept, Begins, SaneMap, CallsOf, Quiet, AllGood, Knows, Heeds, WasLocked, Freed, Alone, Blamed,
           ProtectionTold;
      ret := 0;
      NoCalls(Calls());
      if o.unlock {
        ghost var before := trace;
        ret := CallUnlock();
        if ret != 0 {
          return;
        }
        FreedByUnlock(before, trace[|before|], o, host.chip);
      }
      NoCalls(Calls());
      if o.readProtection {
        var p;
        ret, p := CallProtection(GetProtection);
      }
    }

    /** Asking the device about itself before anything is validated. */
    method Prepare() returns (ret: int)
      requires Early() && !logical && !dual && !flashIndexSelected
      modifies this, host.wire, host.req, host.res, host`readStream, host`layoutQueried
      ensures Asking(ret) && flashIndexSelected == dual && refused == old(refused)
      ensures ret == 0 ==> Knows() && (o.unlock ==> IsFree())
      ensures ret == 0 ==> Calls() == old(Calls()) + PrepareCalls(o, host.chip, logical)
    {
      hide Kept, Begins, SaneMap, CallsOf, DetectCalls, Quiet, AllGood, Knows, Heeds, WasLocked, IsFree, Alone,
           Blamed, MapTold, ProtectionTold, Reading.LayoutTolerated;
      ghost var was := Calls();
      ret := 0;
      NoCalls(was);
      if o.readChipId {
        ret := CallChipId();
        if ret != 0 {
          return;
        }
      }
      assert Calls() == was + If(o.readChipId, [GetChipId]);
      ret := Detect();
      if ret != 0 {
        return;
      }
      ret := Protections();
      OntoFour(was, If(o.readChipId, [GetChipId]), DetectCalls(o, host.chip, logical), If(o.unlock, [Unlock]),
               If(o.readProtection, [GetProtection]));
    }

    /** Everything before the partitions: unlocking on demand, erasing, and the digests asked for. */
    method Clear(parts: nat) returns (ret: int, go: bool)
      requires Early() && (o.unlock ==> IsFree()) && AllowedErases(o, flashSize, logical, flashMap)
      modifies `trace, host.wire, host.req, host.res
      ensures Altering(go) && (!Damages(parts) ==> (old(Alone()) ==> Alone()))
      ensures go && Damages(parts) ==> IsFree()
      ensures !go ==> Blamed(ret)
      ensures if go then ret == 0 || (Alters(o, parts) && !o.eraseAll && o.erases == []) else ret != 0
      ensures go && Enter.HonestDevice(host.wire.script) ==> Memory() == Wiped(o, dual, flashMap, old(Memory()))
      ensures go ==>
        Calls() == old(Calls()) + UnlockCalls(o, parts, WasLocked()) + WipeCalls(o, dual, flashMap) + VerifyCalls(o.verifies)
    {
      hide Kept, Begins, Enter.HonestDevice, SaneMap, Wiped, Good, CallsOf, UnlockCalls, WipeCalls, VerifyCalls,
           AllGood, Quiet, Knows, Heeds, WasLocked, IsFree, Alone, Blamed;
      ret, go := AutoUnlock(parts);
      if !go {
        return;
      }
      ret, go := Erases(ret);
      if !go {
        return;
      }
      ret, go := VerifyAreas(ret);
    }

    /** Everything that may change the flash. */
    method Alter(table: PartTable) returns (ret: int, jumpAddr: U32)
      requires Early() && (o.unlock ==> IsFree()) && Small(table.parts) && Waiting(table, table.parts, 0)
      requires AllowedParts(o, table.parts, flashSize, logical, flashMap) && AllowedErases(o, flashSize, logical, flashMap)
      modifies `trace, host.wire, host.req, host.res, table.readers
      ensures Altering(ret == 0) && (!Damages(|table.parts|) ==> (old(Alone()) ==> Alone()))
      ensures ret != 0 ==> Blamed(ret)
      ensures ret == 0 && Enter.HonestDevice(host.wire.script) ==>
                Memory() == WriteOut(o, host.chip, MediumHere(), Wiped(o, dual, flashMap, old(Memory())), table.parts)
      ensures ret == 0 ==> jumpAddr == LastJump(o, |table.parts|)
      ensures ret == 0 ==> Calls() == old(Calls()) + AlterCalls(o, host.chip, dual, flashMap, WasLocked(), table.parts)
    {
      hide Kept, Begins, Enter.HonestDevice, SaneMap, AllowedParts, WriteOut, Wiped, Good, CallsOf, UnlockCalls,
           WipeCalls, VerifyCalls, PartCalls, AllGood, Quiet, Knows, Heeds, WasLocked, IsFree, Alone, Blamed;
      ghost var was := Calls();
      var go;
      jumpAddr := 0;
      ret, go := Clear(|table.readers|);
      if !go {
        return;
      }
      ret, jumpAddr := BurnParts(table, ret);
      if Fine() {
        OntoFour(was, UnlockCalls(o, |table.parts|, WasLocked()), WipeCalls(o, dual, flashMap), VerifyCalls(o.verifies),
                 PartCalls(o, host.chip, table.parts, |table.parts|));
      }
    }

    /** What the calls that close a session mean on the wire. */
    lemma OnWire()
      requires Valid()
      ensures Closed(trace, Lock) && Protects(host.chip, o.target) ==> ClosedBy(host.wire.log, |start|, LockRequest())
      ensures Closed(trace, SelectFlash(AUTOMATIC)) && dual ==>
                ClosedBy(host.wire.log, |start|, IndexRequest(AUTOMATIC))
      ensures OnlyAutomatic(host.wire.log, |start|)
    {
      hide Recorded, Closed, ClosedBy, OnlyAutomatic, ErasesInside, Guarded;
      if Closed(trace, Lock) && Protects(host.chip, o.target) {
        LockOnWire(start, trace, host.wire.log, o, host.chip);
      }
      if Closed(trace, SelectFlash(AUTOMATIC)) && dual {
        IndexOnWire(start, trace, host.wire.log, o, host.chip);
      }
      RecordedAutomatic(start, trace, host.wire.log, o, host.chip);
    }

    /** What holds on every exit of what has been called, and of the requests on the wire. */
    ghost predicate Orderly()
      reads this, host, host.wire
    {
      // The requests are those of the calls, one after the other, and their answers give the codes.
      && Recorded(start, trace, host.wire.log, o, host.chip)
      // Flashes are only selected automatically.
      && OnlyAutomatic(host.wire.log, |start|)
      // Where flashes consist of whole sectors, no erase leaves the flash it begins in.
      && ErasesInside(trace, logical, flashMap)
      // A flash is never erased or written unless it has been unlocked, or asked whether it is locked; and if it said so, it
      // has been unlocked since. On the wire: behind the connection, no request changes a flash that has a lock before one
      // has unlocked it, or an answer has said anything but that it is locked.
      && Guarded(trace, o, host.chip)
      && (Protects(host.chip, o.target) ==> OpenedFirst(host.wire.log, |start| + |first.talk|, host.chip == Arcs))
      // Where the protection is left alone, nothing on the wire unlocks.
      && (Alone() ==> NoUnlock(host.wire.log, |start|))
    }

    lemma Order()
      requires Valid() && trace != [] && first.call.DoConnect?
      ensures Orderly()
    {
      hide Recorded, OpenedFirst, NoUnlock, Guarded, ErasesInside, SaneMap, Untouched, OnlyAutomatic;
      RecordedAutomatic(start, trace, host.wire.log, o, host.chip);
      if Protects(host.chip, o.target) {
        GuardedOnWire(start, trace, host.wire.log, o, host.chip);
      }
      if Alone() {
        UntouchedOnWire(start, trace, host.wire.log, o, host.chip);
      }
    }

    /** Locking: from here on, nothing is changed behind a lock. */
    method LockNow() returns (ret: int)
      requires Valid() && burnerReady
      modifies `trace, host.wire, host.req, host.res
      ensures DidAsk(Lock, ret) && Closed(trace, Lock)
      ensures old(Closed(trace, SelectFlash(AUTOMATIC))) ==> Closed(trace, SelectFlash(AUTOMATIC))
    {
      hide Kept, Begins, SaneMap, Closed, Quiet, AllGood, CallsOf, Good, Knows, Heeds, WasLocked, IsFree, Alone,
           Blamed;
      ghost var was := trace;
      ret := CallLock();
      CloseNow(was, trace[|was|]);
      if Closed(was, SelectFlash(AUTOMATIC)) {
        ClosedGrows(was, trace[|was|], SelectFlash(AUTOMATIC));
      }
    }

    /** Back to the automatic selection of flashes. */
    method SelectNow() returns (ret: int)
      requires Valid() && burnerReady
      modifies `trace, host.wire, host.req, host.res
      ensures DidAsk(SelectFlash(AUTOMATIC), ret) && Closed(trace, SelectFlash(AUTOMATIC))
      ensures old(Closed(trace, Lock)) ==> Closed(trace, Lock)
    {
      hide Kept, Begins, SaneMap, Closed, Quiet, AllGood, CallsOf, Good, Knows, Heeds, WasLocked, IsFree, Alone,
           Blamed;
      ghost var was := trace;
      ret := CallSelect(AUTOMATIC);
      CloseNow(was, trace[|was|]);
      if Closed(was, Lock) {
        ClosedGrows(was, trace[|was|], Lock);
      }
    }

    /** The lock and the flash index at the regular end. */
    method Restore() returns (ret: int)
      requires Going() && !flashLocked && flashIndexSelected == dual
      modifies `trace, `flashLocked, `flashIndexSelected, host.wire, host.req, host.res
      ensures Valid() && host.wire.Went() && (ret == 0 <==> Fine()) && host.wire.device == old(host.wire.device)
      ensures ret != 0 ==> Blamed(ret)
      ensures Quiet(trace) == old(Quiet(trace)) && refused == old(refused) && Remembers()
      ensures flashLocked ==> Closed(trace, Lock)
      ensures !flashIndexSelected && dual ==> Closed(trace, SelectFlash(AUTOMATIC))
      ensures flashLocked && Protects(host.chip, o.target) ==> ClosedBy(host.wire.log, |start|, LockRequest())
      ensures !flashIndexSelected && dual ==> ClosedBy(host.wire.log, |start|, IndexRequest(AUTOMATIC))
      ensures ret == 0 ==> flashLocked == o.lock && !flashIndexSelected
      ensures ret == 0 ==> Calls() == old(Calls()) + RestoreCalls(o, dual)
    {
      hide SaneMap, Kept, Begins, ClosedBy, Closed, Quiet, AllGood, CallsOf, LockRequest, IndexRequest, OnlyAutomatic,
           Recorded, ErasesInside, Guarded, Protects, Found, Minded, SaidLocked, Freed, Untouched, Blames;
      ret := 0;
      if o.lock {
        ret := LockNow();
        if ret == 0 {
          flashLocked := true;
        }
      }
      if ret == 0 && dual {
        ret := SelectNow();
        if ret == 0 {
          flashIndexSelected := false;
        }
      }
      OnWire();
    }

    /** Every range is acceptable, and every file could be opened. */
    ghost predicate Granted(files: seq<Reading.Writer?>, table: PartTable)
      requires Small(table.parts)
      reads this, table
    {
      Accepted(o, AreasOf(table.parts), flashSize, logical, flashMap) && Opened(files)
    }

    /** The code of the first range that is not acceptable, or of a file that could not be opened. */
    ghost predicate Refusal(files: seq<Reading.Writer?>, table: PartTable, ret: int)
      requires Small(table.parts)
      reads this, table
    {
      var code := RangeCode(o, AreasOf(table.parts), flashSize, logical, flashMap);
      if code != 0 then ret == code && !Accepted(o, AreasOf(table.parts), flashSize, logical, flashMap)
      else ret == -Reading.ERR_FILE_WRITE_FAILED && !Opened(files)
    }

    lemma Denied(files: seq<Reading.Writer?>, table: PartTable, ret: int)
      requires Small(table.parts)
      ensures Refusal(files, table, ret) ==> !Granted(files, table)
    {
      hide Accepted, RangeCode, Opened;
    }

    /** Detection, validation, and reading back: when it returns 0 everything asked for is acceptable, and until
        then nothing has been changed. */
    method Admit(files: seq<Reading.Writer?>, table: PartTable) returns (ret: int)
      requires Early() && Inputs(files, table)
      requires !logical && !dual && !flashIndexSelected
      modifies this, host.wire, host.req, host.res, host`readStream, host`layoutQueried
      modifies set f | f in files && f != null
      ensures Asking(ret) && flashIndexSelected == dual
      ensures Small(table.parts) && (ret == 0 ==> Knows() && (o.unlock ==> IsFree()))
      ensures if ret == 0 then Granted(files, table) else refused ==> Refusal(files, table, ret)
      ensures ret == 0 && Shows() ==> Delivered(files, old(host.wire.device.store.bytes))
      ensures ret == 0 ==>
        Calls() == old(Calls()) + (PrepareCalls(o, host.chip, logical) + ReadCalls(o.readBack, Held(files)))
    {
      hide Kept, Begins, SaneMap, Allowed, AllowedErase, AllowedPart, Good, CallsOf, PrepareCalls, ReadCalls, Found,
           Minded, SaidLocked, Freed, Untouched, Blames, AllGood, Quiet, Held, Delivered, Reading.ShowsBlocks,
           Reading.ShowsStream;
      var areas := Ranges(table);
      ret := Prepare();
      if ret != 0 {
        return;
      }
      ret := Validate(areas);
      if ret != 0 {
        return;
      }
      InBoundsAll(o, flashSize, logical, flashMap);
      ret := ReadBack(files);
      Onto(old(Calls()), PrepareCalls(o, host.chip, logical), ReadCalls(o.readBack, Held(files)));
    }

    lemma AllWaiting(table: PartTable)
      requires table.Valid() && host.req !in table.Repr && host.res !in table.Repr
      ensures Waiting(table, table.parts, 0)
    {
    }

    /** From the first change to the regular end. */
    method Change(table: PartTable) returns (ret: int, jumpAddr: U32)
      requires Early() && (o.unlock ==> IsFree()) && !flashLocked && flashIndexSelected == dual
      requires table.Valid() && host.req !in table.Repr && host.res !in table.Repr && Small(table.parts)
      requires Accepted(o, AreasOf(table.parts), flashSize, logical, flashMap)
      modifies `trace, `flashLocked, `flashIndexSelected, host.wire, host.req, host.res, table.readers
      ensures Valid() && host.wire.Went() && (ret == 0 <==> Fine()) && refused == old(refused)
      ensures ret != 0 ==> Blamed(ret)
      ensures host.loaderRunning == old(host.loaderRunning)
      ensures !Damages(|table.parts|) ==> (old(Alone()) ==> Alone())
      ensures (old(Knows()) ==> Knows()) && (old(Heeds()) ==> Heeds())
      ensures flashLocked ==> Closed(trace, Lock)
      ensures dual && !flashIndexSelected ==> Closed(trace, SelectFlash(AUTOMATIC))
      ensures ret == 0 ==> flashLocked == o.lock && !flashIndexSelected && jumpAddr == LastJump(o, |table.parts|)
      ensures ret == 0 && Enter.HonestDevice(host.wire.script) ==>
                Memory() == WriteOut(o, host.chip, MediumHere(), Wiped(o, dual, flashMap, old(Memory())), table.parts)
      ensures ret == 0 ==>
        Calls() == old(Calls()) + AlterCalls(o, host.chip, dual, flashMap, WasLocked(), table.parts) + RestoreCalls(o, dual)
    {
      hide Kept, Begins, Enter.HonestDevice, SaneMap, AllowedParts, Accepted, WriteOut, Wiped, Good, Closed, CallsOf,
           AlterCalls, RestoreCalls, AllGood, Quiet, ClosedBy, LockRequest, IndexRequest, Protects, AllowedErases,
           Waiting, Knows, Heeds, WasLocked, IsFree, Alone, Blamed;
      PartsAllowed(o, table.parts, flashSize, logical, flashMap);
      AllWaiting(table);
      ret, jumpAddr := Alter(table);
      if ret != 0 {
        return;
      }
      ret := Restore();
    }

    /** From the connection to the regular end. */
    method Work(files: seq<Reading.Writer?>, table: PartTable) returns (ret: int, jumpAddr: U32)
      requires Early() && Inputs(files, table)
      requires !logical && !dual && !flashIndexSelected && !flashLocked && burnerReady
      modifies this, host.wire, host.req, host.res, host`readStream, host`layoutQueried
      modifies set f | f in files && f != null
      modifies table.readers
      ensures Valid() && host.wire.Went() && burnerReady && (ret == 0 <==> Fine())
      ensures ret != 0 ==> refused || Blamed(ret)
      ensures Small(table.parts) && (!o.unlock && !Damages(|table.parts|) ==> (old(Alone()) ==> Alone()))
      ensures flashLocked ==> Closed(trace, Lock)
      ensures dual && !flashIndexSelected ==> Closed(trace, SelectFlash(AUTOMATIC))
      ensures ret == 0 ==> flashLocked == o.lock && !flashIndexSelected && jumpAddr == LastJump(o, |table.parts|)
      ensures Small(table.parts)
      ensures if ret == 0 then Granted(files, table) else refused ==> Refusal(files, table, ret)
      ensures !Granted(files, table) || !Knows() ==> Quiet(trace) && host.wire.device == old(host.wire.device)
      ensures (old(Heeds()) ==> Heeds()) && (ret == 0 ==> Knows()) && first == old(first)
      ensures ret == 0 && Shows() ==> Delivered(files, old(host.wire.device.store.bytes))
      ensures ret == 0 && Enter.HonestDevice(host.wire.script) ==>
                Memory() == WriteOut(o, host.chip, MediumHere(), Wiped(o, dual, flashMap, old(Memory())), table.parts)
      ensures ret == 0 ==>
                Calls() == old(Calls()) + PrepareCalls(o, host.chip, logical) + ReadCalls(o.readBack, Held(files))
                           + AlterCalls(o, host.chip, dual, flashMap, WasLocked(), table.parts) + RestoreCalls(o, dual)
    {
      hide Kept, Begins, Enter.HonestDevice, SaneMap, AllowedParts, Accepted, WriteOut, Wiped, Good, Closed, CallsOf,
           PrepareCalls, ReadCalls, AlterCalls, RestoreCalls, AllGood, Quiet, ClosedBy, LockRequest, IndexRequest,
           Protects, AllowedErases, Waiting, Knows, Heeds, WasLocked, IsFree, Alone, Blamed, Held, Delivered,
           Reading.ShowsBlocks, Reading.ShowsStream, Opened;
      jumpAddr := 0;
      ret := Admit(files, table);
      if ret != 0 {
        return;
      }
      ret, jumpAddr := Change(table);
      Onto(old(Calls()), PrepareCalls(o, host.chip, logical), ReadCalls(o.readBack, Held(files)));
    }

    /** After an exit with ret0, calls to clean up, whose failure is not hidden, and only when it did not go well. */
    twostate predicate Cleaning(ret0: int, ret: int)
      reads this, host, host.wire
    {
      && Valid() && host.wire.Went() && host.wire.device == old(host.wire.device) && (ret == 0 <==> Fine())
      && Quiet(trace) == old(Quiet(trace)) && refused == old(refused) && Remembers()
      && (if ret0 == 0 then ret == 0 && unchanged(host.wire) && trace == old(trace) else ret == ret0)
      && (old(Blamed(ret0)) ==> Blamed(ret0))
    }

    /** A lock that is still missing. */
    method CleanLock(ret0: int) returns (ret: int)
      requires Valid() && (ret0 == 0 <==> Fine()) && burnerReady
      requires ret0 == 0 ==> flashLocked == o.lock
      requires flashLocked ==> Closed(trace, Lock)
      modifies `trace, host.wire, host.req, host.res
      ensures Cleaning(ret0, ret) && (o.lock ==> Closed(trace, Lock))
      ensures old(Closed(trace, SelectFlash(AUTOMATIC))) ==> Closed(trace, SelectFlash(AUTOMATIC))
    {
      hide SaneMap, Good, Kept, Begins, Closed, Quiet, AllGood, Knows, Heeds, WasLocked, IsFree, Alone, Blamed,
           CallsOf;
      ret := ret0;
      if burnerReady && o.lock && !flashLocked {
        var cleanup := LockNow();
        if cleanup != 0 {
          if ret == 0 {
            ret := cleanup;
          }
        }
      }
    }

    /** The automatic selection that is still missing. */
    method CleanIndex(ret0: int) returns (ret: int)
      requires Valid() && (ret0 == 0 <==> Fine()) && burnerReady
      requires ret0 == 0 ==> !flashIndexSelected
      requires dual && !flashIndexSelected ==> Closed(trace, SelectFlash(AUTOMATIC))
      modifies `trace, host.wire, host.req, host.res
      ensures Cleaning(ret0, ret) && (dual ==> Closed(trace, SelectFlash(AUTOMATIC)))
      ensures old(Closed(trace, Lock)) ==> Closed(trace, Lock)
    {
      hide SaneMap, Good, Kept, Begins, Closed, Quiet, AllGood, Knows, Heeds, WasLocked, IsFree, Alone, Blamed,
           CallsOf;
      ret := ret0;
      if burnerReady && flashIndexSelected {
        var cleanup := SelectNow();
        if cleanup != 0 {
          if ret == 0 {
            ret := cleanup;
          }
        }
      }
    }

    /** The label err_enter: what has not been locked and reset yet. */
    method CleanUp(ret0: int) returns (ret: int)
      requires Valid() && (ret0 == 0 <==> Fine()) && burnerReady
      requires ret0 == 0 ==> flashLocked == o.lock && !flashIndexSelected
      requires flashLocked ==> Closed(trace, Lock)
      requires dual && !flashIndexSelected ==> Closed(trace, SelectFlash(AUTOMATIC))
      modifies `trace, host.wire, host.req, host.res
      ensures Cleaning(ret0, ret)
      ensures o.lock ==> Closed(trace, Lock)
      ensures dual ==> Closed(trace, SelectFlash(AUTOMATIC))
      ensures o.lock && Protects(host.chip, o.target) ==> ClosedBy(host.wire.log, |start|, LockRequest())
      ensures dual ==> ClosedBy(host.wire.log, |start|, IndexRequest(AUTOMATIC))
      ensures OnlyAutomatic(host.wire.log, |start|)
    {
      hide SaneMap, Good, Kept, Begins, ClosedBy, Closed, Quiet, AllGood, OnlyAutomatic, LockRequest, IndexRequest,
           Knows, Heeds, WasLocked, IsFree, Alone, Blamed, CallsOf, Recorded, ErasesInside, Guarded, Protects;
      ret := CleanLock(ret0);
      ret := CleanIndex(ret);
      OnWire();
    }

    /** What follows a connection: the work, and what follows it. */
    method Proceed(files: seq<Reading.Writer?>, table: PartTable) returns (ret: int)
      requires Early() && Inputs(files, table)
      requires !logical && !dual && !flashIndexSelected && !flashLocked && burnerReady
      modifies this, host.wire, host.req, host.res, host`readStream, host`layoutQueried
      modifies set f | f in files && f != null
      modifies table.readers
      ensures Valid() && burnerReady && (ret == 0 <==> Fine()) && Small(table.parts)
      ensures ret != 0 ==> refused || Blamed(ret)
      ensures Small(table.parts) && (!o.unlock && !Damages(|table.parts|) ==> (old(Alone()) ==> Alone()))
      ensures old(host.wire.InStep()) ==> host.wire.inStep
      ensures if ret == 0 then Granted(files, table) else refused ==> Refusal(files, table, ret)
      ensures !Granted(files, table) || !Knows() ==> Quiet(trace) && host.wire.device.store == old(host.wire.device.store)
      ensures (old(Heeds()) ==> Heeds()) && (ret == 0 ==> Knows()) && first == old(first)
      ensures o.lock && Protects(host.chip, o.target) ==> ClosedBy(host.wire.log, |start|, LockRequest())
      ensures dual ==> ClosedBy(host.wire.log, |start|, IndexRequest(AUTOMATIC))
      ensures OnlyAutomatic(host.wire.log, |start|)
      ensures o.lock ==> Closed(trace, Lock)
      ensures dual ==> Closed(trace, SelectFlash(AUTOMATIC))
      ensures host.wire.device.medium == old(host.wire.device.medium)
      ensures host.wire.toggles == old(host.wire.toggles) + LastResets(o, |table.parts|, ret)
      ensures ret == 0 && Shows() ==> Delivered(files, old(host.wire.device.store.bytes))
      ensures ret == 0 && Enter.HonestDevice(host.wire.script) ==>
                Memory() == WriteOut(o, host.chip, MediumHere(), Wiped(o, dual, flashMap, old(Memory())), table.parts)
      ensures ret == 0 ==>
                Calls() == old(Calls()) + PrepareCalls(o, host.chip, logical) + ReadCalls(o.readBack, Held(files))
                           + AlterCalls(o, host.chip, dual, flashMap, WasLocked(), table.parts) + RestoreCalls(o, dual)
    {
      hide Enter.HonestDevice, SaneMap, Accepted, WriteOut, Wiped, Good, Closed, Quiet, AllGood, CallsOf,
           PrepareCalls, ReadCalls, AlterCalls, RestoreCalls, Kept, ClosedBy, OnlyAutomatic, LockRequest,
           IndexRequest, Protects, Knows, Heeds, WasLocked, IsFree, Alone, Blamed, Held, Delivered,
           Reading.ShowsBlocks, Reading.ShowsStream, Opened;
      var jumpAddr;
      ret, jumpAddr := Work(files, table);
      ret := Finish(ret, jumpAddr);
    }

    /** What follows the work: the reset, and the clean-up. */
    method Finish(ret0: int, jumpAddr: U32) returns (ret: int)
      requires Valid() && (ret0 == 0 <==> Fine()) && burnerReady
      requires ret0 == 0 ==> flashLocked == o.lock && !flashIndexSelected
      requires flashLocked ==> Closed(trace, Lock)
      requires dual && !flashIndexSelected ==> Closed(trace, SelectFlash(AUTOMATIC))
      modifies `trace, host.wire, host.req, host.res
      ensures Valid() && (ret == 0 <==> Fine()) && ret == ret0 && (ret == 0 ==> trace == old(trace))
      ensures old(Blamed(ret0)) ==> Blamed(ret0)
      ensures Quiet(trace) == old(Quiet(trace)) && refused == old(refused) && Remembers()
      ensures host.wire.device == old(host.wire.device).(speed := host.wire.device.speed)
      ensures host.wire.toggles == old(host.wire.toggles) + if ret != 0 || (jumpAddr == 0 && !o.noReset) then 1 else 0
      ensures old(host.wire.InStep()) ==> host.wire.inStep
      ensures o.lock && Protects(host.chip, o.target) ==> ClosedBy(host.wire.log, |start|, LockRequest())
      ensures dual ==> ClosedBy(host.wire.log, |start|, IndexRequest(AUTOMATIC))
      ensures OnlyAutomatic(host.wire.log, |start|)
      ensures (o.lock ==> Closed(trace, Lock)) && (dual ==> Closed(trace, SelectFlash(AUTOMATIC)))
    {
      hide SaneMap, Good, Kept, Begins, ClosedBy, Closed, Quiet, AllGood, OnlyAutomatic, LockRequest, IndexRequest,
           Knows, Heeds, WasLocked, IsFree, Alone, Blamed, CallsOf, Protects;
      ret := ret0;
      if ret == 0 && jumpAddr == 0 && !o.noReset {
        var ignored := host.wire.Reset();
      }
      ret := CleanUp(ret);
      if ret != 0 {
        var ignored := host.wire.Reset();
      }
    }

    /** The connection. */
    method Begin() returns (ret: int)
      requires Valid() && trace == [] && !refused && !burnerReady && !logical && o.connect.Valid()
      modifies `trace, `first, `burnerReady, host, host.wire, host.req, host.res
      ensures Valid() && Quiet(trace) && (ret == 0 <==> Fine()) && burnerReady == (ret == 0)
      ensures ret != 0 ==> Blamed(ret)
      ensures trace != [] && Calls() == [DoConnect] && Heeds() && !WasLocked() && Alone()
      ensures Joined(host.wire, first, o, host.chip, old(host.wire.toggles), host.wire.toggles) && first.ret == ret
      ensures first.call.DoConnect?
      ensures host.wire.device.store == old(host.wire.device.store) && host.wire.device.medium == old(host.wire.device.medium)
      ensures ret == 0 ==> Enter.Loaded(host, o.connect)
      ensures old(Enter.Steady(host.wire, o.connect)) ==> host.wire.inStep && (ret == 0 ==> host.wire.InStep())
    {
      hide Enter.HonestDevice, SaneMap, Kept, Begins, Found, Minded, SaidLocked, Freed, Untouched, Blames,
           Handshake.Attempted, Handshake.AttemptsTalk, Enter.Loaded;
      ghost var before, from := host.wire.log, host.wire.toggles;
      ghost var attempts;
      ret, attempts := Enter.SerialConnect(host, o.connect);
      ghost var port := Enter.PortOf(host.wire, o.connect.baud);
      ghost var resets := Enter.ResetCodes(host.wire, from, host.wire.toggles);
      Handshake.ConnectedBy(attempts, o.connect, host.chip, port, resets, ret);
      ConnectIsTold(host.wire.log[|before|..], port, resets, ret, o, host.chip);
      first := Step(DoConnect, ret, host.wire.log[|before|..]);
      BeginsNone(first);
      Log(DoConnect, ret, before);
      MindedFirst(trace[0], o, host.chip, flashMap);
      assert trace == [trace[0]] && Calls() == [trace[0].call];
      burnerReady := ret == 0;
    }

    /** serial_burn, for an opened port. */
    method Run(files: seq<Reading.Writer?>, table: PartTable) returns (ret: int)
      requires Valid() && trace == [] && !refused && Inputs(files, table)
      requires !logical && !dual && !flashIndexSelected && !flashLocked && !burnerReady && o.connect.Valid()
      modifies this, host, host.wire, host.req, host.res
      modifies set f | f in files && f != null
      modifies table.readers
      ensures Valid() && Small(table.parts)
      // It returns 0 exactly when every range is acceptable, every file could be opened, and no call has failed, but for the
      // failures it may go on after; a call fails also when the digests of a comparison differ, and when there is no card.
      ensures ret == 0 <==> AllGood(trace, o, host.chip) && Granted(files, table)
      // Any other code is that of the first call that failed, of the first range that is not acceptable, or of a file; no
      // failure of the clean-up hides it.
      ensures ret != 0 ==> Blamed(ret) || Refusal(files, table, ret)
      // Calls and requests are in order: they agree, flashes are only selected automatically, erases stay inside, and a lock
      // comes off before anything changes. Where nothing is to be erased or written, only --unlock unlocks.
      ensures Orderly()
      ensures !o.unlock && !Damages(|table.parts|) ==> Alone()
      // When it returns 0 it has made exactly the calls of the plan, in order.
      ensures ret == 0 ==>
                Calls() == Plan(o, host.chip, logical, dual, flashMap, WasLocked(), Held(files), table.parts)
      // Nothing is erased or written unless every range has been accepted, for the size and the layout that the device has
      // told; and a layout that it has told is the one that counts.
      ensures !Granted(files, table) || !Knows() ==> Quiet(trace) && host.wire.device.store == old(host.wire.device.store)
      ensures (ret == 0 ==> Knows()) && Heeds()
      // The first request connects, with a reset before every further attempt, and another reset comes last after any
      // failure, and after a success when it is wanted.
      ensures trace != [] && Begins(trace, first)
      ensures Joined(host.wire, first, o, host.chip, old(host.wire.toggles),
                     host.wire.toggles - LastResets(o, |table.parts|, ret))
      ensures burnerReady == (first.ret == 0)
      // On every exit after the connection, a lock command follows the last request that changes the flash, and so does
      // the automatic selection of flashes, which are never selected otherwise.
      ensures o.lock && burnerReady && Protects(host.chip, o.target) ==> ClosedBy(host.wire.log, |start|, LockRequest())
      ensures dual ==> ClosedBy(host.wire.log, |start|, IndexRequest(AUTOMATIC))
      ensures forall i :: 0 <= i < |trace| && TellsTwo(trace[i], host.chip) ==>
                ClosedBy(host.wire.log, |start|, IndexRequest(AUTOMATIC))
      ensures (o.lock && burnerReady ==> Closed(trace, Lock)) && (dual ==> Closed(trace, SelectFlash(AUTOMATIC)))
      // Host and device had the same speed at every command.
      ensures old(Enter.Steady(host.wire, o.connect)) ==> host.wire.inStep
      // What the files hold in the end.
      ensures ret == 0 && Shows() ==> Delivered(files, old(host.wire.device.store.bytes))
      // What the memory holds in the end: on any medium the partitions in order, on a flash burned.
      ensures ret == 0 && Enter.HonestDevice(host.wire.script) && !o.target.ToRam? ==>
                host.wire.device.store.bytes
                == WriteOut(o, host.chip, host.wire.device.medium,
                            Wiped(o, dual, flashMap, old(host.wire.device.store.bytes)), table.parts)
      ensures ret == 0 && Enter.HonestDevice(host.wire.script) && o.target.ToRam? ==> InRam(table.parts)
      ensures ret == 0 && Enter.HonestDevice(host.wire.script) && o.target.ToFlash?
              && ErasesItself(host.chip, host.wire.device.medium) ==>
                host.wire.device.store.bytes
                == BurnAll(Wiped(o, dual, flashMap, old(host.wire.device.store.bytes)), table.parts)
    {
      hide Enter.HonestDevice, SaneMap, Accepted, BurnAll, WriteOut, Wiped, Closed, PrepareCalls, ReadCalls,
           AlterCalls, RestoreCalls, Kept, Begins, Joined, ClosedBy, OnlyAutomatic, Orderly, CallsOf, AllGood, Quiet,
           Enter.Steady, Knows, Heeds, WasLocked, IsFree, Alone, Blamed, Held, Delivered, Reading.ShowsBlocks,
           Reading.ShowsStream, Granted, Enter.LoaderIn, TellsTwo, InRam, Refusal;
      SmallParts(table);
      ret := Begin();
      if ret != 0 {
        OnWire();
        HeedTwo();
        var ignored := host.wire.Reset();
        Order();
        return;
      }
      ghost var ram := host.wire.device.ram.bytes;
      ret := Proceed(files, table);
      Denied(files, table, ret);
      OnWire();
      HeedTwo();
      Order();
      if ret == 0 && o.target.ToRam? && Enter.HonestDevice(host.wire.script) {
        OnTop(ram, table.parts);
      }
      if o.target.ToFlash? && ErasesItself(host.chip, host.wire.device.medium) {
        WriteOutBurns(o, host.chip, host.wire.device.medium,
                      Wiped(o, dual, flashMap, old(host.wire.device.store.bytes)), table.parts);
      }
    }

    /** The RAM holds the partitions on top of what was there with the loader. */
    ghost predicate InRam(parts: seq<Part>)
      requires Valid()
      reads this, host, host.wire
    {
      exists ram: Flash ::
        && (|o.connect.Image()| <= 0xFFFF_F800 ==> Enter.LoaderIn(ram, Handshake.LoadAddr(host.chip), o.connect.Image()))
        && host.wire.device.ram.bytes == WriteOut(o, host.chip, Rewritable, Wiped(o, dual, flashMap, ram), parts)
    }

    lemma OnTop(ram: Flash, parts: seq<Part>)
      requires Valid()
      requires |o.connect.Image()| <= 0xFFFF_F800 ==>
                 Enter.LoaderIn(ram, Handshake.LoadAddr(host.chip), o.connect.Image())
      requires host.wire.device.ram.bytes == WriteOut(o, host.chip, Rewritable, Wiped(o, dual, flashMap, ram), parts)
      ensures InRam(parts)
    {
      hide Kept, Begins, SaneMap, WriteOut, Wiped, Enter.LoaderIn;
    }

    /** Two flashes that were told are known. */
    lemma HeedTwo()
      requires Valid() && Heeds()
      ensures forall i :: 0 <= i < |trace| && TellsTwo(trace[i], host.chip) ==> dual
    {
      hide Kept, Begins, SaneMap, Minded, TellsTwo;
      forall i | 0 <= i < |trace| && TellsTwo(trace[i], host.chip) ensures dual {
        TwoMinded(trace, host.chip, logical, flashMap, i);
      }
    }
  }
}
