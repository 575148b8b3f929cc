/** Reading the flash back, in small blocks or as a stream with cumulative acknowledgements. */
module Reading {
  import opened Bytes
  import opened Protocol
  import opened Cmd
  import opened Core
  import opened Api
  import Md5Spec
  import Serial

  const ERR_FILE_WRITE_FAILED: int := 2002
  const ERR_FLASH_READ_FAILED: int := 7001
  const ERR_EMMC_READ_FAILED: int := 7006

  const FLASH_READ_SIZE: nat := 64
  const EMMC_READ_SIZE: nat := 4096
  const FLASH_READ_STREAM_BLOCK: U32 := 4096
  const FLASH_READ_STREAM_WINDOW: U32 := 64

  /** A file that is written; each write may take fewer bytes than it was given. */
  class Writer {
    var written: seq<Byte>
    var accepts: seq<nat>

    constructor (accepts: seq<nat>)
      ensures written == [] && this.accepts == accepts
    {
      written, this.accepts := [], accepts;
    }

    method Write(data: seq<Byte>) returns (n: nat)
      modifies this
      ensures n <= |data| && written == old(written) + data[..n]
    {
      n := if |accepts| > 0 && accepts[0] < |data| then accepts[0] else |data|;
      accepts := if |accepts| > 0 then accepts[1..] else [];
      written := written + data[..n];
    }
  }

  // ---- Block by block ----

  function ReadOp(target: Target): (op: Byte)
    ensures IsHarmless(op) && IsOpcode(op)
  {
    if target.ToEmmc? then CMD_EMMC_READ_DATA else CMD_READ_FLASH
  }

  function ReadLimit(target: Target): (n: nat)
    ensures 0 < n <= FLASH_BLOCK_SIZE
  {
    if target.ToEmmc? then EMMC_READ_SIZE else FLASH_READ_SIZE
  }

  /** The block that the device sends for a range. */
  function BlockReply(e: Exchange, target: Target, n: nat, errorFirst: bool): (int, seq<Byte>)
    requires GoodEvents(e.events) && n <= ReadLimit(target)
  {
    QueryOf(e, ReadOp(target), n, ReadLimit(target), true, errorFirst)
  }

  /** A device whose blocks show what it holds. */
  ghost predicate ShowsBlocks(script: Script, errorFirst: bool)
    requires GoodScript(script)
  {
    forall t: nat, d: Device, request: seq<Byte>, target: Target, addr: U32, n: U32 ::
      n <= ReadLimit(target) && AsksRange(request, ReadOp(target), addr, n) && addr as int + n <= |d.store.bytes| ==>
        var q := BlockReply(script(t, d, request), target, n, errorFirst);
        q.0 == 0 ==> q.1 == d.store.bytes[addr..addr as int + n]
  }

  function ReadRequest(target: Target, addr: U32, n: U32): seq<Byte> { Request(ReadOp(target), 0, RangeBody(addr, n)) }

  /** What reading a block of n bytes makes of its exchange. */
  ghost function BlockCode(d: Dialogue, target: Target, n: nat, errorFirst: bool): int {
    if n <= ReadLimit(target) && GoodEvents(d.exchange.events) then
      QueryOf(d.exchange, ReadOp(target), n, ReadLimit(target), true, errorFirst).0
    else -Serial.EINVAL
  }

  /** The exchange has brought the n bytes from addr on. */
  ghost predicate BlockRead(d: Dialogue, target: Target, addr: U32, n: nat, errorFirst: bool) {
    n <= ReadLimit(target) && d.request == ReadRequest(target, addr, n) && BlockCode(d, target, n, errorFirst) == 0
  }

  /** The exchange has brought the next full block of the range, or the rest of it. */
  ghost predicate NextRead(d: Dialogue, target: Target, addr: U32, size: nat, from: nat, offset: nat, errorFirst: bool) {
    && from < offset <= size && offset - from == Least(size - from, ReadLimit(target))
    && BlockRead(d, target, Wrap(addr + from), offset - from, errorFirst)
  }

  /** The exchanges have brought the first bytes of the range up to an offset, one block after another. */
  ghost predicate BlocksRead(talk: seq<Dialogue>, target: Target, addr: U32, size: nat, offset: nat, errorFirst: bool)
    decreases |talk|
  {
    if talk == [] then offset == 0
    else
      var k := |talk| - 1;
      exists from: nat :: NextRead(talk[k], target, addr, size, from, offset, errorFirst)
                          && BlocksRead(talk[..k], target, addr, size, from, errorFirst)
  }

  lemma BlocksReadNext(talk: seq<Dialogue>, d: Dialogue, target: Target, addr: U32, size: nat, from: nat, offset: nat,
      errorFirst: bool)
    requires BlocksRead(talk, target, addr, size, from, errorFirst)
    requires NextRead(d, target, addr, size, from, offset, errorFirst)
    ensures BlocksRead(talk + [d], target, addr, size, offset, errorFirst)
  {
    hide NextRead;
    var all := talk + [d];
    assert all[..|all| - 1] == talk && all[|all| - 1] == d;
  }

  lemma BlockReadNext(talk: seq<Dialogue>, d: Dialogue, target: Target, addr: U32, size: U32, from: U32, want: U32,
      errorFirst: bool)
    requires BlocksRead(talk, target, addr, size, from, errorFirst) && from < size
    requires want == Least(size as int - from, ReadLimit(target))
    requires BlockRead(d, target, Wrap(addr as int + from), want, errorFirst)
    ensures BlocksRead(talk + [d], target, addr, size, from as int + want, errorFirst)
  {
    hide BlockRead, Wrap, BlocksRead;
    BlocksReadNext(talk, d, target, addr, size, from, from as int + want, errorFirst);
  }

  lemma NothingRead(chip: Chip, target: Target, addr: U32, size: U32, errorFirst: bool)
    ensures ReadSoFar([], chip, target, addr, size, 0, errorFirst)
  {
  }

  function LegacyOps(target: Target): set<Byte> { {ReadOp(target), Md5Op(DigestTarget(target))} }

  /** Without a flash, the digest is that of the eMMC. */
  function DigestTarget(target: Target): Target { if target.ToFlash? then ToFlash else ToEmmc }

  /** Targets that can be read in blocks. */
  predicate ReadsBlocks(chip: Chip, target: Target) { target.ToFlash? || (target.ToEmmc? && SupportsEmmc(chip)) }

  function ReadError(target: Target): (code: int)
    ensures code > 0
  {
    if target.ToEmmc? then ERR_EMMC_READ_FAILED else ERR_FLASH_READ_FAILED
  }

  /** The next block of the range has been asked for, and not been answered well. */
  ghost predicate ReadFails(d: Dialogue, target: Target, addr: U32, size: nat, from: nat, errorFirst: bool, ret: int) {
    && from < size
    && var want := Least(size - from, ReadLimit(target));
    && d.request == ReadRequest(target, Wrap(addr + from), want)
    && BlockCode(d, target, want, errorFirst) != 0
    && ret == Mapped(BlockCode(d, target, want, errorFirst), ReadError(target))
  }

  /** The file has taken less than what the exchanges have brought. */
  ghost predicate FileShort(talk: seq<Dialogue>, target: Target, addr: U32, size: nat, errorFirst: bool, n: nat) {
    exists offset: nat :: n < offset && BlocksRead(talk, target, addr, size, offset, errorFirst)
  }

  /** How the loop over the blocks fails, with n bytes in the file: the target has no blocks, a block is not answered
      well, or the file does not take it. */
  ghost predicate ReadStops(talk: seq<Dialogue>, chip: Chip, target: Target, addr: U32, size: nat, errorFirst: bool, ret: int,
      n: nat)
  {
    || (talk == [] && n == 0 < size && !ReadsBlocks(chip, target) && ret == -Serial.EINVAL)
    || (talk != [] && BlocksRead(talk[..|talk| - 1], target, addr, size, n, errorFirst)
        && ReadFails(talk[|talk| - 1], target, addr, size, n, errorFirst, ret))
    || (FileShort(talk, target, addr, size, errorFirst, n) && ret == -ERR_FILE_WRITE_FAILED)
  }

  /** What reading in blocks says, and what it returns with n bytes in the file: the blocks of the range in order, and
      then the digest when it is asked for. */
  ghost predicate LegacyTold(talk: seq<Dialogue>, chip: Chip, target: Target, addr: U32, size: U32, wantMd5: bool,
      errorFirst: bool, ret: int, md5: seq<Byte>, n: nat)
  {
    && OnlyOps(talk, LegacyOps(target))
    && (|| (ret != 0 && md5 == [] && ReadStops(talk, chip, target, addr, size, errorFirst, ret, n))
        || (n == size && !wantMd5 && ret == 0 && md5 == [] && BlocksRead(talk, target, addr, size, size, errorFirst))
        || (n == size && wantMd5 && talk != [] && BlocksRead(talk[..|talk| - 1], target, addr, size, size, errorFirst)
            && DigestTold([talk[|talk| - 1]], DigestTarget(target), addr, size, errorFirst, ret, md5)))
  }

  method ReadOne(host: Host, target: Target, addr: U32, n: U32) returns (ret: int, data: seq<Byte>)
    requires host.Valid() && 0 < n <= ReadLimit(target)
    modifies host.wire, host.req, host.res
    ensures host.Valid() && Asked(host.wire) && (ret == 0 ==> |data| == n)
    ensures host.wire.Spoke(ReadRequest(target, addr, n))
    ensures ret == BlockCode(host.wire.Talk()[0], target, n, host.ErrorFirst())
    ensures ret == 0 && ShowsBlocks(host.wire.script, host.ErrorFirst())
            && addr as int + n <= |host.wire.device.store.bytes| ==>
              data == host.wire.device.store.bytes[addr..addr as int + n]
  {
    hide QueryOf, Reaction, Request, Outcome, AsksRange;
    ghost var r := Request(ReadOp(target), 0, RangeBody(addr, n));
    RangeAsked(ReadOp(target), addr, n, []);
    assert RangeBody(addr, n) + [] == RangeBody(addr, n);
    HarmlessReaction(host.wire.Next(r), host.wire.device, ReadOp(target), RangeBody(addr, n));
    ghost var q := BlockReply(host.wire.Next(r), target, n, host.ErrorFirst());
    ret, data := host.ReadBlock(ReadOp(target), addr, n, ReadLimit(target));
    assert (ret, data) == q;
  }

  /** What has been written is what was there before, and then the first n bytes from addr on. */
  ghost predicate Copied(before: seq<Byte>, now: seq<Byte>, memory: seq<Byte>, addr: nat, n: nat)
    requires addr + n <= |memory|
  {
    now == before + memory[addr..addr + n]
  }

  lemma CopiedNext(before: seq<Byte>, now: seq<Byte>, memory: seq<Byte>, addr: nat, n: nat, more: seq<Byte>, k: nat)
    requires addr + n + |more| <= |memory| && Copied(before, now, memory, addr, n)
    requires more == memory[addr + n..addr + n + |more|] && k <= |more|
    ensures Copied(before, now + more[..k], memory, addr, n + k)
  {
    assert memory[addr..addr + n] + more[..k] == memory[addr..addr + n + k];
    assert before + memory[addr..addr + n] + more[..k] == before + (memory[addr..addr + n] + more[..k]);
  }

  /** One block of cskburn_serial_read_legacy; n bytes have been written before. */
  method CopyBlock(host: Host, target: Target, addr: U32, want: U32, writer: Writer, ghost before: seq<Byte>,
      ghost start: nat, ghost n: nat)
    returns (ret: int, ghost n': nat)
    requires host.Valid() && 0 < want <= ReadLimit(target) && addr == Wrap(start + n)
    requires |writer.written| == |before| + n
    modifies host.wire, host.req, host.res, writer
    ensures host.Valid() && Asked(host.wire) && n <= n' <= n + want && (ret == 0 ==> n' == n + want)
    ensures |writer.written| == |before| + n'
    ensures host.wire.Spoke(ReadRequest(target, addr, want))
    ensures var code := BlockCode(host.wire.Talk()[0], target, want, host.ErrorFirst());
      if code != 0 then ret == Mapped(code, ReadError(target)) && n' == n
      else ret == if n' == n + want then 0 else -ERR_FILE_WRITE_FAILED
    ensures var memory := old(host.wire.device.store.bytes);
      ShowsBlocks(host.wire.script, host.ErrorFirst()) && start + n + want <= |memory| && start + n + want <= 0x1_0000_0000
      && old(Copied(before, writer.written, memory, start, n)) ==>
        Copied(before, writer.written, memory, start, n')
  {
    hide QueryOf, Request, ReadLimit, ReadOp, ShowsBlocks, Copied, BlockCode, ReadRequest;
    if start + n + want <= 0x1_0000_0000 {
      WrapBelow(start + n);
    }
    ghost var memory, was := host.wire.device.store.bytes, writer.written;
    n' := n;
    var data;
    ret, data := ReadOne(host, target, addr, want);
    if ret != 0 {
      return Mapped(ret, ReadError(target)), n;
    }
    var k := writer.Write(data);
    n' := n + k;
    if ShowsBlocks(host.wire.script, host.ErrorFirst()) && start + n + want <= |memory|
       && start + n + want <= 0x1_0000_0000 && Copied(before, was, memory, start, n) {
      CopiedNext(before, was, memory, start, n, data, k);
    }
    if k != want {
      return -ERR_FILE_WRITE_FAILED, n';
    }
  }

  lemma WrapBelow(x: int)
    requires 0 <= x < 0x1_0000_0000
    ensures Wrap(x) == x
  {
  }

  lemma CopiedNone(before: seq<Byte>, memory: seq<Byte>, addr: nat)
    requires addr <= |memory|
    ensures Copied(before, before, memory, addr, 0)
  {
  }

  /** One turn of the loop: the next block goes into the file. */
  method CopyNext(host: Host, target: Target, addr: U32, size: U32, offset: U32, writer: Writer, ghost before: seq<Byte>,
      ghost talk: seq<Dialogue>)
    returns (ret: int, next: U32, ghost n: nat, ghost talk': seq<Dialogue>)
    requires host.Valid() && offset < size && |writer.written| == |before| + offset
    requires ReadSoFar(talk, host.chip, target, addr, size, offset, host.ErrorFirst())
    modifies host.wire, host.req, host.res, writer
    ensures host.Valid() && Asked(host.wire) && n <= size && |writer.written| == |before| + n
    ensures talk' == talk + host.wire.Talk() && OnlyOps(talk', LegacyOps(target))
    ensures ret == 0 ==> offset < next <= size && n == next
                         && ReadSoFar(talk', host.chip, target, addr, size, next, host.ErrorFirst())
    ensures ret != 0 ==> ReadStops(talk', host.chip, target, addr, size, host.ErrorFirst(), ret, n)
    ensures var memory := old(host.wire.device.store.bytes);
      ShowsBlocks(host.wire.script, host.ErrorFirst()) && Lies(addr, size, memory)
      && old(Copied(before, writer.written, memory, addr, offset)) ==>
        Copied(before, writer.written, memory, addr, n)
  {
    hide ReadLimit, ReadOp, ShowsBlocks, Copied, BlockCode, Request, OnlyOps, ReadRequest, LegacyOps, Wrap, ReadStops,
         ReadSoFar;
    ghost var start := host.wire.log;
    next, n, talk' := offset, offset, talk;
    var want: U32 := Least(size as int - offset, ReadLimit(target));
    if !target.ToFlash? && !(target.ToEmmc? && SupportsEmmc(host.chip)) {
      NotRead(talk, host.chip, target, addr, size, offset, host.ErrorFirst());
      assert talk + start[|start|..] == talk;
      return -Serial.EINVAL, next, n, talk';
    }
    ret, n := CopyBlock(host, target, Wrap(addr as int + offset), want, writer, before, addr, offset);
    ghost var d := host.wire.log[|start|];
    assert host.wire.log[|start|..] == [d];
    BlockEnded(talk, d, host.chip, target, addr, size, offset, want, host.ErrorFirst(), ret, n);
    talk' := talk + [d];
    next := offset as int + want;
  }

  /** The loop of cskburn_serial_read_legacy. */
  method CopyBlocks(host: Host, target: Target, addr: U32, size: U32, writer: Writer)
    returns (ret: int, ghost n: nat)
    requires host.Valid()
    modifies host.wire, host.req, host.res, writer
    ensures host.Valid() && Asked(host.wire) && n <= size && (ret == 0 ==> n == size)
    ensures |writer.written| == |old(writer.written)| + n
    ensures OnlyOps(host.wire.Talk(), LegacyOps(target))
    ensures if ret == 0 then BlocksRead(host.wire.Talk(), target, addr, size, size, host.ErrorFirst())
            else ReadStops(host.wire.Talk(), host.chip, target, addr, size, host.ErrorFirst(), ret, n)
    ensures var memory := old(host.wire.device.store.bytes);
      ShowsBlocks(host.wire.script, host.ErrorFirst()) && Lies(addr, size, memory) ==>
        Copied(old(writer.written), writer.written, memory, addr, n)
  {
    hide ReadLimit, ShowsBlocks, Copied, BlocksRead, OnlyOps, LegacyOps, Lies, ReadStops, ReadSoFar;
    ghost var memory, before, start := host.wire.device.store.bytes, writer.written, host.wire.log;
    ghost var shows := ShowsBlocks(host.wire.script, host.ErrorFirst()) && Lies(addr, size, memory);
    ghost var talk: seq<Dialogue> := [];
    assert start == start + talk;
    NothingRead(host.chip, target, addr, size, host.ErrorFirst());
    n := 0;
    var offset: U32 := 0;
    ret := 0;
    if shows {
      LiesInside(addr, size, memory);
      CopiedNone(before, memory, addr);
    }
    while offset < size
      invariant offset <= size && n == offset && host.Valid() && Asked(host.wire) && ret == 0
      invariant |writer.written| == |before| + n
      invariant shows ==> Copied(before, writer.written, memory, addr, n)
      invariant host.wire.log == start + talk
      invariant ReadSoFar(talk, host.chip, target, addr, size, offset, host.ErrorFirst())
      decreases size as int - offset
    {
      ghost var log := host.wire.log;
      ghost var was := talk;
      ret, offset, n, talk := CopyNext(host, target, addr, size, offset, writer, before, talk);
      LogMore(start, was, log, host.wire.log);
      if ret != 0 {
        return;
      }
    }
    assert host.wire.log[|start|..] == talk;
    ReadEnds(talk, host.chip, target, addr, size, host.ErrorFirst());
  }

  /** The blocks up to an offset have been read. */
  ghost predicate ReadSoFar(talk: seq<Dialogue>, chip: Chip, target: Target, addr: U32, size: U32, offset: nat,
      errorFirst: bool)
  {
    && OnlyOps(talk, LegacyOps(target)) && BlocksRead(talk, target, addr, size, offset, errorFirst)
    && (if talk == [] then offset == 0 else ReadsBlocks(chip, target))
  }

  lemma NotRead(talk: seq<Dialogue>, chip: Chip, target: Target, addr: U32, size: U32, offset: nat, errorFirst: bool)
    requires ReadSoFar(talk, chip, target, addr, size, offset, errorFirst) && !ReadsBlocks(chip, target) && size > 0
    ensures offset == 0 && OnlyOps(talk, LegacyOps(target))
    ensures ReadStops(talk, chip, target, addr, size, errorFirst, -Serial.EINVAL, 0)
  {
    hide BlocksRead, ReadsBlocks, OnlyOps;
  }

  lemma ReadEnds(talk: seq<Dialogue>, chip: Chip, target: Target, addr: U32, size: U32, errorFirst: bool)
    requires ReadSoFar(talk, chip, target, addr, size, size, errorFirst)
    ensures OnlyOps(talk, LegacyOps(target)) && BlocksRead(talk, target, addr, size, size, errorFirst)
  {
    hide BlocksRead, OnlyOps;
  }

  /** One turn of the loop: the blocks go on, or stop here. */
  lemma BlockEnded(talk: seq<Dialogue>, d: Dialogue, chip: Chip, target: Target, addr: U32, size: U32, from: U32, want: U32,
      errorFirst: bool, ret: int, n: nat)
    requires ReadSoFar(talk, chip, target, addr, size, from, errorFirst) && from < size && ReadsBlocks(chip, target)
    requires want == Least(size as int - from, ReadLimit(target))
    requires d.request == ReadRequest(target, Wrap(addr as int + from), want) && from <= n <= from as int + want
    requires var code := BlockCode(d, target, want, errorFirst);
      if code != 0 then ret == Mapped(code, ReadError(target)) && n == from
      else ret == if n == from as int + want then 0 else -ERR_FILE_WRITE_FAILED
    ensures ret == 0 ==> ReadSoFar(talk + [d], chip, target, addr, size, from as int + want, errorFirst)
    ensures OnlyOps(talk + [d], LegacyOps(target))
    ensures ret != 0 ==> ReadStops(talk + [d], chip, target, addr, size, errorFirst, ret, n)
  {
    hide BlockCode, Wrap, BlocksRead, ReadRequest, OnlyOps, ReadsBlocks, LegacyOps;
    OneMore(talk, d, target, Wrap(addr as int + from), want);
    var all := talk + [d];
    assert all[..|all| - 1] == talk && all[|all| - 1] == d;
    if BlockCode(d, target, want, errorFirst) == 0 {
      BlockReadNext(talk, d, target, addr, size, from, want, errorFirst);
    }
  }

  /** cskburn_serial_read_legacy: at any exit a prefix of the range has been written, and all of it on success. */
  method ReadLegacy(host: Host, target: Target, addr: U32, size: U32, writer: Writer, wantMd5: bool)
    returns (ret: int, md5: seq<Byte>, ghost n: nat)
    requires host.Valid()
    modifies host.wire, host.req, host.res, writer
    ensures host.Valid() && Asked(host.wire) && n <= size && (ret == 0 ==> n == size)
    ensures |writer.written| == |old(writer.written)| + n
    ensures LegacyTold(host.wire.Talk(), host.chip, target, addr, size, wantMd5, host.ErrorFirst(), ret, md5, n)
    ensures var memory := old(host.wire.device.store.bytes);
      ShowsBlocks(host.wire.script, host.ErrorFirst()) && Lies(addr, size, memory) ==>
        Copied(old(writer.written), writer.written, memory, addr, n)
    ensures ret == 0 && wantMd5 && Digests(host.wire.script, host.ErrorFirst())
            && addr as int + size <= |host.wire.device.store.bytes| ==>
              md5 == Md5Spec.Digest(host.wire.device.store.bytes[addr..addr as int + size])
  {
    hide Md5Spec.Digest, Digests, ShowsBlocks, Copied, BlocksRead, Request, OnlyOps, LegacyOps, DigestTold,
         LegacyTold, Md5Body, ReadStops;
    ghost var start := host.wire.log;
    md5 := [];
    ret, n := CopyBlocks(host, target, addr, size, writer);
    ghost var copied := host.wire.log;
    ghost var talk := copied[|start|..];
    if ret == 0 && wantMd5 {
      ret, md5 := FetchDigest(host, DigestTarget(target), addr, size);
      ghost var d := host.wire.log[|copied|];
      assert host.wire.log[|copied|..] == [d];
      assert host.wire.log[|start|..] == talk + [d];
      DigestLast(talk, d, host.chip, target, addr, size, host.ErrorFirst(), ret, md5);
    } else {
      BlocksOnly(talk, host.chip, target, addr, size, wantMd5, host.ErrorFirst(), ret, n);
    }
  }

  lemma BlocksOnly(talk: seq<Dialogue>, chip: Chip, target: Target, addr: U32, size: U32, wantMd5: bool, errorFirst: bool,
      ret: int, n: nat)
    requires OnlyOps(talk, LegacyOps(target)) && (ret != 0 || (!wantMd5 && n == size))
    requires if ret == 0 then BlocksRead(talk, target, addr, size, size, errorFirst)
             else ReadStops(talk, chip, target, addr, size, errorFirst, ret, n)
    ensures LegacyTold(talk, chip, target, addr, size, wantMd5, errorFirst, ret, [], n)
  {
    hide ReadStops, BlocksRead, OnlyOps, LegacyOps, DigestTold;
  }

  /** The range lies in the memory, below 2^32. */
  predicate Lies(addr: U32, size: U32, memory: seq<Byte>) {
    addr as int + size <= |memory| && addr as int + size <= 0x1_0000_0000
  }

  lemma LiesInside(addr: U32, size: U32, memory: seq<Byte>)
    requires Lies(addr, size, memory)
    ensures addr as int + size <= |memory| && addr as int + size <= 0x1_0000_0000
  {
  }

  lemma OneMore(talk: seq<Dialogue>, d: Dialogue, target: Target, addr: U32, n: U32)
    requires OnlyOps(talk, LegacyOps(target)) && d.request == ReadRequest(target, addr, n)
    ensures OnlyOps(talk + [d], LegacyOps(target))
  {
    hide Request, ReadOp, Md5Op;
    RequestOp(ReadOp(target), 0, RangeBody(addr, n));
  }

  lemma DigestOnly(talk: seq<Dialogue>, d: Dialogue, target: Target, addr: U32, size: U32)
    requires OnlyOps(talk, LegacyOps(target))
    requires d.request == Request(Md5Op(DigestTarget(target)), 0, Md5Body(addr, size))
    ensures OnlyOps(talk + [d], LegacyOps(target))
  {
    hide Request, ReadOp, Md5Op;
    RequestOp(Md5Op(DigestTarget(target)), 0, Md5Body(addr, size));
  }

  lemma DigestLast(talk: seq<Dialogue>, d: Dialogue, chip: Chip, target: Target, addr: U32, size: U32, errorFirst: bool,
      ret: int, md5: seq<Byte>)
    requires OnlyOps(talk, LegacyOps(target)) && BlocksRead(talk, target, addr, size, size, errorFirst)
    requires DigestTold([d], DigestTarget(target), addr, size, errorFirst, ret, md5)
    ensures LegacyTold(talk + [d], chip, target, addr, size, true, errorFirst, ret, md5, size)
  {
    hide Request, ReadOp, Md5Op, BlocksRead, Dialogue.Data, OnlyOps, LegacyOps, ReadStops;
    DigestOnly(talk, d, target, addr, size);
    RequestOp(Md5Op(DigestTarget(target)), 0, Md5Body(addr, size));
    var all := talk + [d];
    assert [d][0] == d && all[..|all| - 1] == talk && all[|all| - 1] == d;
  }

  // ---- As a stream ----

  function StreamBody(addr: U32, size: U32): (b: seq<Byte>)
    ensures |b| == 16
  {
    BeginBody(addr, size, FLASH_READ_STREAM_BLOCK, FLASH_READ_STREAM_WINDOW)
  }

  /** The status of the first frame that acknowledges the request, and what follows that frame. */
  function AckPhase(ev: seq<Event>, errorFirst: bool): (r: (int, seq<Event>))
    requires GoodEvents(ev)
    ensures GoodEvents(r.1)
    decreases |ev|
  {
    if ev == [] then (-Serial.ETIMEDOUT, [])
    else if ReadCode(ev[0], MAX_RES_RAW_LEN) < 0 then (ReadCode(ev[0], MAX_RES_RAW_LEN), ev[1..])
    else if |ev[0].frame| < HEADER_LEN + STATUS_LEN || !Answers(ev[0].frame, CMD_READ_FLASH_STREAM) then
      if ev[0].late then (-Serial.ETIMEDOUT, ev[1..]) else AckPhase(ev[1..], errorFirst)
    else if SizeField(ev[0].frame) != STATUS_LEN then (-Serial.EIO, ev[1..])
    else (Status(errorFirst, ev[0].frame[HEADER_LEN..HEADER_LEN + STATUS_LEN], STATUS_LEN), ev[1..])
  }

  /** The data phase for `size` bytes: its result, the bytes received, the counts acknowledged, what follows. */
  datatype Fetched = Fetched(ret: int, data: seq<Byte>, counts: seq<U32>, rest: seq<Event>)

  function DataPhase(ev: seq<Event>, acks: seq<int>, got: nat, size: U32): (r: Fetched)
    requires GoodEvents(ev) && got <= size
    ensures GoodEvents(r.rest) && |r.data| <= size - got
    decreases |ev|
  {
    if got == size then Fetched(0, [], [], ev)
    else if ev == [] then Fetched(-Serial.ETIMEDOUT, [], [], [])
    else
      var c := ReadCode(ev[0], MAX_RES_RAW_LEN);
      if c < 0 then Fetched(c, [], [], ev[1..])
      else if c == 0 then DataPhase(ev[1..], acks, got, size)
      else if c > size - got then Fetched(-Serial.EIO, [], [], ev[1..])
      else
        var f, a := ev[0].frame, if acks == [] then 0 else acks[0];
        if a < 0 then Fetched(a, f, [got + c], ev[1..])
        else
          var r := DataPhase(ev[1..], if acks == [] then [] else acks[1..], got + c, size);
          Fetched(r.ret, f + r.data, [got + c] + r.counts, r.rest)
  }

  /** The frame behind the data: 16 bytes, or an error. */
  function LastPhase(ev: seq<Event>): (int, seq<Byte>)
    requires GoodEvents(ev)
  {
    if ev == [] then (-Serial.ETIMEDOUT, [])
    else if ReadCode(ev[0], MD5_LEN) < 0 then (ReadCode(ev[0], MD5_LEN), [])
    else if |ev[0].frame| != MD5_LEN then (-Serial.EIO, [])
    else (0, ev[0].frame)
  }

  // What the phases mean.

  /** The payloads of frames, joined. */
  function Payload(ev: seq<Event>): seq<Byte>
    decreases |ev|
  {
    if ev == [] then [] else (if ev[0].Got? then ev[0].frame else []) + Payload(ev[1..])
  }

  predicate AllFit(ev: seq<Event>) { forall i :: 0 <= i < |ev| ==> ev[i].Got? && |ev[i].frame| <= MAX_RES_RAW_LEN }

  /** How many of the frames carry data, so how many acknowledgements they take. */
  function Filled(ev: seq<Event>): nat
    decreases |ev|
  {
    if ev == [] then 0 else (if ev[0].Got? && ev[0].frame != [] then 1 else 0) + Filled(ev[1..])
  }

  predicate AcksGo(acks: seq<int>, n: nat) { forall i :: 0 <= i < n && i < |acks| ==> acks[i] >= 0 }

  /** The first n frames are the data: they sum up to what is missing, and not before the last of them. */
  ghost predicate Complete(ev: seq<Event>, acks: seq<int>, n: nat, missing: nat) {
    && n <= |ev| && AllFit(ev[..n]) && |Payload(ev[..n])| == missing
    && (n > 0 ==> ev[n - 1].Got? && ev[n - 1].frame != [])
    && AcksGo(acks, Filled(ev[..n]))
  }

  lemma {:induction false} PayloadLast(ev: seq<Event>)
    requires ev != [] && ev[|ev| - 1].Got? && ev[|ev| - 1].frame != []
    ensures Payload(ev) != []
    decreases |ev|
  {
    if |ev| > 1 {
      PayloadLast(ev[1..]);
    }
  }

  lemma HeadOff(ev: seq<Event>, n: nat)
    requires 0 < n <= |ev|
    ensures ev[..n][0] == ev[0] && ev[..n][1..] == ev[1..][..n - 1]
    ensures Payload(ev[..n]) == (if ev[0].Got? then ev[0].frame else []) + Payload(ev[1..][..n - 1])
    ensures Filled(ev[..n]) == (if ev[0].Got? && ev[0].frame != [] then 1 else 0) + Filled(ev[1..][..n - 1])
    ensures AllFit(ev[..n]) <==> ev[0].Got? && |ev[0].frame| <= MAX_RES_RAW_LEN && AllFit(ev[1..][..n - 1])
  {
    var p := ev[..n];
    assert p[1..] == ev[1..][..n - 1];
    if ev[0].Got? && |ev[0].frame| <= MAX_RES_RAW_LEN && AllFit(p[1..]) {
      forall i | 0 <= i < n ensures p[i].Got? && |p[i].frame| <= MAX_RES_RAW_LEN {
        if i > 0 {
          assert p[i] == p[1..][i - 1];
        }
      }
    }
    if AllFit(p) {
      forall i | 0 <= i < n - 1 ensures p[1..][i].Got? && |p[1..][i].frame| <= MAX_RES_RAW_LEN {
        assert p[1..][i] == p[i + 1];
      }
    }
  }

  /** The codes of the acknowledgements left after a frame. */
  function AcksAfter(f: seq<Byte>, acks: seq<int>): seq<int> { if f == [] || acks == [] then acks else acks[1..] }

  lemma DataStep(ev: seq<Event>, acks: seq<int>, got: nat, size: U32)
    requires GoodEvents(ev) && got < size && DataPhase(ev, acks, got, size).ret == 0
    ensures ev != [] && ev[0].Got? && |ev[0].frame| <= MAX_RES_RAW_LEN && |ev[0].frame| <= size - got
    ensures ev[0].frame != [] ==> acks == [] || acks[0] >= 0
    ensures var r := DataPhase(ev, acks, got, size);
      var r' := DataPhase(ev[1..], AcksAfter(ev[0].frame, acks), got + |ev[0].frame|, size);
      r'.ret == 0 && r.rest == r'.rest && r.data == ev[0].frame + r'.data
  {
  }

  /** The first n frames complete the data; `rest` follows them. */
  ghost predicate Took(ev: seq<Event>, acks: seq<int>, n: nat, missing: nat, data: seq<Byte>, rest: seq<Event>) {
    Complete(ev, acks, n, missing) && ev[n..] == rest && Payload(ev[..n]) == data
  }

  ghost predicate TookSome(ev: seq<Event>, acks: seq<int>, missing: nat, data: seq<Byte>, rest: seq<Event>) {
    exists n: nat :: Took(ev, acks, n, missing, data, rest)
  }

  /** Success of the data phase: the data is exactly the first frames, up to the one that completes it. */
  lemma {:induction false} DataPhaseCompletes(ev: seq<Event>, acks: seq<int>, got: nat, size: U32)
    requires GoodEvents(ev) && got <= size && DataPhase(ev, acks, got, size).ret == 0
    ensures var r := DataPhase(ev, acks, got, size);
      TookSome(ev, acks, size - got, r.data, r.rest)
    decreases |ev|
  {
    if got == size {
      CompleteNone(ev, acks);
      assert ev[0..] == ev;
      assert Took(ev, acks, 0, 0, [], ev);
    } else {
      hide AcksAfter, DataPhase, TookSome;
      DataStep(ev, acks, got, size);
      DataPhaseCompletes(ev[1..], AcksAfter(ev[0].frame, acks), got + |ev[0].frame|, size);
      TookMore(ev, acks, got, size);
    }
  }

  /** One frame more in front. */
  lemma TookMore(ev: seq<Event>, acks: seq<int>, got: nat, size: U32)
    requires GoodEvents(ev) && got < size && DataPhase(ev, acks, got, size).ret == 0 && ev != [] && ev[0].Got?
    requires |ev[0].frame| <= size - got
    requires var r' := DataPhase(ev[1..], AcksAfter(ev[0].frame, acks), got + |ev[0].frame|, size);
      TookSome(ev[1..], AcksAfter(ev[0].frame, acks), size - got - |ev[0].frame|, r'.data, r'.rest)
    ensures var r := DataPhase(ev, acks, got, size);
      TookSome(ev, acks, size - got, r.data, r.rest)
  {
    hide AcksAfter, DataPhase, Took;
    DataStep(ev, acks, got, size);
    var f := ev[0].frame;
    var acks' := AcksAfter(f, acks);
    var r' := DataPhase(ev[1..], acks', got + |f|, size);
    var m: nat :| Took(ev[1..], acks', m, size - got - |f|, r'.data, r'.rest);
    TookStep(ev, acks, m, size - got, r'.data, r'.rest);
  }

  lemma TookStep(ev: seq<Event>, acks: seq<int>, m: nat, missing: nat, data: seq<Byte>, rest: seq<Event>)
    requires ev != [] && ev[0].Got? && |ev[0].frame| <= MAX_RES_RAW_LEN && |ev[0].frame| <= missing && missing > 0
    requires ev[0].frame != [] ==> acks == [] || acks[0] >= 0
    requires Took(ev[1..], AcksAfter(ev[0].frame, acks), m, missing - |ev[0].frame|, data, rest)
    ensures Took(ev, acks, m + 1, missing, ev[0].frame + data, rest)
  {
    hide AllFit, Payload, Filled, AcksGo, AcksAfter;
    CompleteStep(ev, acks, m, missing);
    HeadOff(ev, m + 1);
    assert ev[m + 1..] == ev[1..][m..];
  }

  lemma CompleteNone(ev: seq<Event>, acks: seq<int>)
    ensures Complete(ev, acks, 0, 0) && Payload(ev[..0]) == []
  {
    assert ev[..0] == [];
  }

  lemma AcksShift(acks: seq<int>, n: nat)
    ensures var acks' := if acks == [] then acks else acks[1..];
      AcksGo(acks, n + 1) <==> (acks == [] || acks[0] >= 0) && AcksGo(acks', n)
  {
    if acks != [] && acks[0] >= 0 && AcksGo(acks[1..], n) {
      forall i | 0 <= i < n + 1 && i < |acks| ensures acks[i] >= 0 {
        if i > 0 {
          assert acks[i] == acks[1..][i - 1];
        }
      }
    }
    if AcksGo(acks, n + 1) && acks != [] {
      forall i | 0 <= i < n && i < |acks[1..]| ensures acks[1..][i] >= 0 {
        assert acks[1..][i] == acks[i + 1];
      }
    }
  }

  lemma CompleteStep(ev: seq<Event>, acks: seq<int>, m: nat, missing: nat)
    requires ev != [] && ev[0].Got? && |ev[0].frame| <= MAX_RES_RAW_LEN && |ev[0].frame| <= missing && missing > 0
    requires ev[0].frame != [] ==> acks == [] || acks[0] >= 0
    requires Complete(ev[1..], AcksAfter(ev[0].frame, acks), m, missing - |ev[0].frame|)
    ensures Complete(ev, acks, m + 1, missing)
  {
    hide AllFit, Payload, Filled, AcksGo;
    HeadOff(ev, m + 1);
    if ev[0].frame != [] {
      AcksShift(acks, Filled(ev[1..][..m]));
    }
    if ev[0].frame == [] {
      CompleteSome(ev[1..], acks, m, missing);
    }
    if m > 0 {
      assert ev[m] == ev[1..][m - 1];
    }
  }

  lemma CompleteSome(ev: seq<Event>, acks: seq<int>, n: nat, missing: nat)
    requires Complete(ev, acks, n, missing) && missing > 0
    ensures n > 0
  {
    assert ev[..0] == [];
    PayloadNone();
  }

  lemma PayloadNone()
    ensures Payload([]) == []
  {
  }

  /** And the other way round: such frames make the data phase succeed. */
  lemma {:induction false} CompleteSucceeds(ev: seq<Event>, acks: seq<int>, got: nat, size: U32, n: nat)
    requires GoodEvents(ev) && got <= size && Complete(ev, acks, n, size - got)
    ensures DataPhase(ev, acks, got, size).ret == 0
    decreases |ev|
  {
    hide AllFit, Filled, AcksGo;
    if got == size {
      if n > 0 {
        PayloadLast(ev[..n]);
      }
    } else {
      CompleteSome(ev, acks, n, size - got);
      HeadOff(ev, n);
      var f := ev[0].frame;
      var acks' := AcksAfter(f, acks);
      if f != [] {
        AcksShift(acks, Filled(ev[1..][..n - 1]));
      }
      if n > 1 {
        assert ev[1..][n - 2] == ev[n - 1];
      }
      CompleteSucceeds(ev[1..], acks', got + |f|, size, n - 1);
    }
  }

  predicate Rises(counts: seq<U32>, low: int, high: int) {
    && (forall i :: 0 <= i < |counts| ==> low < counts[i] <= high)
    && (forall i, j :: 0 <= i < j < |counts| ==> counts[i] < counts[j])
  }

  lemma RisesFrom(first: U32, counts: seq<U32>, low: int, high: int)
    requires low < first <= high && Rises(counts, first, high)
    ensures Rises([first] + counts, low, high)
  {
  }

  /** The acknowledged counts are the running totals of the nonempty frames: they increase strictly, and the last
      of them is the size. */
  ghost predicate Counts(r: Fetched, got: nat, size: U32) {
    && Rises(r.counts, got, size)
    && (r.counts == [] ==> r.data == [])
    && (r.counts != [] ==> r.counts[|r.counts| - 1] == got + |r.data|)
    && (r.ret == 0 ==> got + |r.data| == size)
  }

  lemma CountsFrom(f: seq<Byte>, got: nat, size: U32, r: Fetched)
    requires f != [] && got + |f| <= size && Counts(r, got + |f|, size)
    ensures Counts(Fetched(r.ret, f + r.data, [got + |f|] + r.counts, r.rest), got, size)
  {
    RisesFrom(got + |f|, r.counts, got, size);
  }

  lemma CountsNone(ret: int, got: nat, size: U32, rest: seq<Event>)
    requires got <= size && (ret == 0 ==> got == size)
    ensures Counts(Fetched(ret, [], [], rest), got, size)
  {
  }

  lemma {:induction false} CountsRise(ev: seq<Event>, acks: seq<int>, got: nat, size: U32)
    requires GoodEvents(ev) && got <= size
    ensures Counts(DataPhase(ev, acks, got, size), got, size)
    decreases |ev|
  {
    hide Counts;
    if got == size {
      CountsNone(0, got, size, ev);
    } else if ev == [] {
      CountsNone(-Serial.ETIMEDOUT, got, size, []);
    } else {
      var c := ReadCode(ev[0], MAX_RES_RAW_LEN);
      if c < 0 {
        CountsNone(c, got, size, ev[1..]);
      } else if c == 0 {
        CountsRise(ev[1..], acks, got, size);
      } else if c > size - got {
        CountsNone(-Serial.EIO, got, size, ev[1..]);
      } else if acks != [] && acks[0] < 0 {
        CountsNone(acks[0], got + c, size, ev[1..]);
        CountsFrom(ev[0].frame, got, size, Fetched(acks[0], [], [], ev[1..]));
        assert ev[0].frame + [] == ev[0].frame && [got + c] + [] == [got + c];
      } else {
        var acks' := if acks == [] then [] else acks[1..];
        CountsRise(ev[1..], acks', got + c, size);
        CountsFrom(ev[0].frame, got, size, DataPhase(ev[1..], acks', got + c, size));
      }
    }
  }

  // ---- Receiving the stream ----

  function AckFrames(counts: seq<U32>): seq<seq<Byte>> {
    seq(|counts|, i requires 0 <= i < |counts| => LittleEndian(counts[i], 4))
  }

  /** Each acknowledgement is read back as its running total. */
  lemma AcksDecode(counts: seq<U32>, i: nat)
    requires i < |counts|
    ensures |AckFrames(counts)[i]| == 4 && FromLittleEndian(AckFrames(counts)[i]) == counts[i]
  {
    Pow256Four();
    LittleEndianRoundTrip(counts[i], 4);
  }

  /** What comes before is joined to what the rest of the data phase brings. */
  function After(data: seq<Byte>, counts: seq<U32>, r: Fetched): Fetched {
    Fetched(r.ret, data + r.data, counts + r.counts, r.rest)
  }

  lemma AfterFrame(data: seq<Byte>, counts: seq<U32>, f: seq<Byte>, got: U32, r: Fetched)
    ensures After(data, counts, Fetched(r.ret, f + r.data, [got] + r.counts, r.rest)) == After(data + f, counts + [got], r)
  {
    assert data + (f + r.data) == data + f + r.data;
    assert counts + ([got] + r.counts) == counts + [got] + r.counts;
  }

  lemma AckFramesNext(counts: seq<U32>, got: U32)
    ensures AckFrames(counts + [got]) == AckFrames(counts) + [LittleEndian(got, 4)]
  {
  }

  /** Receiving the acknowledgement of the request. */
  method RecvAck(host: Host) returns (ret: int)
    requires host.Valid()
    modifies host.wire`inbox, host.res
    ensures host.Valid() && ret == AckPhase(old(host.wire.inbox), host.ErrorFirst()).0
    ensures ret == 0 ==> host.wire.inbox == AckPhase(old(host.wire.inbox), host.ErrorFirst()).1
  {
    ghost var ev, ef := host.wire.inbox, host.ErrorFirst();
    while true
      invariant host.Valid() && AckPhase(host.wire.inbox, ef) == AckPhase(ev, ef)
      decreases |host.wire.inbox|
    {
      ghost var now := host.wire.inbox;
      var late;
      ret, late := host.wire.Get(host.res, MAX_RES_RAW_LEN);
      if ret < 0 {
        return;
      }
      ghost var f := host.res[..ret];
      assert f == now[0].frame;
      if ret >= HEADER_LEN + STATUS_LEN && host.res[0] == DIR_RES && host.res[1] == CMD_READ_FLASH_STREAM {
        var size, value := host.ReadHeader(ret);
        if size != STATUS_LEN {
          return -Serial.EIO;
        }
        var out := new Byte[STATUS_LEN];
        host.CopyOut(out, STATUS_LEN, f);
        assert out[..] == out[..STATUS_LEN] == f[HEADER_LEN..HEADER_LEN + STATUS_LEN];
        ret := host.ResponseStatus(out, STATUS_LEN);
        return;
      }
      if late {
        return -Serial.ETIMEDOUT;
      }
    }
  }

  /** The loop that receives the data and acknowledges the running total. */
  method RecvData(host: Host, size: U32, writer: Writer) returns (ret: int, ghost full: bool)
    requires host.Valid()
    modifies host.wire`inbox, host.wire`acks, host.wire`acked, host.res, writer
    ensures host.Valid()
    ensures var r := DataPhase(old(host.wire.inbox), old(host.wire.acks), 0, size);
      if full then
        && ret == r.ret && writer.written == old(writer.written) + r.data
        && host.wire.acked == old(host.wire.acked) + AckFrames(r.counts)
        && (ret == 0 ==> host.wire.inbox == r.rest)
      else
        ret == -ERR_FILE_WRITE_FAILED && old(writer.written) <= writer.written < old(writer.written) + r.data
  {
    hide AckFrames, After, DataPhase;
    ghost var wire, ev, codes := host.wire, host.wire.inbox, host.wire.acks;
    ghost var before, logged := writer.written, host.wire.acked;
    ghost var goal, data, counts := DataPhase(ev, codes, 0, size), [], [];
    var received: U32 := 0;
    full := true;
    assert before + data == before;
    assert AckFrames([]) == [] && logged + [] == logged by {
      AckFramesNone();
    }
    AfterStart(goal);
    while received < size
      invariant host.Valid() && received <= size
      invariant goal == After(data, counts, DataPhase(wire.inbox, wire.acks, received, size))
      invariant writer.written == before + data && wire.acked == logged + AckFrames(counts)
      decreases |wire.inbox|
    {
      ghost var now := wire.inbox;
      DataUnfold(now, wire.acks, received, size);
      var late;
      ret, late := host.wire.Get(host.res, MAX_RES_RAW_LEN);
      if ret < 0 {
        AfterNothing(data, counts, ret, wire.inbox);
        return;
      }
      if ret == 0 {
        continue;
      }
      if ret > size - received {
        AfterNothing(data, counts, -Serial.EIO, wire.inbox);
        return -Serial.EIO, true;
      }
      ghost var f := now[0].frame;
      var n := writer.Write(host.res[..ret]);
      var total: U32 := received + ret;
      StepFrame(now, wire.acks, received, size, data, counts);
      if n != ret {
        PrefixOf(before, data, f, n, goal.data);
        return -ERR_FILE_WRITE_FAILED, false;
      }
      assert f[..n] == f && before + data + f == before + (data + f);
      received := total;
      ret := host.wire.Ack(LittleEndian(received, 4));
      AckFramesNext(counts, received);
      assert logged + AckFrames(counts) + [LittleEndian(received, 4)] == logged + AckFrames(counts + [received]);
      data, counts := data + f, counts + [received];
      if ret < 0 {
        AfterNothing(data, counts, ret, wire.inbox);
        return;
      }
    }
    ret := 0;
    DataPhaseDone(wire.inbox, wire.acks, size);
    AfterNothing(data, counts, 0, wire.inbox);
  }

  lemma AfterStart(r: Fetched)
    ensures After([], [], r) == r
  {
  }

  lemma DataPhaseDone(ev: seq<Event>, acks: seq<int>, size: U32)
    requires GoodEvents(ev)
    ensures DataPhase(ev, acks, size, size) == Fetched(0, [], [], ev)
  {
  }

  /** The turns of the data phase that bring no data. */
  lemma DataUnfold(ev: seq<Event>, acks: seq<int>, got: U32, size: U32)
    requires GoodEvents(ev) && got < size
    ensures var r := DataPhase(ev, acks, got, size);
      if ev == [] then r == Fetched(-Serial.ETIMEDOUT, [], [], [])
      else
        var c := ReadCode(ev[0], MAX_RES_RAW_LEN);
        && (c < 0 ==> r == Fetched(c, [], [], ev[1..]))
        && (c == 0 ==> r == DataPhase(ev[1..], acks, got, size))
        && (c > size - got ==> r == Fetched(-Serial.EIO, [], [], ev[1..]))
  {
  }

  lemma AckFramesNone()
    ensures AckFrames([]) == []
  {
  }

  lemma AfterNothing(data: seq<Byte>, counts: seq<U32>, ret: int, rest: seq<Event>)
    ensures After(data, counts, Fetched(ret, [], [], rest)) == Fetched(ret, data, counts, rest)
  {
    assert data + [] == data && counts + [] == counts;
  }

  lemma PrefixOf(before: seq<Byte>, data: seq<Byte>, f: seq<Byte>, n: nat, all: seq<Byte>)
    requires n < |f| && data + f <= all
    ensures before <= before + data + f[..n] < before + all
  {
    assert before + all == before + (data + f) + all[|data + f|..];
  }

  /** A frame of data that fits what is missing. */
  lemma StepFrame(ev: seq<Event>, acks: seq<int>, got: U32, size: U32, data: seq<Byte>, counts: seq<U32>)
    requires GoodEvents(ev) && ev != [] && ev[0].Got? && 0 < |ev[0].frame| <= MAX_RES_RAW_LEN && |ev[0].frame| <= size - got
    ensures var f, a := ev[0].frame, if acks == [] then 0 else acks[0];
      var g := After(data, counts, DataPhase(ev, acks, got, size));
      && data + f <= g.data
      && (a < 0 ==> g == Fetched(a, data + f, counts + [got + |f|], ev[1..]))
      && (a >= 0 ==> g == After(data + f, counts + [got + |f|],
                                DataPhase(ev[1..], if acks == [] then [] else acks[1..], got + |f|, size)))
  {
    var f, a := ev[0].frame, if acks == [] then 0 else acks[0];
    if a < 0 {
      AfterFrame(data, counts, f, got + |f|, Fetched(a, [], [], ev[1..]));
      AfterNothing(data + f, counts + [got + |f|], a, ev[1..]);
      assert f + [] == f && [got + |f|] + [] == [got + |f|];
    } else {
      AfterFrame(data, counts, f, got + |f|, DataPhase(ev[1..], if acks == [] then [] else acks[1..], got + |f|, size));
    }
  }

  /** What a stream read makes of its exchange, when the file takes everything. */
  function StreamOf(e: Exchange, size: U32, errorFirst: bool): (r: Fetched)
    requires GoodEvents(e.events)
    ensures GoodEvents(r.rest)
  {
    if e.sendCode < 0 then Fetched(e.sendCode, [], [], [])
    else
      var a := AckPhase(e.events, errorFirst);
      if a.0 != 0 then Fetched(a.0, [], [], []) else DataPhase(a.1, e.acks, 0, size)
  }

  function StreamRequest(addr: U32, size: U32): seq<Byte> { Request(CMD_READ_FLASH_STREAM, 0, StreamBody(addr, size)) }

  /** cmd_read_flash_stream */
  method ReadFlashStream(host: Host, addr: U32, size: U32, writer: Writer)
    returns (ret: int, md5: seq<Byte>, ghost full: bool)
    requires host.Valid()
    modifies host.wire, host.req, host.res, writer
    ensures host.Valid() && Asked(host.wire) && host.wire.Spoke(StreamRequest(addr, size))
    ensures var r := StreamOf(old(host.wire.Next(StreamRequest(addr, size))), size, host.ErrorFirst());
      if full then
        && writer.written == old(writer.written) + r.data && host.wire.acked == AckFrames(r.counts)
        && (if r.ret != 0 then ret == r.ret else (ret, md5) == LastPhase(r.rest))
      else
        ret == -ERR_FILE_WRITE_FAILED && old(writer.written) <= writer.written < old(writer.written) + r.data
  {
    hide AckFrames, DataPhase, AckPhase, Request, Reaction;
    ghost var before := writer.written;
    ghost var e := host.wire.Next(StreamRequest(addr, size));
    assert before + [] == before;
    AckFramesNone();
    md5, full := [], true;
    HarmlessReaction(e, host.wire.device, CMD_READ_FLASH_STREAM, StreamBody(addr, size));
    host.PutBody(StreamBody(addr, size));
    ret := host.SendRequest(CMD_READ_FLASH_STREAM, 16, 0, StreamBody(addr, size));
    if ret < 0 {
      return;
    }
    ret := RecvAck(host);
    if ret != 0 {
      return;
    }
    assert host.wire.acks == e.acks;
    ret, full := RecvData(host, size, writer);
    assert [] + host.wire.acked == host.wire.acked;
    if ret != 0 {
      return;
    }
    ret, md5 := RecvLast(host);
  }

  /** The frame with the digest of the device. */
  method RecvLast(host: Host) returns (ret: int, md5: seq<Byte>)
    requires host.Valid()
    modifies host.wire`inbox
    ensures host.Valid() && (ret, md5) == LastPhase(old(host.wire.inbox))
  {
    var remote := new Byte[MD5_LEN];
    var late;
    md5 := [];
    ret, late := host.wire.Get(remote, MD5_LEN);
    if ret < 0 {
      return;
    }
    if ret != MD5_LEN {
      return -Serial.EIO, [];
    }
    md5 := remote[..ret];
    ret := 0;
  }

  /** The first n frames are the data, and the next one has 16 bytes. */
  ghost predicate DataAndLast(ev: seq<Event>, acks: seq<int>, n: nat, size: nat) {
    Complete(ev, acks, n, size) && n < |ev| && ev[n].Got? && |ev[n].frame| == MD5_LEN
  }

  /** A stream read succeeds exactly when the request is acknowledged, frames sum up to the size, and the very next
      frame has 16 bytes. */
  lemma StreamSucceedsIff(e: Exchange, size: U32, errorFirst: bool)
    requires GoodEvents(e.events)
    ensures var r, a := StreamOf(e, size, errorFirst), AckPhase(e.events, errorFirst);
      (r.ret == 0 && LastPhase(r.rest).0 == 0) <==>
      && e.sendCode >= 0 && a.0 == 0
      && exists n: nat :: DataAndLast(a.1, e.acks, n, size)
  {
    hide AckPhase, DataAndLast, DataPhase, LastPhase;
    var r, a := StreamOf(e, size, errorFirst), AckPhase(e.events, errorFirst);
    if e.sendCode >= 0 && a.0 == 0 {
      if r.ret == 0 && LastPhase(r.rest).0 == 0 {
        var n := DataThenLast(a.1, e.acks, size);
        assert DataAndLast(a.1, e.acks, n, size);
      }
      forall n: nat | DataAndLast(a.1, e.acks, n, size) ensures r.ret == 0 && LastPhase(r.rest).0 == 0 {
        LastAfterData(a.1, e.acks, size, n);
      }
    }
  }

  lemma DataThenLast(ev: seq<Event>, acks: seq<int>, size: U32) returns (n: nat)
    requires GoodEvents(ev)
    requires var r := DataPhase(ev, acks, 0, size); r.ret == 0 && LastPhase(r.rest).0 == 0
    ensures DataAndLast(ev, acks, n, size)
  {
    hide Complete, DataPhase;
    var r := DataPhase(ev, acks, 0, size);
    DataPhaseCompletes(ev, acks, 0, size);
    n :| Took(ev, acks, n, size, r.data, r.rest);
    CompleteLength(ev, acks, n, size);
    assert ev[n..][0] == ev[n];
  }

  lemma LastAfterData(ev: seq<Event>, acks: seq<int>, size: U32, n: nat)
    requires GoodEvents(ev) && DataAndLast(ev, acks, n, size)
    ensures var r := DataPhase(ev, acks, 0, size); r.ret == 0 && LastPhase(r.rest).0 == 0
  {
    hide Complete, DataPhase;
    var r := DataPhase(ev, acks, 0, size);
    CompleteSucceeds(ev, acks, 0, size, n);
    DataPhaseCompletes(ev, acks, 0, size);
    var m: nat :| Took(ev, acks, m, size, r.data, r.rest);
    SameEnd(ev, acks, m, n, size);
    assert ev[n..][0] == ev[n];
  }

  lemma CompleteLength(ev: seq<Event>, acks: seq<int>, n: nat, missing: nat)
    requires Complete(ev, acks, n, missing)
    ensures n <= |ev|
  {
  }

  function FrameOf(e: Event): seq<Byte> { if e.Got? then e.frame else [] }

  lemma PayloadFirst(ev: seq<Event>)
    requires ev != []
    ensures Payload(ev) == FrameOf(ev[0]) + Payload(ev[1..])
  {
  }

  lemma Associate(a: seq<Byte>, b: seq<Byte>, c: seq<Byte>)
    ensures a + b + c == a + (b + c)
  {
  }

  lemma {:induction false} PayloadAppend(a: seq<Event>, b: seq<Event>)
    ensures Payload(a + b) == Payload(a) + Payload(b)
    decreases |a|
  {
    if a == [] {
      assert a + b == b;
    } else {
      hide Payload;
      PayloadAppend(a[1..], b);
      assert (a + b)[1..] == a[1..] + b && (a + b)[0] == a[0];
      PayloadFirst(a);
      PayloadFirst(a + b);
      Associate(FrameOf(a[0]), Payload(a[1..]), Payload(b));
    }
  }

  /** There is one way to complete the data. */
  lemma SameEnd(ev: seq<Event>, acks: seq<int>, m: nat, n: nat, missing: nat)
    requires Complete(ev, acks, m, missing) && Complete(ev, acks, n, missing)
    ensures m == n
  {
    if m < n {
      NoLater(ev, acks, m, n, missing);
    } else if n < m {
      NoLater(ev, acks, n, m, missing);
    }
  }

  lemma NoLater(ev: seq<Event>, acks: seq<int>, m: nat, n: nat, missing: nat)
    requires Complete(ev, acks, m, missing) && m < n <= |ev| && ev[n - 1].Got? && ev[n - 1].frame != []
    ensures !Complete(ev, acks, n, missing)
  {
    PayloadAppend(ev[..m], ev[m..n]);
    assert ev[..m] + ev[m..n] == ev[..n];
    PayloadLast(ev[m..n]);
  }

  // ---- Both ways agree ----

  /** A device that streams what it holds: the frames behind the acknowledgement carry the range in order. */
  ghost predicate ShowsStream(script: Script, errorFirst: bool)
    requires GoodScript(script)
  {
    forall t: nat, d: Device, request: seq<Byte>, addr: U32, size: U32 ::
      AsksStream(request, CMD_READ_FLASH_STREAM, addr, size) && addr as int + size <= |d.store.bytes| ==>
        var r := StreamOf(script(t, d, request), size, errorFirst);
        r.data <= d.store.bytes[addr..addr as int + size]
  }

  /** What reading as a stream says, and what it returns with n bytes in the file: the code of the stream, or of the frame
      behind it, or of a file that has taken less; and the digest is that frame. */
  ghost predicate StreamTold(talk: seq<Dialogue>, addr: U32, size: U32, errorFirst: bool, ret: int, md5: seq<Byte>, n: nat) {
    && |talk| == 1 && talk[0].request == StreamRequest(addr, size) && GoodEvents(talk[0].exchange.events)
    && var r := StreamOf(talk[0].exchange, size, errorFirst);
    && n <= |r.data|
    && var code := if n < |r.data| then -ERR_FILE_WRITE_FAILED else if r.ret != 0 then r.ret else LastPhase(r.rest).0;
    && ret == Mapped(code, ERR_FLASH_READ_FAILED)
    && (code == 0 ==> md5 == LastPhase(r.rest).1)
  }

  /** cskburn_serial_read_stream: at any exit a prefix of the range has been written; on success all of it, and the
      acknowledgements were running totals up to the size. */
  method ReadStream(host: Host, addr: U32, size: U32, writer: Writer)
    returns (ret: int, md5: seq<Byte>, ghost n: nat, ghost counts: seq<U32>)
    requires host.Valid()
    modifies host.wire, host.req, host.res, writer
    ensures host.Valid() && Asked(host.wire) && n <= size && (ret == 0 ==> n == size && |md5| == MD5_LEN)
    ensures |writer.written| == |old(writer.written)| + n
    ensures StreamTold(host.wire.Talk(), addr, size, host.ErrorFirst(), ret, md5, n)
    ensures var memory := old(host.wire.device.store.bytes);
      ShowsStream(host.wire.script, host.ErrorFirst()) && Lies(addr, size, memory) ==>
        Copied(old(writer.written), writer.written, memory, addr, n)
    ensures ret == 0 ==> host.wire.acked == AckFrames(counts) && Rises(counts, 0, size)
    ensures ret == 0 && size > 0 ==> counts != [] && counts[|counts| - 1] == size
  {
    hide StreamOf, Counts, Request, Rises, AckFrames, ShowsStream, Copied;
    ghost var before, memory := writer.written, host.wire.device.store.bytes;
    ghost var e := host.wire.Next(StreamRequest(addr, size));
    ghost var r := StreamOf(e, size, host.ErrorFirst());
    counts := r.counts;
    StreamCounts(e, size, host.ErrorFirst());
    ghost var full;
    ret, md5, full := ReadFlashStream(host, addr, size, writer);
    n := |writer.written| - |before|;
    SameSize(before, writer.written, r.data);
    if ShowsStream(host.wire.script, host.ErrorFirst()) && Lies(addr, size, memory) {
      Streamed(host.wire.script, host.ErrorFirst(), old(host.wire.t), old(host.wire.device), addr, size);
      StreamCopied(before, writer.written, r.data, memory, addr, size);
    }
    if ret == 0 {
      CountsEnd(r, size);
    }
    ret := Mapped(ret, ERR_FLASH_READ_FAILED);
  }

  lemma SameSize(before: seq<Byte>, now: seq<Byte>, data: seq<Byte>)
    requires before <= now <= before + data
    ensures 0 <= |now| - |before| <= |data| && (now == before + data ==> |now| - |before| == |data|)
  {
  }

  lemma StreamCopied(before: seq<Byte>, now: seq<Byte>, data: seq<Byte>, memory: seq<Byte>, addr: nat, size: nat)
    requires addr + size <= |memory| && data <= memory[addr..addr + size] && before <= now <= before + data
    ensures Copied(before, now, memory, addr, |now| - |before|)
  {
    var n := |now| - |before|;
    assert data[..n] == memory[addr..addr + size][..n] == memory[addr..addr + n];
    assert now == before + data[..n];
  }

  lemma Streamed(script: Script, errorFirst: bool, t: nat, d: Device, addr: U32, size: U32)
    requires GoodScript(script) && ShowsStream(script, errorFirst) && addr as int + size <= |d.store.bytes|
    ensures StreamOf(script(t, d, StreamRequest(addr, size)), size, errorFirst).data
         <= d.store.bytes[addr..addr as int + size]
  {
    hide AsksStream, StreamOf, Request;
    StreamAsked(CMD_READ_FLASH_STREAM, addr, size);
  }

  lemma StreamCounts(e: Exchange, size: U32, errorFirst: bool)
    requires GoodEvents(e.events)
    ensures var r := StreamOf(e, size, errorFirst); |r.data| <= size && Counts(r, 0, size)
    ensures e.sendCode < 0 ==> StreamOf(e, size, errorFirst).ret < 0
  {
    hide AckPhase, DataPhase;
    var a := AckPhase(e.events, errorFirst);
    if e.sendCode >= 0 && a.0 == 0 {
      CountsRise(a.1, e.acks, 0, size);
    }
  }

  lemma CountsEnd(r: Fetched, size: U32)
    requires Counts(r, 0, size) && r.ret == 0
    ensures |r.data| == size && Rises(r.counts, 0, size)
    ensures size > 0 ==> r.counts != [] && r.counts[|r.counts| - 1] == size
  {
  }

  /** Failures to report the layout with which a read goes on. */
  predicate LayoutTolerated(ret: int) { ret == 0xFF || ret == -Serial.ENOTSUP || ret == -Serial.ETIMEDOUT }

  /** cskburn_serial_read: whether the device streams or sends blocks, success means that exactly the range has been
      written. */
  method SerialRead(host: Host, target: Target, addr: U32, size: U32, writer: Writer, wantMd5: bool)
    returns (ret: int, md5: seq<Byte>, ghost n: nat)
    requires host.Valid()
    modifies host.wire, host.req, host.res, host`readStream, host`layoutQueried, writer
    ensures host.Valid() && Asked(host.wire) && n <= size && (ret == 0 ==> n == size)
    ensures |writer.written| == |old(writer.written)| + n
    ensures ReadTold(host.wire.Talk(), host.chip, target, addr, size, wantMd5, host.ErrorFirst(), old(host.layoutQueried),
                     old(host.readStream), ret, md5, n)
    ensures var memory := old(host.wire.device.store.bytes);
      ShowsBlocks(host.wire.script, host.ErrorFirst()) && ShowsStream(host.wire.script, host.ErrorFirst())
      && Lies(addr, size, memory) ==>
        Copied(old(writer.written), writer.written, memory, addr, n)
  {
    hide ShowsBlocks, ShowsStream, Copied, Digests, SaneMap, RangeTold, ReadTold, MapTold, LayoutAsked, LayoutTolerated,
         StreamReading;
    ghost var memory, start := host.wire.device.store.bytes, host.wire.log;
    if Lies(addr, size, memory) {
      CopiedNone(writer.written, memory, addr);
    }
    md5, n := [], 0;
    var asking := target.ToFlash? && SupportsFlashLayout(host.chip) && !host.layoutQueried;
    if asking {
      var m;
      ret, m := GetFlashLayout(host);
      LayoutIs(host.wire.log[|start|..], host.chip, host.ErrorFirst(), ret, m);
      if ret != 0 && !LayoutTolerated(ret) {
        AskedOnly(host.wire.log[|start|..], host.chip, target, addr, size, wantMd5, host.ErrorFirst(), old(host.readStream), ret);
        return;
      }
    }
    ghost var first, stream := host.wire.log, host.readStream;
    ret, md5, n := ReadRange(host, target, addr, size, writer, wantMd5);
    ghost var more := host.wire.log[|first|..];
    assert host.wire.log[|start|..] == first[|start|..] + more;
    WholeRead(first[|start|..], more, host.chip, target, addr, size, wantMd5, host.ErrorFirst(), old(host.layoutQueried),
              old(host.readStream), stream, ret, md5, n);
  }

  /** A stream where the device offers one, blocks otherwise. */
  method ReadRange(host: Host, target: Target, addr: U32, size: U32, writer: Writer, wantMd5: bool)
    returns (ret: int, md5: seq<Byte>, ghost n: nat)
    requires host.Valid()
    modifies host.wire, host.req, host.res, writer
    ensures host.Valid() && Asked(host.wire) && n <= size && (ret == 0 ==> n == size)
    ensures |writer.written| == |old(writer.written)| + n
    ensures RangeTold(host.wire.Talk(), host.chip, target, addr, size, wantMd5, host.ErrorFirst(), host.readStream, ret, md5, n)
    ensures var memory := old(host.wire.device.store.bytes);
      ShowsBlocks(host.wire.script, host.ErrorFirst()) && ShowsStream(host.wire.script, host.ErrorFirst())
      && Lies(addr, size, memory) ==>
        Copied(old(writer.written), writer.written, memory, addr, n)
  {
    hide ShowsBlocks, ShowsStream, Copied, Digests, Rises, AckFrames, LegacyTold, StreamTold;
    if target.ToFlash? && host.readStream {
      ghost var counts;
      ret, md5, n, counts := ReadStream(host, addr, size, writer);
    } else {
      ret, md5, n := ReadLegacy(host, target, addr, size, writer, wantMd5);
    }
  }

  function ReadOps(): set<Byte> {
    {CMD_GET_FLASH_LAYOUT, CMD_READ_FLASH, CMD_EMMC_READ_DATA, CMD_READ_FLASH_STREAM, CMD_SPI_FLASH_MD5, CMD_EMMC_MD5}
  }

  /** The stream is used if and only if the device offers it. */
  ghost predicate RangeTold(talk: seq<Dialogue>, chip: Chip, target: Target, addr: U32, size: U32, wantMd5: bool,
      errorFirst: bool, stream: bool, ret: int, md5: seq<Byte>, n: nat)
  {
    if target.ToFlash? && stream then StreamTold(talk, addr, size, errorFirst, ret, md5, n)
    else LegacyTold(talk, chip, target, addr, size, wantMd5, errorFirst, ret, md5, n)
  }

  /** A read that has to ask for the layout first. */
  predicate AsksLayout(chip: Chip, target: Target, queried: bool) {
    target.ToFlash? && SupportsFlashLayout(chip) && !queried
  }

  /** The code of the query for the layout, and whether its answer offers a stream. */
  ghost function LayoutCode(d: Dialogue, errorFirst: bool): int {
    var q := d.Data(32, true, errorFirst);
    MapCode(q.0, q.1)
  }

  ghost predicate LayoutStreams(d: Dialogue, errorFirst: bool) {
    LayoutCode(d, errorFirst) == 0 && StreamReading(ParseFlashMap(d.Data(32, true, errorFirst).1))
  }

  /** The query for the layout has gone wrong, and that is all. */
  ghost predicate LayoutFails(talk: seq<Dialogue>, errorFirst: bool, ret: int, md5: seq<Byte>, n: nat) {
    |talk| == 1 && ret == LayoutCode(talk[0], errorFirst) != 0 && !LayoutTolerated(ret) && md5 == [] && n == 0
  }

  /** What a read says, and what it returns with n bytes in the file: the layout is asked for when it has not been yet, its
      answer decides between stream and blocks, and the stream or the blocks follow. */
  ghost predicate ReadTold(talk: seq<Dialogue>, chip: Chip, target: Target, addr: U32, size: U32, wantMd5: bool,
      errorFirst: bool, queried: bool, stream: bool, ret: int, md5: seq<Byte>, n: nat)
  {
    && OnlyOps(talk, ReadOps())
    && (if AsksLayout(chip, target, queried) then
          && talk != [] && Asks([talk[0]], CMD_GET_FLASH_LAYOUT, [])
          && (LayoutFails(talk, errorFirst, ret, md5, n)
              || ((LayoutCode(talk[0], errorFirst) == 0 || LayoutTolerated(LayoutCode(talk[0], errorFirst)))
                  && RangeTold(talk[1..], chip, target, addr, size, wantMd5, errorFirst, LayoutStreams(talk[0], errorFirst),
                               ret, md5, n)))
        else RangeTold(talk, chip, target, addr, size, wantMd5, errorFirst, stream, ret, md5, n))
  }

  /** The query has been made, and gives this code and this layout. */
  ghost predicate LayoutAsked(talk: seq<Dialogue>, errorFirst: bool, ret: int, stream: bool) {
    && Asks(talk, CMD_GET_FLASH_LAYOUT, []) && ret == LayoutCode(talk[0], errorFirst)
    && stream == LayoutStreams(talk[0], errorFirst)
  }

  lemma LayoutIs(talk: seq<Dialogue>, chip: Chip, errorFirst: bool, ret: int, m: FlashMap)
    requires SupportsFlashLayout(chip) && MapTold(talk, chip, errorFirst, ret, m)
    ensures LayoutAsked(talk, errorFirst, ret, ret == 0 && StreamReading(m))
  {
    hide Request, Dialogue.Data, SaneMap, Field;
  }

  lemma LayoutOnly(talk: seq<Dialogue>)
    requires Asks(talk, CMD_GET_FLASH_LAYOUT, [])
    ensures OnlyOps(talk, ReadOps())
  {
    hide Request;
    RequestOp(CMD_GET_FLASH_LAYOUT, 0, []);
  }

  lemma AskedOnly(talk: seq<Dialogue>, chip: Chip, target: Target, addr: U32, size: U32, wantMd5: bool, errorFirst: bool,
      stream: bool, ret: int)
    requires AsksLayout(chip, target, false) && LayoutAsked(talk, errorFirst, ret, false) && ret != 0 && !LayoutTolerated(ret)
    ensures ReadTold(talk, chip, target, addr, size, wantMd5, errorFirst, false, stream, ret, [], 0)
  {
    hide Request, OnlyOps, RangeTold, LayoutCode, LayoutStreams, LayoutTolerated;
    LayoutOnly(talk);
    assert [talk[0]] == talk;
  }

  lemma StreamOnly(talk: seq<Dialogue>, addr: U32, size: U32, errorFirst: bool, ret: int, md5: seq<Byte>, n: nat)
    requires StreamTold(talk, addr, size, errorFirst, ret, md5, n)
    ensures OnlyOps(talk, ReadOps())
  {
    hide Request, StreamOf, LastPhase;
    RequestOp(CMD_READ_FLASH_STREAM, 0, StreamBody(addr, size));
  }

  lemma RangeOnly(talk: seq<Dialogue>, chip: Chip, target: Target, addr: U32, size: U32, wantMd5: bool, errorFirst: bool,
      stream: bool, ret: int, md5: seq<Byte>, n: nat)
    requires RangeTold(talk, chip, target, addr, size, wantMd5, errorFirst, stream, ret, md5, n)
    ensures OnlyOps(talk, ReadOps())
  {
    hide StreamTold, OnlyOps, BlocksRead, Request, Dialogue.Data, ReadStops;
    if target.ToFlash? && stream {
      StreamOnly(talk, addr, size, errorFirst, ret, md5, n);
    } else {
      OpsWiden(talk, LegacyOps(target), ReadOps());
    }
  }

  lemma WholeRead(first: seq<Dialogue>, more: seq<Dialogue>, chip: Chip, target: Target, addr: U32, size: U32,
      wantMd5: bool, errorFirst: bool, queried: bool, before: bool, stream: bool, ret: int, md5: seq<Byte>, n: nat)
    requires if AsksLayout(chip, target, queried) then
               exists code :: LayoutAsked(first, errorFirst, code, stream) && (code == 0 || LayoutTolerated(code))
             else first == [] && stream == before
    requires RangeTold(more, chip, target, addr, size, wantMd5, errorFirst, stream, ret, md5, n)
    ensures ReadTold(first + more, chip, target, addr, size, wantMd5, errorFirst, queried, before, ret, md5, n)
  {
    hide OnlyOps, RangeTold, LayoutCode, LayoutStreams, LayoutTolerated, Request;
    RangeOnly(more, chip, target, addr, size, wantMd5, errorFirst, stream, ret, md5, n);
    var talk := first + more;
    if AsksLayout(chip, target, queried) {
      LayoutOnly(first);
      OpsJoin(first, more, ReadOps());
      assert [talk[0]] == first && talk[1..] == more;
    } else {
      assert talk == more;
    }
  }

  /** The digest in the last answer: the frame behind a stream, or the answer to a request for it. */
  function DigestIn(talk: seq<Dialogue>, size: U32, errorFirst: bool): seq<Byte> {
    if talk == [] then []
    else
      var d := talk[|talk| - 1];
      if d.Op() != CMD_READ_FLASH_STREAM then d.Data(MD5_LEN, false, errorFirst).1
      else if GoodEvents(d.exchange.events) then LastPhase(StreamOf(d.exchange, size, errorFirst).rest).1
      else []
  }

  lemma DigestIsIn(talk: seq<Dialogue>, target: Target, addr: U32, size: U32, errorFirst: bool, ret: int, md5: seq<Byte>)
    requires DigestTold(talk, target, addr, size, errorFirst, ret, md5)
    ensures md5 == DigestIn(talk, size, errorFirst)
  {
    hide Request, Dialogue.Data;
    RequestOp(Md5Op(target), 0, Md5Body(addr, size));
  }

  lemma LegacyDigest(talk: seq<Dialogue>, chip: Chip, target: Target, addr: U32, size: U32, errorFirst: bool, md5: seq<Byte>,
      n: nat)
    requires LegacyTold(talk, chip, target, addr, size, true, errorFirst, 0, md5, n)
    ensures md5 == DigestIn(talk, size, errorFirst)
  {
    hide OnlyOps, BlocksRead, ReadStops, DigestTold, DigestIn;
    var d := talk[|talk| - 1];
    DigestIsIn([d], DigestTarget(target), addr, size, errorFirst, 0, md5);
    LastOnly(talk, size, errorFirst);
  }

  lemma LastOnly(talk: seq<Dialogue>, size: U32, errorFirst: bool)
    requires talk != []
    ensures DigestIn(talk, size, errorFirst) == DigestIn([talk[|talk| - 1]], size, errorFirst)
  {
    hide Dialogue.Data, StreamOf, LastPhase;
  }

  lemma StreamDigest(talk: seq<Dialogue>, addr: U32, size: U32, errorFirst: bool, md5: seq<Byte>, n: nat)
    requires StreamTold(talk, addr, size, errorFirst, 0, md5, n)
    ensures md5 == DigestIn(talk, size, errorFirst)
  {
    hide Request, StreamOf, LastPhase;
    RequestOp(CMD_READ_FLASH_STREAM, 0, StreamBody(addr, size));
  }

  lemma RangeDigest(talk: seq<Dialogue>, chip: Chip, target: Target, addr: U32, size: U32, errorFirst: bool, stream: bool,
      md5: seq<Byte>, n: nat)
    requires RangeTold(talk, chip, target, addr, size, true, errorFirst, stream, 0, md5, n)
    ensures talk != [] && md5 == DigestIn(talk, size, errorFirst)
  {
    hide StreamOf, OnlyOps, BlocksRead, ReadStops, DigestTold, DigestIn, Request, LastPhase;
    if target.ToFlash? && stream {
      StreamDigest(talk, addr, size, errorFirst, md5, n);
    } else {
      LegacyDigest(talk, chip, target, addr, size, errorFirst, md5, n);
    }
  }

  /** A read that succeeds gets its digest in the last answer. */
  lemma ReadDigest(talk: seq<Dialogue>, chip: Chip, target: Target, addr: U32, size: U32, errorFirst: bool, queried: bool,
      stream: bool, md5: seq<Byte>, n: nat)
    requires ReadTold(talk, chip, target, addr, size, true, errorFirst, queried, stream, 0, md5, n)
    ensures md5 == DigestIn(talk, size, errorFirst)
  {
    hide RangeTold, OnlyOps, DigestIn, LayoutCode, LayoutStreams, LayoutTolerated, Asks;
    if AsksLayout(chip, target, queried) {
      RangeDigest(talk[1..], chip, target, addr, size, errorFirst, LayoutStreams(talk[0], errorFirst), md5, n);
      LastOnly(talk, size, errorFirst);
      LastOnly(talk[1..], size, errorFirst);
    } else {
      RangeDigest(talk, chip, target, addr, size, errorFirst, stream, md5, n);
    }
  }
}
