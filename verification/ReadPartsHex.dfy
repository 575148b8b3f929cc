/** From HEX text to partitions: the driver of the parser, address translation, and the assembly of chunks. */
module ReadPartsHex {
  import opened Bytes
  import opened IntelHex
  import opened HexStream
  import opened MemIo
  import Parsing = HexParser
  import Utils

  datatype Region = Region(base: U32, size: U32)

  datatype Option<T> = None | Some(value: T)

  /** translate_hex_addr: the offset in the first region that contains the address. The sum is a uint32_t. */
  function Translate(regions: seq<Region>, addr: U32): Option<U32>
    decreases |regions|
  {
    if regions == [] then None
    else if regions[0].base <= addr < Wrap(regions[0].base + regions[0].size) then Some(addr - regions[0].base)
    else Translate(regions[1..], addr)
  }

  /** The end of a region is a uint32_t. */
  predicate Covers(r: Region, addr: U32) { r.base <= addr < (r.base as int + r.size) % 0x1_0000_0000 }

  /** The first region that covers the address starts at base. */
  ghost predicate InRegion(regions: seq<Region>, addr: U32, base: int) {
    exists i :: 0 <= i < |regions| && Covers(regions[i], addr) && regions[i].base == base && OnlyFrom(regions, i, addr)
  }

  predicate OnlyFrom(regions: seq<Region>, i: nat, addr: U32)
    requires i <= |regions|
  {
    forall j :: 0 <= j < i ==> !Covers(regions[j], addr)
  }

  /** An address is translated exactly when a region covers it, and then counts from the start of the first one that does. */
  lemma {:induction false} TranslateIs(regions: seq<Region>, addr: U32, base: int)
    ensures Translate(regions, addr).None? <==> OnlyFrom(regions, |regions|, addr)
    ensures InRegion(regions, addr, base) <==>
            Translate(regions, addr).Some? && Translate(regions, addr).value == addr - base
    decreases |regions|
  {
    if regions != [] {
      var rest := regions[1..];
      TranslateIs(rest, addr, base);
      if Covers(regions[0], addr) {
        assert InRegion(regions, addr, base) <==> regions[0].base == base;
      } else {
        if InRegion(rest, addr, base) {
          var i :| 0 <= i < |rest| && Covers(rest[i], addr) && rest[i].base == base && OnlyFrom(rest, i, addr);
          FromNext(regions, i, addr);
          assert regions[i + 1] == rest[i];
        }
        if InRegion(regions, addr, base) {
          var i :| 0 <= i < |regions| && Covers(regions[i], addr) && regions[i].base == base && OnlyFrom(regions, i, addr);
          FromNext(regions, i - 1, addr);
          assert rest[i - 1] == regions[i];
        }
        FromNext(regions, |rest|, addr);
      }
    }
  }

  lemma FromNext(regions: seq<Region>, i: nat, addr: U32)
    requires i < |regions| && !Covers(regions[0], addr)
    ensures OnlyFrom(regions, i + 1, addr) <==> OnlyFrom(regions[1..], i, addr)
  {
    if OnlyFrom(regions, i + 1, addr) {
      forall j | 0 <= j < i ensures !Covers(regions[1..][j], addr) {
        assert regions[1..][j] == regions[j + 1];
      }
    }
    if OnlyFrom(regions[1..], i, addr) {
      forall j | 0 <= j < i + 1 ensures !Covers(regions[j], addr) {
        assert j > 0 ==> regions[j] == regions[1..][j - 1];
      }
    }
  }

  datatype Part = Part(addr: U32, data: seq<Byte>)
  {
    /** addr + size, as a uint32_t */
    function End(): U32 { Wrap(addr + |data|) }
  }

  const TOO_MANY: int := -1
  const UNMAPPED: int := -2
  const PARSE_FAILED: int := -3

  datatype Appended = Appended(parts: seq<Part>, code: int)

  /** The last partition, when the chunk starts behind it but not above the end of its sector. */
  function GapFilled(p: Part, addr: U32, capacity: nat): (q: Part)
    requires |p.data| <= capacity
    ensures q.addr == p.addr && |q.data| <= capacity
  {
    if p.End() < addr <= Utils.AlignUp(p.End(), Utils.FLASH_ALIGN) then
      p.(data := Extended(p.data, Fill(0xFF, addr - p.End()), capacity))
    else p
  }

  predicate Fits(parts: seq<Part>, capacity: nat) { forall i :: 0 <= i < |parts| ==> |parts[i].data| <= capacity }

  /** append_part: 1 for a new partition, 0 for one that grew, negative when there are too many. */
  function AppendPart(parts: seq<Part>, capacity: nat, limit: int, addr: U32, bytes: seq<Byte>): (r: Appended)
    requires Fits(parts, capacity)
    ensures Fits(r.parts, capacity)
  {
    var first := Part(addr, Extended([], bytes, capacity));
    if parts == [] then Appended([first], 1)
    else
      var k := |parts| - 1;
      var last := GapFilled(parts[k], addr, capacity);
      if last.End() == addr then Appended(parts[k := last.(data := Extended(last.data, bytes, capacity))], 0)
      else if |parts| >= limit then Appended(parts[k := last], TOO_MANY)
      else Appended(parts[k := last] + [first], 1)
  }

  /** The partitions array of the program: a start address and a reader each, the last one still growing. */
  class PartTable {
    var addrs: seq<U32>
    var readers: seq<MemReader>
    ghost var parts: seq<Part>

    ghost var Repr: set<object>

    ghost predicate Valid()
      reads this, Repr
      ensures Valid() ==> this in Repr
    {
      && this in Repr
      && |addrs| == |readers| == |parts|
      && (forall i :: 0 <= i < |readers| ==>
            && readers[i] in Repr && readers[i].buffer in Repr
            && readers[i].Valid() && readers[i].readOff == 0 && readers[i].hook == null
            && parts[i] == Part(addrs[i], readers[i].Contents()))
      && (forall i, j :: 0 <= i < j < |readers| ==> readers[i] != readers[j] && readers[i].buffer != readers[j].buffer)
    }

    ghost predicate Capacity(capacity: nat)
      reads this, readers
    {
      forall i :: 0 <= i < |readers| ==> readers[i].buffer.Length == capacity
    }

    constructor ()
      ensures Valid() && fresh(Repr) && parts == [] && readers == []
    {
      addrs, readers, parts := [], [], [];
      Repr := {this};
    }

    /** A new partition behind the others. */
    method Add(capacity: nat, addr: U32, bytes: seq<Byte>)
      requires Valid() && Capacity(capacity) && capacity < 0x8000_0000
      modifies this
      ensures Valid() && Capacity(capacity) && fresh(Repr - old(Repr)) && old(Repr) <= Repr
      ensures parts == old(parts) + [Part(addr, Extended([], bytes, capacity))]
    {
      var r := new MemReader(capacity);
      var n := r.Feed(bytes);
      addrs, readers := addrs + [addr], readers + [r];
      parts := parts + [Part(addr, r.Contents())];
      Repr := Repr + {r, r.buffer};
    }

    ghost function Last(): set<object>
      requires readers != []
      reads this
    {
      {readers[|readers| - 1], readers[|readers| - 1].buffer}
    }

    /** memreader_feed on the last partition. */
    method FeedLast(capacity: nat, bytes: seq<Byte>)
      requires Valid() && Capacity(capacity) && readers != []
      modifies this`parts, Last()
      ensures Valid() && Capacity(capacity)
      ensures var k := |old(parts)| - 1;
        var last := old(parts)[k];
        |last.data| <= capacity && parts == old(parts)[k := last.(data := Extended(last.data, bytes, capacity))]
    {
      var k := |readers| - 1;
      var n := readers[k].Feed(bytes);
      parts := parts[k := Part(addrs[k], readers[k].Contents())];
    }

    /** memreader_fill on the last partition. */
    method FillLast(capacity: nat, count: nat)
      requires Valid() && Capacity(capacity) && readers != []
      modifies this`parts, Last()
      ensures Valid() && Capacity(capacity)
      ensures var k := |old(parts)| - 1;
        var last := old(parts)[k];
        |last.data| <= capacity && parts == old(parts)[k := last.(data := Extended(last.data, Fill(0xFF, count), capacity))]
    {
      var k := |readers| - 1;
      var n := readers[k].FillWith(0xFF, count);
      parts := parts[k := Part(addrs[k], readers[k].Contents())];
    }

    lemma PartsFit(capacity: nat)
      requires Valid() && Capacity(capacity)
      ensures Fits(parts, capacity)
    {
      forall i | 0 <= i < |parts| ensures |parts[i].data| <= capacity {
        assert readers[i].Valid();
      }
    }

    /** The gap fill of append_part. */
    method CloseGap(capacity: nat, addr: U32)
      requires Valid() && Capacity(capacity) && readers != []
      modifies this`parts, Last()
      ensures Valid() && Capacity(capacity)
      ensures var k := |old(parts)| - 1;
        |old(parts)[k].data| <= capacity && parts == old(parts)[k := GapFilled(old(parts)[k], addr, capacity)]
    {
      hide Extended, Fill, Utils.AlignUp;
      var k := |readers| - 1;
      var end := Wrap(addrs[k] + readers[k].size);
      assert parts[k] == Part(addrs[k], readers[k].Contents());
      if end < addr <= Utils.AlignUp(end, Utils.FLASH_ALIGN) {
        FillLast(capacity, addr - end);
      } else {
        assert parts == parts[k := parts[k]];
      }
    }

    /** append_part */
    method Append(capacity: nat, limit: int, addr: U32, bytes: seq<Byte>) returns (code: int)
      requires Valid() && Capacity(capacity) && capacity < 0x8000_0000
      modifies Repr
      ensures Valid() && Capacity(capacity) && fresh(Repr - old(Repr))
      ensures Fits(old(parts), capacity) && Appended(parts, code) == AppendPart(old(parts), capacity, limit, addr, bytes)
    {
      hide Extended, GapFilled;
      PartsFit(capacity);
      if |readers| == 0 {
        Add(capacity, addr, bytes);
        return 1;
      }
      CloseGap(capacity, addr);
      var k := |readers| - 1;
      assert parts[k] == Part(addrs[k], readers[k].Contents());
      if Wrap(addrs[k] + readers[k].size) == addr {
        FeedLast(capacity, bytes);
        code := 0;
      } else if |readers| >= limit {
        code := TOO_MANY;
      } else {
        Add(capacity, addr, bytes);
        code := 1;
      }
    }
  }

  /** The limits and the memory map of one run. */
  datatype Limits = Limits(capacity: nat, parts: int, regions: seq<Region>)

  /** A chunk that carries bytes goes to the partitions at its translated address. */
  function Place(parts: seq<Part>, lim: Limits, c: Chunk): (r: Appended)
    requires Fits(parts, lim.capacity)
    ensures Fits(r.parts, lim.capacity)
  {
    if c.bytes == [] then Appended(parts, 0)
    else
      match Translate(lim.regions, c.addr)
      case None => Appended(parts, UNMAPPED)
      case Some(addr) => AppendPart(parts, lim.capacity, lim.parts, addr, c.bytes)
  }

  /** The partitions of a list of chunks. */
  function Assemble(parts: seq<Part>, lim: Limits, chunks: seq<Chunk>): (r: Appended)
    requires Fits(parts, lim.capacity)
    ensures Fits(r.parts, lim.capacity)
    decreases |chunks|
  {
    if chunks == [] then Appended(parts, 0)
    else
      var r := Place(parts, lim, chunks[0]);
      if r.code < 0 then r else Assemble(r.parts, lim, chunks[1..])
  }

  // ---- Chunks in any order ----

  /** The bytes lie in the partition at their address, as many of them as its buffer takes. */
  ghost predicate Rests(p: Part, capacity: nat, addr: U32, bytes: seq<Byte>) {
    exists n: nat :: RestsFrom(p, n, capacity, addr, bytes)
  }

  ghost predicate RestsFrom(p: Part, n: nat, capacity: nat, addr: U32, bytes: seq<Byte>) {
    && n <= |p.data| <= capacity && Wrap(p.addr + n) == addr
    && bytes[..Least(|bytes|, capacity - n)] <= p.data[n..]
  }

  /** A partition that has grown. */
  predicate Grows(p: Part, q: Part) { p.addr == q.addr && p.data <= q.data }

  ghost predicate AllGrow(parts: seq<Part>, more: seq<Part>) {
    |parts| <= |more| && forall i :: 0 <= i < |parts| ==> Grows(parts[i], more[i])
  }

  /** Nothing is lost but what a buffer cannot take: the chunk is in the last partition, and what the partitions held
      before they still hold. */
  lemma AppendKeeps(parts: seq<Part>, capacity: nat, limit: int, addr: U32, bytes: seq<Byte>)
    requires Fits(parts, capacity) && AppendPart(parts, capacity, limit, addr, bytes).code >= 0
    ensures var r := AppendPart(parts, capacity, limit, addr, bytes).parts;
      AllGrow(parts, r) && r != [] && Rests(r[|r| - 1], capacity, addr, bytes)
  {
    hide Utils.AlignUp, Fill, Extended, GapFilled, Rests;
    var r := AppendPart(parts, capacity, limit, addr, bytes).parts;
    var q := r[|r| - 1];
    if parts == [] {
      ExtendedRests(Part(addr, []), capacity, addr, bytes);
    } else {
      var k := |parts| - 1;
      var last := GapFilled(parts[k], addr, capacity);
      GapGrows(parts[k], addr, capacity);
      if last.End() == addr {
        ExtendedRests(last, capacity, addr, bytes);
        assert Grows(parts[k], r[k]);
      } else {
        ExtendedRests(Part(addr, []), capacity, addr, bytes);
      }
    }
  }

  lemma GapGrows(p: Part, addr: U32, capacity: nat)
    requires |p.data| <= capacity
    ensures Grows(p, GapFilled(p, addr, capacity))
  {
    hide Utils.AlignUp, Fill;
  }

  lemma ExtendedRests(p: Part, capacity: nat, addr: U32, bytes: seq<Byte>)
    requires |p.data| <= capacity && p.End() == addr
    ensures Rests(p.(data := Extended(p.data, bytes, capacity)), capacity, addr, bytes)
  {
    var q := p.(data := Extended(p.data, bytes, capacity));
    assert q.data[|p.data|..] == bytes[..Least(|bytes|, capacity - |p.data|)];
    assert RestsFrom(q, |p.data|, capacity, addr, bytes);
  }

  lemma RestsOn(p: Part, q: Part, capacity: nat, addr: U32, bytes: seq<Byte>)
    requires Rests(p, capacity, addr, bytes) && Grows(p, q) && |q.data| <= capacity
    ensures Rests(q, capacity, addr, bytes)
  {
    var n: nat :| RestsFrom(p, n, capacity, addr, bytes);
    assert p.data[n..] <= q.data[n..];
    assert RestsFrom(q, n, capacity, addr, bytes);
  }

  /** Chunk c is in one of the partitions. */
  ghost predicate Stays(parts: seq<Part>, lim: Limits, c: Chunk) {
    c.bytes != [] ==>
      && Translate(lim.regions, c.addr).Some?
      && exists i :: 0 <= i < |parts| && Rests(parts[i], lim.capacity, Translate(lim.regions, c.addr).value, c.bytes)
  }

  lemma StaysOn(parts: seq<Part>, more: seq<Part>, lim: Limits, c: Chunk)
    requires Stays(parts, lim, c) && AllGrow(parts, more) && Fits(more, lim.capacity)
    ensures Stays(more, lim, c)
  {
    hide Rests, Translate;
    if c.bytes != [] {
      var addr := Translate(lim.regions, c.addr).value;
      var i :| 0 <= i < |parts| && Rests(parts[i], lim.capacity, addr, c.bytes);
      assert Grows(parts[i], more[i]);
      RestsOn(parts[i], more[i], lim.capacity, addr, c.bytes);
    }
  }

  /** In whatever order chunks come, when they are accepted every one of them is in a partition. */
  lemma {:induction false} AssembleKeeps(parts: seq<Part>, lim: Limits, chunks: seq<Chunk>)
    requires Fits(parts, lim.capacity) && Assemble(parts, lim, chunks).code >= 0
    ensures var r := Assemble(parts, lim, chunks).parts;
      AllGrow(parts, r) && forall c :: c in chunks ==> Stays(r, lim, c)
    decreases |chunks|
  {
    hide AppendPart, Translate, Rests;
    if chunks != [] {
      var c := chunks[0];
      var a, r := Place(parts, lim, c), Assemble(parts, lim, chunks).parts;
      AssembleKeeps(a.parts, lim, chunks[1..]);
      if c.bytes != [] {
        AppendKeeps(parts, lim.capacity, lim.parts, Translate(lim.regions, c.addr).value, c.bytes);
      }
      StaysOn(a.parts, r, lim, c);
      forall i | 0 <= i < |parts| ensures Grows(parts[i], r[i]) {
        assert Grows(parts[i], a.parts[i]) && Grows(a.parts[i], r[i]);
      }
    }
  }

  /** The loop of read_parts_hex from a parser state on: address errors come before parse errors. */
  function ReadFrom(p: Parser, s: seq<Byte>, parts: seq<Part>, lim: Limits): (r: Appended)
    requires p.Valid() && !p.skip && Fits(parts, lim.capacity)
    decreases |s|, if p.processed then 0 else 1
  {
    var r := ParseBlob(p, s);
    BlobDelivers(p, s);
    var c := Chunk(r.Addr(), r.out);
    if c.bytes != [] && Translate(lim.regions, c.addr).None? then Appended(parts, UNMAPPED)
    else if Failed(r.status) then Appended(parts, PARSE_FAILED)
    else
      var a := Place(parts, lim, c);
      if a.code < 0 then a
      else if r.status == Unaligned then ReadFrom(r.p, s[r.parsed..], a.parts, lim)
      else Appended(a.parts, 0)
  }

  /** When no call fails, the loop assembles exactly the chunks of the parser. */
  lemma {:induction false} ReadIsAssemble(p: Parser, s: seq<Byte>, parts: seq<Part>, lim: Limits)
    requires p.Valid() && !p.skip && Fits(parts, lim.capacity) && !Failed(Feed(p, s).status)
    ensures ReadFrom(p, s, parts, lim).code < 0 <==> Assemble(parts, lim, Feed(p, s).chunks).code < 0
    ensures ReadFrom(p, s, parts, lim).code >= 0 ==>
      ReadFrom(p, s, parts, lim).parts == Assemble(parts, lim, Feed(p, s).chunks).parts
    decreases |s|, if p.processed then 0 else 1
  {
    hide ParseBlob, AppendPart;
    BlobDelivers(p, s);
    var r := ParseBlob(p, s);
    var c := Chunk(r.Addr(), r.out);
    var a := Place(parts, lim, c);
    var chunks := Feed(p, s).chunks;
    if r.status == Unaligned {
      assert chunks == [c] + Feed(r.p, s[r.parsed..]).chunks && chunks[1..] == Feed(r.p, s[r.parsed..]).chunks;
      if a.code >= 0 {
        ReadIsAssemble(r.p, s[r.parsed..], a.parts, lim);
      }
    } else {
      assert chunks == [c] && chunks[1..] == [];
    }
  }

  /** When a call fails, so does the read, whatever the chunks before it were. */
  lemma {:induction false} FailureEndsRead(p: Parser, s: seq<Byte>, parts: seq<Part>, lim: Limits)
    requires p.Valid() && !p.skip && Fits(parts, lim.capacity) && Failed(Feed(p, s).status)
    ensures ReadFrom(p, s, parts, lim).code < 0
    ensures Assemble(parts, lim, Feed(p, s).chunks).code >= 0 ==> ReadFrom(p, s, parts, lim).code == PARSE_FAILED
    decreases |s|, if p.processed then 0 else 1
  {
    hide ParseBlob, AppendPart;
    BlobDelivers(p, s);
    var r := ParseBlob(p, s);
    var c := Chunk(r.Addr(), r.out);
    var a := Place(parts, lim, c);
    var chunks := Feed(p, s).chunks;
    if r.status == Unaligned {
      assert chunks == [c] + Feed(r.p, s[r.parsed..]).chunks && chunks[1..] == Feed(r.p, s[r.parsed..]).chunks;
      if a.code >= 0 {
        FailureEndsRead(r.p, s[r.parsed..], a.parts, lim);
      }
    } else {
      assert chunks == [c] && chunks[1..] == [];
    }
  }

  lemma BlobBudget(p: Parser, s: seq<Byte>)
    requires p.Valid() && !p.skip
    ensures var r := ParseBlob(p, s);
      r.status == Unaligned ==> Held(r.p) + 2 * |Pending(r.p)| + |s| - r.parsed <= Held(p) + |s|
  {
    hide Scan, Held;
    assert p.(skip := false) == p;
    ScanBudget(Resume(p), s);
    Parsing.HeldOf(p);
  }

  /** What becomes of the bytes of one call: the address is checked before the status. */
  function Taken(parts: seq<Part>, lim: Limits, failed: bool, addr: U32, bytes: seq<Byte>): (r: Appended)
    requires Fits(parts, lim.capacity)
  {
    if bytes != [] && Translate(lim.regions, addr).None? then Appended(parts, UNMAPPED)
    else if failed then Appended(parts, PARSE_FAILED)
    else if bytes == [] then Appended(parts, 0)
    else AppendPart(parts, lim.capacity, lim.parts, Translate(lim.regions, addr).value, bytes)
  }

  method TakeChunk(table: PartTable, lim: Limits, failed: bool, addr: U32, bytes: seq<Byte>) returns (code: int)
    requires table.Valid() && table.Capacity(lim.capacity) && lim.capacity < 0x8000_0000
    modifies table.Repr
    ensures table.Valid() && table.Capacity(lim.capacity) && fresh(table.Repr - old(table.Repr))
    ensures Fits(old(table.parts), lim.capacity)
    ensures Appended(table.parts, code) == Taken(old(table.parts), lim, failed, addr, bytes)
  {
    hide Translate, AppendPart;
    table.PartsFit(lim.capacity);
    code := 0;
    if |bytes| > 0 {
      var offset := Translate(lim.regions, addr);
      if offset.None? {
        return UNMAPPED;
      }
      if failed {
        return PARSE_FAILED;
      }
      code := table.Append(lim.capacity, lim.parts, offset.value, bytes);
    } else if failed {
      return PARSE_FAILED;
    }
  }

  /** read_parts_hex for one file. Half the characters of the text fit the buffer of a partition: 48 MiB of
      text and 32 MiB of buffer. */
  method ReadPartsHex(text: seq<Byte>, table: PartTable, lim: Limits) returns (code: int)
    requires table.Valid() && table.Capacity(lim.capacity) && lim.capacity < 0x8000_0000
    requires 0 < |text| <= 2 * lim.capacity
    modifies table.Repr
    ensures table.Valid() && Fits(old(table.parts), lim.capacity) && fresh(table.Repr - old(table.Repr))
    ensures Appended(table.parts, code) == ReadFrom(FRESH, text, old(table.parts), lim)
  {
    hide ParseBlob, Place, Held, Pending, ReadFrom, Taken;
    table.PartsFit(lim.capacity);
    var parser := new Parsing.HexParser();
    var bin := new Byte[lim.capacity](_ => 0);
    var rest := text;
    ghost var goal := ReadFrom(FRESH, text, table.parts, lim);
    FreshBudget();
    while true
      invariant table.Valid() && table.Capacity(lim.capacity) && Fits(table.parts, lim.capacity)
      invariant fresh(table.Repr - old(table.Repr)) && fresh(parser) && fresh(parser.line) && fresh(bin)
      invariant parser !in table.Repr && parser.line !in table.Repr && bin !in table.Repr && bin != parser.line
      invariant parser.Valid() && !parser.skip
      invariant goal == ReadFrom(parser.State(), rest, table.parts, lim)
      invariant Held(parser.State()) + 2 * |Pending(parser.State())| + |rest| <= |text|
      decreases |rest|, if parser.processed then 0 else 1
    {
      ghost var p, parts := parser.State(), table.parts;
      BlobDelivers(p, rest);
      BlobBudget(p, rest);
      ReadStep(p, rest, parts, lim);
      var status, parsed, addr, cnt := parser.Parse(rest, bin);
      code := TakeChunk(table, lim, status == LineOverrun || status == ChecksumFail, addr, bin[..cnt]);
      if code < 0 {
        return;
      }
      if status != Unaligned {
        return 0;
      }
      rest := rest[parsed..];
    }
  }

  lemma FreshBudget()
    ensures Held(FRESH) + 2 * |Pending(FRESH)| == 0
  {
  }

  lemma ReadStep(p: Parser, s: seq<Byte>, parts: seq<Part>, lim: Limits)
    requires p.Valid() && !p.skip && Fits(parts, lim.capacity)
    ensures var r := ParseBlob(p, s);
      var a := Taken(parts, lim, Failed(r.status), r.Addr(), r.out);
      && r.p.Valid() && r.parsed <= |s| && Fits(a.parts, lim.capacity)
      && (a.code >= 0 && r.status == Unaligned ==> !r.p.skip)
      && ReadFrom(p, s, parts, lim) ==
           if a.code < 0 then a
           else if r.status == Unaligned then BlobDelivers(p, s); ReadFrom(r.p, s[r.parsed..], a.parts, lim)
           else Appended(a.parts, 0)
  {
    hide ParseBlob, AppendPart;
    BlobDelivers(p, s);
  }
}
