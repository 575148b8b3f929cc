/** What the assembled partitions hold, as a map from flash offsets to bytes. */
module Partitions {
  import opened Bytes
  import opened FlashMemory
  import opened HexStream
  import opened MemIo
  import opened ReadPartsHex
  import Utils

  type Layout = map<int, Byte>

  /** Consecutive bytes from offset a on. */
  function Stretch(a: int, d: seq<Byte>): (l: Layout)
    ensures forall x :: x in l <==> a <= x < a + |d|
    ensures forall x :: x in l ==> l[x] == d[x - a]
  {
    map x: int | a <= x < a + |d| && Within(x, a, |d|) :: d[x - a]
  }

  predicate Within(x: int, a: int, n: nat) { a <= x < a + n }

  function LayoutOf(parts: seq<Part>): Layout
    decreases |parts|
  {
    if parts == [] then map[]
    else LayoutOf(parts[..|parts| - 1]) + Stretch(parts[|parts| - 1].addr, parts[|parts| - 1].data)
  }

  /** The image that a stream of cells stands for when its region starts at `base`. */
  function ImageOf(cells: seq<Cell>, base: int): Layout {
    ImageFrom(map[], cells, base)
  }

  function ImageFrom(l: Layout, cells: seq<Cell>, base: int): Layout
    decreases |cells|
  {
    if cells == [] then l else ImageFrom(l[cells[0].addr - base := cells[0].value], cells[1..], base)
  }

  function Sectors(l: Layout): set<int> { set x | x in l :: x / 0x1000 }

  /** The layout is the image, and 0xFF in sectors that the image touches. */
  ghost predicate Carries(l: Layout, image: Layout) {
    && (forall x :: x in image ==> x in l && l[x] == image[x])
    && (forall x :: x in l && x !in image ==> l[x] == 0xFF)
    && (forall x :: x in l ==> x / 0x1000 in Sectors(image))
  }

  function EndOf(p: Part): int { p.addr + |p.data| }

  /** Partitions are not empty, ascend, and share no sector. */
  ghost predicate Separated(parts: seq<Part>) {
    && (forall i :: 0 <= i < |parts| ==> parts[i].data != [] && EndOf(parts[i]) <= 0xFFFF_F000)
    && (forall i, j :: 0 <= i < j < |parts| ==> RoundUp(EndOf(parts[i])) < parts[j].addr)
  }

  lemma StretchJoin(a: int, d: seq<Byte>, e: seq<Byte>)
    ensures Stretch(a, d + e) == Stretch(a, d) + Stretch(a + |d|, e)
  {
  }

  lemma RoundUpBounds(n: int)
    ensures n <= RoundUp(n) < n + 0x1000 && RoundUp(n) % 0x1000 == 0
    ensures forall x :: n <= x < RoundUp(n) ==> x / 0x1000 == (n - 1) / 0x1000
  {
  }

  /** The fill stays inside the sector of the byte before it. */
  lemma FillSector(end: int, addr: int, x: int)
    requires end <= x < addr <= RoundUp(end)
    ensures x / 0x1000 == (end - 1) / 0x1000
  {
    RoundUpBounds(end);
  }

  lemma CarriesSectors(l: Layout, image: Layout, end: int, addr: int, bytes: seq<Byte>, x: int)
    requires end == addr || (end < addr <= RoundUp(end) && end - 1 in l)
    requires Carries(l, image) && x in l + Stretch(end, Fill(0xFF, addr - end)) + Stretch(addr, bytes)
    ensures x / 0x1000 in Sectors(image + Stretch(addr, bytes))
  {
    hide Sectors, RoundUp, Fill;
    var image' := image + Stretch(addr, bytes);
    if x in Stretch(addr, bytes) {
      InOwnSector(image', x);
    } else if x in l {
      InSectors(image, image', x / 0x1000);
    } else {
      FillSector(end, addr, x);
      assert (end - 1) / 0x1000 in Sectors(image);
      InSectors(image, image', x / 0x1000);
    }
  }

  lemma InOwnSector(l: Layout, x: int)
    requires x in l
    ensures x / 0x1000 in Sectors(l)
  {
  }

  lemma CarriesValues(l: Layout, image: Layout, end: int, addr: int, bytes: seq<Byte>)
    requires Carries(l, image) && end <= addr && forall x :: x in l ==> x < end
    ensures var l', image' := l + Stretch(end, Fill(0xFF, addr - end)) + Stretch(addr, bytes), image + Stretch(addr, bytes);
      && (forall x :: x in image' ==> x in l' && l'[x] == image'[x])
      && (forall x :: x in l' && x !in image' ==> l'[x] == 0xFF)
  {
    hide Sectors;
  }

  /** Adding a stretch of the image, after a gap that is filled inside one sector, keeps the layout in step. */
  lemma CarriesOn(l: Layout, image: Layout, end: int, addr: int, bytes: seq<Byte>)
    requires Carries(l, image)
    requires end == addr || (end < addr <= RoundUp(end) && end - 1 in l)
    requires forall x :: x in l ==> x < end
    ensures Carries(l + Stretch(end, Fill(0xFF, addr - end)) + Stretch(addr, bytes), image + Stretch(addr, bytes))
  {
    hide Sectors, Stretch, Fill, RoundUp;
    var l' := l + Stretch(end, Fill(0xFF, addr - end)) + Stretch(addr, bytes);
    CarriesValues(l, image, end, addr, bytes);
    forall x | x in l' ensures x / 0x1000 in Sectors(image + Stretch(addr, bytes)) {
      CarriesSectors(l, image, end, addr, bytes, x);
    }
  }

  lemma InSectors(image: Layout, more: Layout, k: int)
    requires k in Sectors(image) && image.Keys <= more.Keys
    ensures k in Sectors(more)
  {
    var x :| x in image && x / 0x1000 == k;
    assert x in more;
  }

  // ---- One chunk ----

  /** The first partition is never refused; the limit is tested when another one is started. */
  predicate CountFits(n: nat, limit: int) { n <= 1 || n <= limit }

  lemma {:induction false} LayoutPush(parts: seq<Part>, p: Part)
    ensures LayoutOf(parts + [p]) == LayoutOf(parts) + Stretch(p.addr, p.data)
  {
    assert (parts + [p])[..|parts|] == parts;
  }

  /** The last partition grows by d. */
  lemma LayoutGrow(parts: seq<Part>, d: seq<Byte>)
    requires parts != []
    ensures var k := |parts| - 1;
      var p := parts[k];
      LayoutOf(parts[k := p.(data := p.data + d)]) == LayoutOf(parts) + Stretch(EndOf(p), d)
  {
    hide LayoutOf, Stretch;
    var k := |parts| - 1;
    var p := parts[k];
    var q := parts[k := p.(data := p.data + d)];
    assert q[..k] == parts[..k];
    LayoutLast(parts);
    LayoutLast(q);
    StretchJoin(p.addr, p.data, d);
    SumsAssociate(LayoutOf(parts[..k]), Stretch(p.addr, p.data), Stretch(EndOf(p), d));
  }

  lemma LayoutLast(parts: seq<Part>)
    requires parts != []
    ensures var k := |parts| - 1; LayoutOf(parts) == LayoutOf(parts[..k]) + Stretch(parts[k].addr, parts[k].data)
  {
  }

  lemma SumsAssociate(a: Layout, b: Layout, c: Layout)
    ensures a + b + c == a + (b + c)
  {
  }

  lemma {:induction false} LayoutBounded(parts: seq<Part>)
    requires Separated(parts) && parts != []
    ensures forall x :: x in LayoutOf(parts) ==> x < EndOf(parts[|parts| - 1])
    ensures EndOf(parts[|parts| - 1]) - 1 in LayoutOf(parts)
    decreases |parts|
  {
    var k := |parts| - 1;
    if k > 0 {
      LayoutBounded(parts[..k]);
      RoundUpBounds(EndOf(parts[k - 1]));
      assert RoundUp(EndOf(parts[k - 1])) < parts[k].addr;
    }
  }

  lemma EndIs(p: Part)
    requires p.data != [] && EndOf(p) <= 0xFFFF_F000
    ensures p.End() == EndOf(p) && Utils.AlignUp(p.End(), Utils.FLASH_ALIGN) == RoundUp(EndOf(p))
  {
    hide Utils.AlignUp;
    assert p.End() == EndOf(p);
    Utils.SectorUp(p.End());
  }

  /** The partitions carry the image, and the next chunk starts at or above `end`. */
  ghost predicate Sound(parts: seq<Part>, image: Layout) {
    Separated(parts) && Carries(LayoutOf(parts), image)
  }

  function LastEnd(parts: seq<Part>): int { if parts == [] then 0 else EndOf(parts[|parts| - 1]) }

  lemma SeparatedPush(parts: seq<Part>, p: Part)
    requires Separated(parts) && p.data != [] && EndOf(p) <= 0xFFFF_F000
    requires parts != [] ==> RoundUp(LastEnd(parts)) < p.addr
    ensures Separated(parts + [p])
  {
    forall i | 0 <= i < |parts| ensures RoundUp(EndOf(parts[i])) < p.addr {
      if i < |parts| - 1 {
        RoundUpBounds(LastEnd(parts));
        assert RoundUp(EndOf(parts[i])) < parts[|parts| - 1].addr;
      }
    }
  }

  lemma PlaceNew(parts: seq<Part>, image: Layout, p: Part)
    requires Sound(parts, image) && p.data != [] && EndOf(p) <= 0xFFFF_F000
    requires parts != [] ==> RoundUp(LastEnd(parts)) < p.addr
    ensures Sound(parts + [p], image + Stretch(p.addr, p.data))
  {
    hide LayoutOf, Separated, Carries, RoundUp;
    SeparatedPush(parts, p);
    LayoutPush(parts, p);
    LayoutBelow(parts, p.addr);
    CarriesOn(LayoutOf(parts), image, p.addr, p.addr, p.data);
    assert Stretch(p.addr, Fill(0xFF, 0)) == map[];
    assert LayoutOf(parts) + map[] == LayoutOf(parts);
  }

  lemma LayoutBelow(parts: seq<Part>, addr: int)
    requires Separated(parts) && (parts != [] ==> RoundUp(LastEnd(parts)) < addr)
    ensures forall x :: x in LayoutOf(parts) ==> x < addr
  {
    hide LayoutOf;
    if parts == [] {
      LayoutNone();
    } else {
      LayoutBounded(parts);
      RoundUpBounds(LastEnd(parts));
    }
  }

  lemma LayoutNone()
    ensures LayoutOf([]) == map[]
  {
  }

  lemma SeparatedGrown(parts: seq<Part>, addr: int, bytes: seq<Byte>)
    requires Separated(parts) && parts != [] && bytes != [] && LastEnd(parts) <= addr && addr + |bytes| <= 0xFFFF_F000
    ensures var k := |parts| - 1;
      var p := parts[k];
      Separated(parts[k := p.(data := p.data + Fill(0xFF, addr - EndOf(p)) + bytes)])
  {
    hide RoundUp, Fill;
  }

  lemma PlaceGrown(parts: seq<Part>, image: Layout, addr: int, bytes: seq<Byte>)
    requires Sound(parts, image) && parts != [] && bytes != [] && addr + |bytes| <= 0xFFFF_F000
    requires LastEnd(parts) <= addr <= RoundUp(LastEnd(parts))
    ensures var k := |parts| - 1;
      var p := parts[k];
      Sound(parts[k := p.(data := p.data + Fill(0xFF, addr - EndOf(p)) + bytes)], image + Stretch(addr, bytes))
  {
    hide LayoutOf, Sectors, Separated, Carries, Stretch, Fill, RoundUp;
    var k := |parts| - 1;
    var p, fill := parts[k], Fill(0xFF, addr - EndOf(parts[k]));
    var mid := parts[k := p.(data := p.data + fill)];
    SeparatedGrown(parts, addr, bytes);
    LayoutBounded(parts);
    LayoutGrow(parts, fill);
    LayoutGrow(mid, bytes);
    assert mid[k := mid[k].(data := mid[k].data + bytes)] == parts[k := p.(data := p.data + fill + bytes)];
    CarriesOn(LayoutOf(parts), image, EndOf(p), addr, bytes);
  }

  /** Appending below the end of the last sector grows the last partition, when the whole fits its buffer. */
  lemma AppendGrows(parts: seq<Part>, lim: Limits, addr: U32, bytes: seq<Byte>)
    requires Fits(parts, lim.capacity) && parts != [] && parts[|parts| - 1].data != []
    requires LastEnd(parts) <= addr <= RoundUp(LastEnd(parts)) && LastEnd(parts) <= 0xFFFF_F000
    requires addr + |bytes| - parts[|parts| - 1].addr <= lim.capacity
    ensures var k := |parts| - 1;
      AppendPart(parts, lim.capacity, lim.parts, addr, bytes)
      == Appended(parts[k := parts[k].(data := parts[k].data + Fill(0xFF, addr - EndOf(parts[k])) + bytes)], 0)
  {
    hide RoundUp, Fill, GapFilled;
    var k := |parts| - 1;
    var last := GapFilled(parts[k], addr, lim.capacity);
    GapCloses(parts[k], lim.capacity, addr);
    assert last.End() == addr;
    ExtendedFits(last.data, bytes, lim.capacity);
  }

  lemma ExtendedFits(d: seq<Byte>, bytes: seq<Byte>, capacity: nat)
    requires |d| + |bytes| <= capacity
    ensures Extended(d, bytes, capacity) == d + bytes
  {
  }

  lemma EndAt(p: Part, addr: U32)
    requires EndOf(p) == addr
    ensures p.End() == addr
  {
  }

  /** The gap up to an address in the last sector is filled whole. */
  lemma GapCloses(p: Part, capacity: nat, addr: U32)
    requires p.data != [] && EndOf(p) <= addr <= RoundUp(EndOf(p)) && EndOf(p) <= 0xFFFF_F000
    requires addr - p.addr <= capacity
    ensures GapFilled(p, addr, capacity) == p.(data := p.data + Fill(0xFF, addr - EndOf(p)))
    ensures GapFilled(p, addr, capacity).End() == addr
  {
    hide RoundUp, Fill, Part.End, Extended, Utils.AlignUp;
    EndIs(p);
    FillNothing(p.data);
    ExtendedFits(p.data, Fill(0xFF, addr - EndOf(p)), capacity);
    EndAt(p.(data := p.data + Fill(0xFF, addr - EndOf(p))), addr);
  }

  lemma FillNothing(d: seq<Byte>)
    ensures d + Fill(0xFF, 0) == d
  {
  }

  /** Appending above it starts a new partition, unless there are too many. */
  lemma AppendStarts(parts: seq<Part>, lim: Limits, addr: U32, bytes: seq<Byte>)
    requires Fits(parts, lim.capacity) && |bytes| <= lim.capacity
    requires parts != [] ==> parts[|parts| - 1].data != [] && LastEnd(parts) <= 0xFFFF_F000 && RoundUp(LastEnd(parts)) < addr
    ensures AppendPart(parts, lim.capacity, lim.parts, addr, bytes)
         == if parts == [] || |parts| < lim.parts then Appended(parts + [Part(addr, bytes)], 1) else Appended(parts, TOO_MANY)
  {
    assert [] + bytes == bytes;
    if parts != [] {
      var k := |parts| - 1;
      EndIs(parts[k]);
      RoundUpBounds(EndOf(parts[k]));
      assert parts[k := parts[k]] == parts;
    }
  }

  /** The chunk continues the last partition. */
  predicate Continues(parts: seq<Part>, addr: int) { parts != [] && addr <= RoundUp(LastEnd(parts)) }

  /** Where the partition that takes the chunk starts. */
  function StartFor(parts: seq<Part>, addr: int): int {
    if Continues(parts, addr) then parts[|parts| - 1].addr else addr
  }

  /** One chunk that lies at or above the end of the last partition, and fits the partition that takes it. */
  lemma PlaceSound(parts: seq<Part>, image: Layout, lim: Limits, c: Chunk, base: int)
    requires Fits(parts, lim.capacity) && Sound(parts, image) && c.bytes != []
    requires Translate(lim.regions, c.addr) == Some(c.addr - base)
    requires LastEnd(parts) <= c.addr - base && c.addr - base + |c.bytes| <= 0xFFFF_F000
    requires c.addr - base + |c.bytes| - StartFor(parts, c.addr - base) <= lim.capacity
    ensures var a := Place(parts, lim, c);
      && (a.code >= 0 <==> Continues(parts, c.addr - base) || parts == [] || |parts| < lim.parts)
      && (a.code >= 0 ==>
            && Sound(a.parts, image + Stretch(c.addr - base, c.bytes))
            && LastEnd(a.parts) == c.addr - base + |c.bytes|
            && Spans(a.parts) == if Continues(parts, c.addr - base)
                                 then Spans(parts[..|parts| - 1]) + [Span(parts[|parts| - 1].addr, c.addr - base + |c.bytes|)]
                                 else Spans(parts) + [Span(c.addr - base, c.addr - base + |c.bytes|)])
  {
    hide Sound, LayoutOf, AppendPart, RoundUp;
    var addr: U32 := c.addr - base;
    if parts != [] {
      SoundLast(parts, image);
    }
    if Continues(parts, addr) {
      AppendGrows(parts, lim, addr, c.bytes);
      PlaceGrown(parts, image, addr, c.bytes);
    } else {
      AppendStarts(parts, lim, addr, c.bytes);
      if parts == [] || |parts| < lim.parts {
        PlaceNew(parts, image, Part(addr, c.bytes));
      }
    }
  }

  lemma SoundLast(parts: seq<Part>, image: Layout)
    requires Sound(parts, image) && parts != []
    ensures var p := parts[|parts| - 1]; p.data != [] && EndOf(p) <= 0xFFFF_F000
  {
  }

  // ---- Runs ----

  /** A stretch of addresses, its end excluded. */
  datatype Span = Span(start: int, end: int)

  function Spans(parts: seq<Part>): seq<Span> {
    seq(|parts|, i requires 0 <= i < |parts| => Span(parts[i].addr, EndOf(parts[i])))
  }

  /** The runs of a stream of cells, of which the first is open from start to end: a cell continues a run up to the
      end of the sector behind it. */
  function RunsFrom(start: int, end: int, cells: seq<Cell>, base: int): (r: seq<Span>)
    ensures r != [] && r[0].start == start
    decreases |cells|
  {
    if cells == [] then [Span(start, end)]
    else
      var x := cells[0].addr - base;
      if x <= RoundUp(end) then RunsFrom(start, x + 1, cells[1..], base)
      else [Span(start, end)] + RunsFrom(x, x + 1, cells[1..], base)
  }

  function Runs(cells: seq<Cell>, base: int): seq<Span> {
    if cells == [] then []
    else RunsFrom(cells[0].addr - base, cells[0].addr - base + 1, cells[1..], base)
  }

  predicate RunsFit(runs: seq<Span>, capacity: nat) {
    forall i :: 0 <= i < |runs| ==> runs[i].end - runs[i].start <= capacity
  }

  predicate RunsAligned(runs: seq<Span>) { forall i :: 0 <= i < |runs| ==> runs[i].start % 0x1000 == 0 }

  /** The runs of partitions and of the cells that are still to come. */
  function OpenRuns(parts: seq<Part>, cells: seq<Cell>, base: int): seq<Span> {
    if parts == [] then Runs(cells, base)
    else
      var k := |parts| - 1;
      Spans(parts[..k]) + RunsFrom(parts[k].addr, EndOf(parts[k]), cells, base)
  }

  /** Consecutive cells prolong the open run. */
  lemma {:induction false} RunsOn(start: int, a: int, d: seq<Byte>, cells: seq<Cell>, base: int)
    requires |d| <= |cells| && Starts(cells, a + base, d)
    ensures RunsFrom(start, a, cells, base) == RunsFrom(start, a + |d|, cells[|d|..], base)
    decreases |d|
  {
    hide Starts, RunsFrom, RoundUp;
    if d == [] {
      assert cells[0..] == cells;
    } else {
      RoundUpBounds(a);
      StartsOn(cells, a + base, d);
      RunsFirst(start, a, cells, base);
      RunsOn(start, a + 1, d[1..], cells[1..], base);
    }
  }

  lemma RunsFirst(start: int, end: int, cells: seq<Cell>, base: int)
    requires cells != [] && cells[0].addr - base <= RoundUp(end)
    ensures RunsFrom(start, end, cells, base) == RunsFrom(start, cells[0].addr - base + 1, cells[1..], base)
  {
  }

  lemma RunsStep(start: int, end: int, a: int, d: seq<Byte>, cells: seq<Cell>, base: int)
    requires d != [] && |d| <= |cells| && Starts(cells, a + base, d)
    ensures RunsFrom(start, end, cells, base)
         == if a <= RoundUp(end) then RunsFrom(start, a + |d|, cells[|d|..], base)
            else [Span(start, end)] + RunsFrom(a, a + |d|, cells[|d|..], base)
  {
    hide Starts, RoundUp;
    StartsOn(cells, a + base, d);
    RunsOn(start, a + 1, d[1..], cells[1..], base);
    RunsOn(a, a + 1, d[1..], cells[1..], base);
  }

  /** A run only grows. */
  lemma {:induction false} RunsLast(start: int, end: int, cells: seq<Cell>, base: int)
    requires Ascend(cells) && (cells != [] ==> end <= cells[0].addr - base)
    ensures end <= RunsFrom(start, end, cells, base)[0].end
    decreases |cells|
  {
    if cells != [] && cells[0].addr - base <= RoundUp(end) {
      RunsLast(start, cells[0].addr - base + 1, cells[1..], base);
    }
  }

  /** A chunk that lies above the partitions moves its cells from the stream into the open run. */
  lemma OpenStep(parts: seq<Part>, c: Chunk, rest: seq<Cell>, base: int)
    requires Ascend(At(c.addr, c.bytes) + rest) && c.bytes != []
    requires parts != [] ==> LastEnd(parts) <= c.addr - base
    ensures var a, n := c.addr - base, |c.bytes|;
      OpenRuns(parts, At(c.addr, c.bytes) + rest, base)
      == if Continues(parts, a) then Spans(parts[..|parts| - 1]) + RunsFrom(parts[|parts| - 1].addr, a + n, rest, base)
         else Spans(parts) + RunsFrom(a, a + n, rest, base)
  {
    hide At, Ascend, RoundUp, RunsFrom;
    var cells, a := At(c.addr, c.bytes) + rest, c.addr - base;
    NoWrap(c.addr, c.bytes, rest);
    assert Starts(cells, a + base, c.bytes) && cells[|c.bytes|..] == rest;
    if parts == [] {
      RunsBegin(a, c.bytes, cells, base);
      assert Spans(parts) == [];
    } else {
      var k := |parts| - 1;
      RunsStep(parts[k].addr, EndOf(parts[k]), a, c.bytes, cells, base);
      SpansLast(parts);
      if !Continues(parts, a) {
        assert Spans(parts[..k]) + ([Span(parts[k].addr, EndOf(parts[k]))] + RunsFrom(a, a + |c.bytes|, rest, base))
            == Spans(parts) + RunsFrom(a, a + |c.bytes|, rest, base);
      }
    }
  }

  lemma RunsBegin(a: int, d: seq<Byte>, cells: seq<Cell>, base: int)
    requires d != [] && |d| <= |cells| && Starts(cells, a + base, d)
    ensures Runs(cells, base) == RunsFrom(a, a + |d|, cells[|d|..], base)
  {
    hide Starts, RunsFrom;
    StartsOn(cells, a + base, d);
    RunsOn(a, a + 1, d[1..], cells[1..], base);
  }

  lemma SpansLast(parts: seq<Part>)
    requires parts != []
    ensures var k := |parts| - 1; Spans(parts) == Spans(parts[..k]) + [Span(parts[k].addr, EndOf(parts[k]))]
  {
  }

  // ---- All chunks ----

  ghost predicate Ascend(cells: seq<Cell>) {
    forall i, j :: 0 <= i < j < |cells| ==> cells[i].addr < cells[j].addr
  }

  /** All cells lie in one region, which starts at base, and not in the last sector below 2^32. */
  ghost predicate OneRegion(cells: seq<Cell>, lim: Limits, base: int) {
    forall i :: 0 <= i < |cells| ==>
      InRegion(lim.regions, cells[i].addr, base) && cells[i].addr - base < 0xFFFF_F000
  }

  lemma FirstCells(addr: U32, d: seq<Byte>, rest: seq<Cell>)
    ensures forall i :: 0 <= i < |d| ==> (At(addr, d) + rest)[i] == Cell(Wrap(addr + i), d[i])
  {
    forall i | 0 <= i < |d| ensures (At(addr, d) + rest)[i] == Cell(Wrap(addr + i), d[i]) {
      assert (At(addr, d) + rest)[i] == At(addr, d)[i];
    }
  }

  lemma WrapBreaks(addr: U32, d: seq<Byte>, rest: seq<Cell>)
    requires addr + |d| > 0x1_0000_0000
    ensures !Ascend(At(addr, d) + rest)
  {
    hide At;
    var cells, k := At(addr, d) + rest, 0x1_0000_0000 - addr;
    FirstCells(addr, d, rest);
    assert cells[k] == Cell(0, d[k]) && cells[k - 1].addr >= cells[k].addr;
  }

  /** Ascending cells do not wrap inside a chunk. */
  lemma NoWrap(addr: U32, d: seq<Byte>, rest: seq<Cell>)
    requires Ascend(At(addr, d) + rest)
    ensures addr + |d| <= 0x1_0000_0000
    ensures forall i :: 0 <= i < |d| ==> (At(addr, d) + rest)[i] == Cell(addr + i, d[i])
  {
    hide At, Ascend;
    FirstCells(addr, d, rest);
    if addr + |d| > 0x1_0000_0000 {
      WrapBreaks(addr, d, rest);
    }
  }

  lemma StretchFirst(l: Layout, a: int, d: seq<Byte>)
    requires d != []
    ensures l[a := d[0]] + Stretch(a + 1, d[1..]) == l + Stretch(a, d)
  {
  }

  lemma ImageStep(l: Layout, a: int, d: seq<Byte>, cells: seq<Cell>, base: int)
    requires d != [] && cells != [] && cells[0].addr == a && cells[0].value == d[0]
    ensures ImageFrom(l, cells, base) == ImageFrom(l[a - base := d[0]], cells[1..], base)
    ensures l[a - base := d[0]] + Stretch(a + 1 - base, d[1..]) == l + Stretch(a - base, d)
  {
    StretchFirst(l, a - base, d);
  }

  /** The first cells are d from address a on. */
  predicate Starts(cells: seq<Cell>, a: int, d: seq<Byte>) {
    |d| <= |cells| && forall i :: 0 <= i < |d| ==> cells[i].addr == a + i && cells[i].value == d[i]
  }

  lemma StartsOn(cells: seq<Cell>, a: int, d: seq<Byte>)
    requires Starts(cells, a, d) && d != []
    ensures cells[0].addr == a && cells[0].value == d[0] && Starts(cells[1..], a + 1, d[1..])
    ensures cells[1..][|d| - 1..] == cells[|d|..]
  {
  }

  lemma {:induction false} ImageOfStretch(l: Layout, a: int, d: seq<Byte>, cells: seq<Cell>, base: int)
    requires |d| <= |cells| && Starts(cells, a, d)
    ensures ImageFrom(l, cells, base) == ImageFrom(l + Stretch(a - base, d), cells[|d|..], base)
    decreases |d|
  {
    hide ImageFrom, Stretch, Starts;
    if d == [] {
      StretchNothing(l, a - base);
      assert cells[0..] == cells;
    } else {
      StartsOn(cells, a, d);
      ImageStep(l, a, d, cells, base);
      ImageOfStretch(l[a - base := d[0]], a + 1, d[1..], cells[1..], base);
    }
  }

  /** The place of a chunk whose cells ascend in one region. */
  lemma ChunkSpan(c: Chunk, rest: seq<Cell>, lim: Limits, base: int)
    requires var cells := At(c.addr, c.bytes) + rest; Ascend(cells) && OneRegion(cells, lim, base)
    requires c.bytes != []
    ensures Translate(lim.regions, c.addr) == Some(c.addr - base)
    ensures 0 <= c.addr - base && c.addr - base + |c.bytes| <= 0xFFFF_F000
    ensures (At(c.addr, c.bytes) + rest)[0].addr == c.addr
    ensures rest != [] ==> c.addr + |c.bytes| <= rest[0].addr
  {
    hide At, Translate, InRegion;
    var cells, n := At(c.addr, c.bytes) + rest, |c.bytes| - 1;
    TranslateIs(lim.regions, c.addr, base);
    NoWrap(c.addr, c.bytes, rest);
    assert cells[0] == Cell(c.addr, c.bytes[0]) && cells[n] == Cell(c.addr + n, c.bytes[n]);
    if rest != [] {
      assert cells[n].addr < cells[n + 1].addr && cells[n + 1] == rest[0];
    }
  }

  /** The image after the cells of a chunk. */
  lemma ChunkImage(image: Layout, c: Chunk, rest: seq<Cell>, base: int)
    requires Ascend(At(c.addr, c.bytes) + rest)
    ensures ImageFrom(image, At(c.addr, c.bytes) + rest, base)
         == ImageFrom(image + Stretch(c.addr - base, c.bytes), rest, base)
  {
    hide At, Ascend, ImageFrom, Stretch;
    var cells := At(c.addr, c.bytes) + rest;
    NoWrap(c.addr, c.bytes, rest);
    assert cells[|c.bytes|..] == rest;
    assert Starts(cells, c.addr, c.bytes);
    ImageOfStretch(image, c.addr, c.bytes, cells, base);
  }

  /** The chunk fits the partition that takes it. */
  predicate FitsAt(parts: seq<Part>, lim: Limits, c: Chunk, base: int) {
    c.bytes == [] || c.addr - base + |c.bytes| - StartFor(parts, c.addr - base) <= lim.capacity
  }

  /** Partitions and a stream of cells above them. */
  ghost predicate Under(parts: seq<Part>, cells: seq<Cell>, lim: Limits, base: int) {
    && Fits(parts, lim.capacity) && Ascend(cells) && OneRegion(cells, lim, base)
    && (cells != [] ==> LastEnd(parts) <= cells[0].addr - base)
  }

  /** The first chunk of a stream of cells, when it fits: the runs stay what they are. */
  lemma FirstChunk(parts: seq<Part>, image: Layout, lim: Limits, c: Chunk, rest: seq<Cell>, base: int)
    requires Sound(parts, image) && Under(parts, At(c.addr, c.bytes) + rest, lim, base) && FitsAt(parts, lim, c, base)
    ensures var a := Place(parts, lim, c);
      && (a.code >= 0 <==> c.bytes == [] || Continues(parts, c.addr - base) || parts == [] || |parts| < lim.parts)
      && ImageFrom(image, At(c.addr, c.bytes) + rest, base) == ImageFrom(image + Stretch(c.addr - base, c.bytes), rest, base)
      && (a.code >= 0 ==>
            && Sound(a.parts, image + Stretch(c.addr - base, c.bytes)) && Under(a.parts, rest, lim, base)
            && OpenRuns(a.parts, rest, base) == OpenRuns(parts, At(c.addr, c.bytes) + rest, base))
  {
    hide Sound, Place, At, Translate, ImageFrom, Under, Stretch, OpenRuns, Continues, FitsAt;
    if c.bytes == [] {
      NoneFirst(parts, image, lim, c, rest, base);
    } else {
      SomeFirst(parts, image, lim, c, rest, base);
    }
  }

  lemma NoneFirst(parts: seq<Part>, image: Layout, lim: Limits, c: Chunk, rest: seq<Cell>, base: int)
    requires Under(parts, At(c.addr, c.bytes) + rest, lim, base) && c.bytes == []
    ensures Place(parts, lim, c) == Appended(parts, 0) && At(c.addr, c.bytes) + rest == rest
    ensures image + Stretch(c.addr - base, c.bytes) == image
  {
    PlaceNothing(parts, lim, c);
    StretchNothing(image, c.addr - base);
  }

  lemma SomeFirst(parts: seq<Part>, image: Layout, lim: Limits, c: Chunk, rest: seq<Cell>, base: int)
    requires Sound(parts, image) && Under(parts, At(c.addr, c.bytes) + rest, lim, base) && FitsAt(parts, lim, c, base)
    requires c.bytes != []
    ensures var a := Place(parts, lim, c);
      && (a.code >= 0 <==> Continues(parts, c.addr - base) || parts == [] || |parts| < lim.parts)
      && ImageFrom(image, At(c.addr, c.bytes) + rest, base) == ImageFrom(image + Stretch(c.addr - base, c.bytes), rest, base)
      && (a.code >= 0 ==>
            && Sound(a.parts, image + Stretch(c.addr - base, c.bytes)) && Under(a.parts, rest, lim, base)
            && OpenRuns(a.parts, rest, base) == OpenRuns(parts, At(c.addr, c.bytes) + rest, base))
  {
    hide Sound, Place, At, Translate, ImageFrom, Ascend, OneRegion, LastEnd, Stretch, RunsFrom, Continues, OpenRuns, Spans;
    var cells := At(c.addr, c.bytes) + rest;
    ChunkImage(image, c, rest, base);
    RestCells(cells, |c.bytes|, lim, base);
    assert cells[|c.bytes|..] == rest;
    ChunkSpan(c, rest, lim, base);
    PlaceSound(parts, image, lim, c, base);
    OpenStep(parts, c, rest, base);
    var a := Place(parts, lim, c);
    if a.code >= 0 {
      OpenPlaced(parts, a.parts, c.addr - base, |c.bytes|, rest, base);
    }
  }

  lemma OpenPlaced(parts: seq<Part>, r: seq<Part>, a: int, n: nat, rest: seq<Cell>, base: int)
    requires Spans(r) == if Continues(parts, a) then Spans(parts[..|parts| - 1]) + [Span(parts[|parts| - 1].addr, a + n)]
                         else Spans(parts) + [Span(a, a + n)]
    ensures OpenRuns(r, rest, base)
         == if Continues(parts, a) then Spans(parts[..|parts| - 1]) + RunsFrom(parts[|parts| - 1].addr, a + n, rest, base)
            else Spans(parts) + RunsFrom(a, a + n, rest, base)
  {
    hide RunsFrom, Continues;
    assert r != [] by {
      assert |Spans(r)| == |r|;
    }
    SpansOpen(r, rest, base);
  }

  lemma SpansOpen(parts: seq<Part>, cells: seq<Cell>, base: int)
    requires parts != []
    ensures var k := |parts| - 1;
      Spans(parts)[..k] == Spans(parts[..k])
      && OpenRuns(parts, cells, base) == Spans(parts)[..k] + RunsFrom(Spans(parts)[k].start, Spans(parts)[k].end, cells, base)
  {
    hide RunsFrom;
  }

  lemma StretchNothing(l: Layout, a: int)
    ensures l + Stretch(a, []) == l
  {
  }

  /** A chunk fits when the run that takes it does. */
  lemma FitsOpen(parts: seq<Part>, lim: Limits, c: Chunk, rest: seq<Cell>, base: int)
    requires Under(parts, At(c.addr, c.bytes) + rest, lim, base)
    requires RunsFit(OpenRuns(parts, At(c.addr, c.bytes) + rest, base), lim.capacity)
    ensures FitsAt(parts, lim, c, base)
  {
    hide At, Translate, RunsFrom, RoundUp;
    if c.bytes != [] {
      var cells, a := At(c.addr, c.bytes) + rest, c.addr - base;
      ChunkSpan(c, rest, lim, base);
      RestCells(cells, |c.bytes|, lim, base);
      assert cells[|c.bytes|..] == rest;
      OpenStep(parts, c, rest, base);
      var runs := RunsFrom(StartFor(parts, a), a + |c.bytes|, rest, base);
      RunsLast(StartFor(parts, a), a + |c.bytes|, rest, base);
      var before := if Continues(parts, a) then Spans(parts[..|parts| - 1]) else Spans(parts);
      assert OpenRuns(parts, cells, base)[|before|] == runs[0];
    }
  }

  /** When all runs fit, the assembly succeeds if and only if there are not too many of them, and then the partitions
      are the runs and carry the image. */
  lemma {:induction false} AssembleSound(parts: seq<Part>, image: Layout, lim: Limits, chunks: seq<Chunk>, base: int)
    requires Sound(parts, image) && Under(parts, Cells(chunks), lim, base) && CountFits(|parts|, lim.parts)
    requires RunsFit(OpenRuns(parts, Cells(chunks), base), lim.capacity)
    ensures var a := Assemble(parts, lim, chunks);
      && (a.code >= 0 <==> CountFits(|OpenRuns(parts, Cells(chunks), base)|, lim.parts))
      && (a.code >= 0 ==>
            Sound(a.parts, ImageFrom(image, Cells(chunks), base)) && Spans(a.parts) == OpenRuns(parts, Cells(chunks), base))
    decreases |chunks|
  {
    hide Sound, Place, At, Under, RunsFit, ImageFrom, Continues;
    if chunks == [] {
      NoCells(parts, image, base);
    } else {
      var c, rest := chunks[0], chunks[1..];
      UnderFits(parts, Cells(chunks), lim, base);
      var a := Place(parts, lim, c);
      FitsOpen(parts, lim, c, Cells(rest), base);
      FirstChunk(parts, image, lim, c, Cells(rest), base);
      if a.code >= 0 {
        PlaceCounts(parts, lim, c);
        AssembleSound(a.parts, image + Stretch(c.addr - base, c.bytes), lim, rest, base);
      } else {
        TooManyRuns(parts, lim, c, Cells(rest), base);
      }
    }
  }

  lemma UnderFits(parts: seq<Part>, cells: seq<Cell>, lim: Limits, base: int)
    requires Under(parts, cells, lim, base)
    ensures Fits(parts, lim.capacity) && Ascend(cells) && OneRegion(cells, lim, base)
  {
  }

  lemma NoCells(parts: seq<Part>, image: Layout, base: int)
    ensures OpenRuns(parts, [], base) == Spans(parts) && ImageFrom(image, [], base) == image
  {
    if parts != [] {
      SpansLast(parts);
    }
  }

  /** The limit is tested for each partition but the first. */
  lemma PlaceCounts(parts: seq<Part>, lim: Limits, c: Chunk)
    requires Fits(parts, lim.capacity) && CountFits(|parts|, lim.parts) && Place(parts, lim, c).code >= 0
    ensures CountFits(|Place(parts, lim, c).parts|, lim.parts)
  {
  }

  lemma TooManyRuns(parts: seq<Part>, lim: Limits, c: Chunk, rest: seq<Cell>, base: int)
    requires Under(parts, At(c.addr, c.bytes) + rest, lim, base) && c.bytes != [] && !Continues(parts, c.addr - base)
    requires parts != [] && |parts| >= lim.parts
    ensures !CountFits(|OpenRuns(parts, At(c.addr, c.bytes) + rest, base)|, lim.parts)
  {
    hide At, RunsFrom, Continues, Translate;
    ChunkSpan(c, rest, lim, base);
    OpenStep(parts, c, rest, base);
  }

  lemma PlaceNothing(parts: seq<Part>, lim: Limits, c: Chunk)
    requires Fits(parts, lim.capacity) && c.bytes == []
    ensures Place(parts, lim, c) == Appended(parts, 0)
  {
  }

  lemma RestCells(cells: seq<Cell>, n: nat, lim: Limits, base: int)
    requires n <= |cells| && Ascend(cells) && OneRegion(cells, lim, base)
    ensures Ascend(cells[n..]) && OneRegion(cells[n..], lim, base)
  {
  }

  /** Ascending cells of one region whose runs fit the buffer of a partition assemble if and only if there are not too
      many runs. The partitions are the runs: they ascend, share no sector, and hold exactly the image and 0xFF in
      sectors that the image touches. */
  lemma PartitionsCarryImage(lim: Limits, chunks: seq<Chunk>, base: int)
    requires Ascend(Cells(chunks)) && OneRegion(Cells(chunks), lim, base)
    requires RunsFit(Runs(Cells(chunks), base), lim.capacity)
    ensures var a, runs := Assemble([], lim, chunks), Runs(Cells(chunks), base);
      && (a.code >= 0 <==> CountFits(|runs|, lim.parts))
      && (a.code >= 0 ==>
            Spans(a.parts) == runs && Separated(a.parts) && Carries(LayoutOf(a.parts), ImageOf(Cells(chunks), base)))
  {
    hide Assemble, ImageFrom, Ascend, Carries, Separated, LayoutOf, Runs;
    NothingSound();
    AssembleSound([], map[], lim, chunks, base);
  }

  lemma NothingSound()
    ensures Sound([], map[])
  {
  }
}
