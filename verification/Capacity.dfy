/** What becomes of runs that do not fit the buffer of a partition: bytes are dropped without an error. */
module Capacity {
  import opened Bytes
  import opened FlashMemory
  import opened HexStream
  import opened MemIo
  import opened Partitions
  import opened ReadPartsHex
  import Utils

  /** No partition holds offset x, and none can reach it any more. */
  ghost predicate Skipped(parts: seq<Part>, x: int) {
    && parts != [] && x % 0x1000 == 0 && 0 <= x <= 0xFFFF_F000
    && (forall i :: 0 <= i < |parts| ==> EndOf(parts[i]) <= x || parts[i].addr > x)
    && (LastEnd(parts) == x || parts[|parts| - 1].addr > x)
  }

  lemma {:induction false} SkippedMissing(parts: seq<Part>, x: int)
    requires forall i :: 0 <= i < |parts| ==> EndOf(parts[i]) <= x || parts[i].addr > x
    ensures x !in LayoutOf(parts)
    decreases |parts|
  {
    if parts != [] {
      SkippedMissing(parts[..|parts| - 1], x);
    }
  }

  /** Appending leaves all partitions but the last alone, and the start of the last one. */
  lemma AppendShape(parts: seq<Part>, capacity: nat, limit: int, addr: U32, bytes: seq<Byte>)
    requires Fits(parts, capacity) && parts != []
    ensures var r, k := AppendPart(parts, capacity, limit, addr, bytes).parts, |parts| - 1;
      && k < |r| <= k + 2 && r[..k] == parts[..k] && r[k].addr == parts[k].addr
      && (|r| == k + 2 ==> r[k + 1].addr == addr)
  {
    hide Extended, GapFilled;
  }

  /** At the end of a full buffer on a sector boundary, the next chunk starts a partition of its own. */
  lemma FullStarts(parts: seq<Part>, capacity: nat, limit: int, addr: U32, bytes: seq<Byte>, x: int)
    requires Fits(parts, capacity) && parts != [] && parts[|parts| - 1].addr <= x == LastEnd(parts)
    requires x % 0x1000 == 0 && 0 <= x <= 0xFFFF_F000 && addr > x
    ensures var a := AppendPart(parts, capacity, limit, addr, bytes);
      a.code >= 0 ==> a.parts == parts + [Part(addr, Extended([], bytes, capacity))]
  {
    hide Extended;
    var k := |parts| - 1;
    assert parts[k].End() == x;
    FullSector(x);
    assert GapFilled(parts[k], addr, capacity) == parts[k];
    assert parts[k := parts[k]] == parts;
  }

  lemma SkippedAppend(parts: seq<Part>, capacity: nat, limit: int, addr: U32, bytes: seq<Byte>, x: int)
    requires Fits(parts, capacity) && Skipped(parts, x) && addr > x
    requires AppendPart(parts, capacity, limit, addr, bytes).code >= 0
    ensures Skipped(AppendPart(parts, capacity, limit, addr, bytes).parts, x)
  {
    hide AppendPart;
    if parts[|parts| - 1].addr <= x {
      FullStarts(parts, capacity, limit, addr, bytes, x);
    } else {
      AppendShape(parts, capacity, limit, addr, bytes);
      SkippedSame(parts, AppendPart(parts, capacity, limit, addr, bytes).parts, addr, x);
    }
  }

  lemma SkippedSame(parts: seq<Part>, r: seq<Part>, addr: int, x: int)
    requires Skipped(parts, x) && parts[|parts| - 1].addr > x && addr > x
    requires |parts| <= |r| <= |parts| + 1 && r[..|parts| - 1] == parts[..|parts| - 1]
    requires r[|parts| - 1].addr == parts[|parts| - 1].addr && (|r| > |parts| ==> r[|parts|].addr == addr)
    ensures Skipped(r, x)
  {
    forall i | 0 <= i < |r| ensures EndOf(r[i]) <= x || r[i].addr > x {
      if i < |parts| - 1 {
        assert r[i] == r[..|parts| - 1][i] == parts[i];
      }
    }
  }

  lemma FullSector(x: int)
    requires x % 0x1000 == 0 && 0 <= x <= 0xFFFF_F000
    ensures Utils.AlignUp(x, Utils.FLASH_ALIGN) == x
  {
    hide Utils.AlignUp;
    Utils.SectorUp(x);
  }

  lemma {:induction false} SkippedForGood(parts: seq<Part>, lim: Limits, chunks: seq<Chunk>, base: int, x: int)
    requires Fits(parts, lim.capacity) && Skipped(parts, x)
    requires Ascend(Cells(chunks)) && OneRegion(Cells(chunks), lim, base)
    requires Cells(chunks) != [] ==> x < Cells(chunks)[0].addr - base
    requires Assemble(parts, lim, chunks).code >= 0
    ensures x !in LayoutOf(Assemble(parts, lim, chunks).parts)
    decreases |chunks|
  {
    hide Skipped, AppendPart, At, Ascend, OneRegion, LayoutOf, Translate;
    if chunks == [] {
      SkippedIs(parts, x);
      SkippedMissing(parts, x);
    } else {
      var c, rest := chunks[0], chunks[1..];
      var cells := At(c.addr, c.bytes) + Cells(rest);
      RestCells(cells, |c.bytes|, lim, base);
      assert cells[|c.bytes|..] == Cells(rest);
      if c.bytes == [] {
        PlaceNothing(parts, lim, c);
        assert cells == Cells(rest);
      } else {
        ChunkSpan(c, Cells(rest), lim, base);
        SkippedAppend(parts, lim.capacity, lim.parts, c.addr - base, c.bytes, x);
      }
      SkippedForGood(Place(parts, lim, c).parts, lim, rest, base, x);
    }
  }

  lemma SkippedIs(parts: seq<Part>, x: int)
    requires Skipped(parts, x)
    ensures forall i :: 0 <= i < |parts| ==> EndOf(parts[i]) <= x || parts[i].addr > x
  {
  }

  /** A chunk that does not fit is cut off where the buffer ends. */
  lemma CutOff(parts: seq<Part>, image: Layout, lim: Limits, c: Chunk, base: int) returns (x: int)
    requires Fits(parts, lim.capacity) && Sound(parts, image) && c.bytes != [] && lim.capacity % 0x1000 == 0
    requires Translate(lim.regions, c.addr) == Some(c.addr - base)
    requires LastEnd(parts) <= c.addr - base && c.addr - base + |c.bytes| <= 0xFFFF_F000
    requires !FitsAt(parts, lim, c, base) && StartFor(parts, c.addr - base) % 0x1000 == 0
    requires Place(parts, lim, c).code >= 0
    ensures c.addr - base <= x < c.addr - base + |c.bytes|
    ensures Skipped(Place(parts, lim, c).parts, x)
  {
    hide Sound, RoundUp;
    var addr: U32 := c.addr - base;
    var a := StartFor(parts, addr);
    x := a + lim.capacity;
    if Continues(parts, addr) {
      SoundParts(parts, image);
      CutGrown(parts, lim, addr, c.bytes);
    } else {
      if parts != [] {
        SoundParts(parts, image);
      }
      CutNew(parts, lim, addr, c.bytes);
    }
  }

  lemma SoundParts(parts: seq<Part>, image: Layout)
    requires Sound(parts, image) && parts != []
    ensures parts[|parts| - 1].data != [] && LastEnd(parts) <= 0xFFFF_F000
    ensures forall i :: 0 <= i < |parts| - 1 ==> EndOf(parts[i]) <= parts[|parts| - 1].addr
  {
    forall i | 0 <= i < |parts| - 1 ensures EndOf(parts[i]) <= parts[|parts| - 1].addr {
      RoundUpBounds(EndOf(parts[i]));
    }
  }

  lemma RoundUpUnder(n: int, limit: int)
    requires limit % 0x1000 == 0 && n <= limit
    ensures RoundUp(n) <= limit
  {
  }

  lemma CutGrown(parts: seq<Part>, lim: Limits, addr: U32, bytes: seq<Byte>)
    requires Fits(parts, lim.capacity) && parts != [] && parts[|parts| - 1].data != [] && LastEnd(parts) <= 0xFFFF_F000
    requires forall i :: 0 <= i < |parts| - 1 ==> EndOf(parts[i]) <= parts[|parts| - 1].addr
    requires LastEnd(parts) <= addr <= RoundUp(LastEnd(parts)) && addr + |bytes| <= 0xFFFF_F000
    requires lim.capacity % 0x1000 == 0 && parts[|parts| - 1].addr % 0x1000 == 0
    requires addr + |bytes| - parts[|parts| - 1].addr > lim.capacity
    ensures var x := parts[|parts| - 1].addr + lim.capacity;
      && addr <= x && AppendPart(parts, lim.capacity, lim.parts, addr, bytes).code == 0
      && Skipped(AppendPart(parts, lim.capacity, lim.parts, addr, bytes).parts, x)
  {
    hide RoundUp, AppendPart;
    var k := |parts| - 1;
    RoundUpUnder(EndOf(parts[k]), parts[k].addr + lim.capacity);
    var q := FillsUp(parts, lim, addr, bytes);
  }

  /** The last partition takes what its buffer holds. */
  lemma FillsUp(parts: seq<Part>, lim: Limits, addr: U32, bytes: seq<Byte>) returns (q: Part)
    requires Fits(parts, lim.capacity) && parts != [] && parts[|parts| - 1].data != [] && LastEnd(parts) <= 0xFFFF_F000
    requires LastEnd(parts) <= addr <= RoundUp(LastEnd(parts)) && addr - parts[|parts| - 1].addr <= lim.capacity
    requires addr + |bytes| - parts[|parts| - 1].addr > lim.capacity
    ensures q.addr == parts[|parts| - 1].addr && |q.data| == lim.capacity
    ensures AppendPart(parts, lim.capacity, lim.parts, addr, bytes) == Appended(parts[|parts| - 1 := q], 0)
  {
    hide RoundUp, Fill, GapFilled;
    var k := |parts| - 1;
    var last := GapFilled(parts[k], addr, lim.capacity);
    GapCloses(parts[k], lim.capacity, addr);
    assert last.End() == addr;
    q := last.(data := Extended(last.data, bytes, lim.capacity));
  }

  lemma CutNew(parts: seq<Part>, lim: Limits, addr: U32, bytes: seq<Byte>)
    requires Fits(parts, lim.capacity) && addr + |bytes| <= 0xFFFF_F000
    requires parts != [] ==> parts[|parts| - 1].data != [] && LastEnd(parts) <= 0xFFFF_F000
    requires parts != [] ==> RoundUp(LastEnd(parts)) < addr
    requires forall i :: 0 <= i < |parts| - 1 ==> EndOf(parts[i]) <= parts[|parts| - 1].addr
    requires lim.capacity % 0x1000 == 0 && addr % 0x1000 == 0 && |bytes| > lim.capacity
    requires AppendPart(parts, lim.capacity, lim.parts, addr, bytes).code >= 0
    ensures Skipped(AppendPart(parts, lim.capacity, lim.parts, addr, bytes).parts, addr + lim.capacity)
  {
    hide RoundUp;
    var r := AppendPart(parts, lim.capacity, lim.parts, addr, bytes).parts;
    var first := Part(addr, Extended([], bytes, lim.capacity));
    assert |first.data| == lim.capacity;
    if parts == [] {
      assert r == [first];
    } else {
      var k := |parts| - 1;
      EndIs(parts[k]);
      RoundUpBounds(EndOf(parts[k]));
      assert parts[k := parts[k]] == parts;
      assert r == parts + [first];
    }
  }

  lemma {:induction false} ImageKeeps(l: Layout, cells: seq<Cell>, base: int, x: int)
    requires x in l
    ensures x in ImageFrom(l, cells, base)
    decreases |cells|
  {
    if cells != [] {
      ImageKeeps(l[cells[0].addr - base := cells[0].value], cells[1..], base, x);
    }
  }

  /** When an aligned run does not fit, a byte of the image is in no partition. */
  lemma {:induction false} AssembleLoses(parts: seq<Part>, image: Layout, lim: Limits, chunks: seq<Chunk>, base: int)
      returns (x: int)
    requires Sound(parts, image) && Under(parts, Cells(chunks), lim, base) && lim.capacity % 0x1000 == 0
    requires !RunsFit(OpenRuns(parts, Cells(chunks), base), lim.capacity)
    requires RunsAligned(OpenRuns(parts, Cells(chunks), base))
    requires Assemble(parts, lim, chunks).code >= 0
    ensures x in ImageFrom(image, Cells(chunks), base) && x !in LayoutOf(Assemble(parts, lim, chunks).parts)
    decreases |chunks|
  {
    hide Sound, Place, At, Under, RunsFit, ImageFrom, Continues, RunsAligned, LayoutOf, FitsAt, StartFor, Stretch, Translate;
    UnderFits(parts, Cells(chunks), lim, base);
    if chunks == [] {
      NoCells(parts, image, base);
      PartsFit(parts, lim.capacity);
      assert false;
    } else {
      var c, rest := chunks[0], chunks[1..];
      var cells := At(c.addr, c.bytes) + Cells(rest);
      var a := Place(parts, lim, c);
      if FitsAt(parts, lim, c, base) {
        FirstChunk(parts, image, lim, c, Cells(rest), base);
        x := AssembleLoses(a.parts, image + Stretch(c.addr - base, c.bytes), lim, rest, base);
      } else {
        x := LosesHere(parts, image, lim, c, rest, base);
      }
    }
  }

  lemma PartsFit(parts: seq<Part>, capacity: nat)
    requires Fits(parts, capacity)
    ensures RunsFit(Spans(parts), capacity)
  {
  }

  lemma LosesHere(parts: seq<Part>, image: Layout, lim: Limits, c: Chunk, rest: seq<Chunk>, base: int) returns (x: int)
    requires var cells := At(c.addr, c.bytes) + Cells(rest);
      Sound(parts, image) && Under(parts, cells, lim, base) && RunsAligned(OpenRuns(parts, cells, base))
    requires lim.capacity % 0x1000 == 0 && !FitsAt(parts, lim, c, base)
    requires Place(parts, lim, c).code >= 0 && Assemble(Place(parts, lim, c).parts, lim, rest).code >= 0
    ensures x in ImageFrom(image, At(c.addr, c.bytes) + Cells(rest), base)
    ensures x !in LayoutOf(Assemble(Place(parts, lim, c).parts, lim, rest).parts)
  {
    hide Sound, Place, At, ImageFrom, Translate, LayoutOf, Ascend, OneRegion, Skipped, Assemble;
    var cells := At(c.addr, c.bytes) + Cells(rest);
    ChunkSpan(c, Cells(rest), lim, base);
    StartAligned(parts, c, Cells(rest), lim, base);
    x := CutOff(parts, image, lim, c, base);
    ChunkImage(image, c, Cells(rest), base);
    ImageKeeps(image + Stretch(c.addr - base, c.bytes), Cells(rest), base, x);
    RestCells(cells, |c.bytes|, lim, base);
    assert cells[|c.bytes|..] == Cells(rest);
    SkippedForGood(Place(parts, lim, c).parts, lim, rest, base, x);
  }

  lemma StartAligned(parts: seq<Part>, c: Chunk, rest: seq<Cell>, lim: Limits, base: int)
    requires Under(parts, At(c.addr, c.bytes) + rest, lim, base) && c.bytes != []
    requires RunsAligned(OpenRuns(parts, At(c.addr, c.bytes) + rest, base))
    ensures StartFor(parts, c.addr - base) % 0x1000 == 0
  {
    hide At, Translate, RunsFrom, RoundUp;
    var a := c.addr - base;
    ChunkSpan(c, rest, lim, base);
    OpenStep(parts, c, rest, base);
    var before := if Continues(parts, a) then Spans(parts[..|parts| - 1]) else Spans(parts);
    assert OpenRuns(parts, At(c.addr, c.bytes) + rest, base)[|before|]
        == RunsFrom(StartFor(parts, a), a + |c.bytes|, rest, base)[0];
  }

  /** With a capacity of whole sectors, partitions that were assembled without an error from aligned runs carry the image
      if and only if every run fits the buffer. */
  lemma CarriesIffRunsFit(lim: Limits, chunks: seq<Chunk>, base: int)
    requires Ascend(Cells(chunks)) && OneRegion(Cells(chunks), lim, base)
    requires RunsAligned(Runs(Cells(chunks), base)) && lim.capacity % 0x1000 == 0
    requires Assemble([], lim, chunks).code >= 0
    ensures Carries(LayoutOf(Assemble([], lim, chunks).parts), ImageOf(Cells(chunks), base))
       <==> RunsFit(Runs(Cells(chunks), base), lim.capacity)
  {
    hide Assemble, ImageFrom, Ascend, Separated, LayoutOf, Runs, RunsFit, RunsAligned;
    if RunsFit(Runs(Cells(chunks), base), lim.capacity) {
      PartitionsCarryImage(lim, chunks, base);
    } else {
      NothingSound();
      var x := AssembleLoses([], map[], lim, chunks, base);
    }
  }
}
