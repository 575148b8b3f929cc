/** From the text of a HEX file to the flash: parser, partitions, and session put together. */
module EndToEnd {
  import opened Bytes
  import opened FlashImage
  import opened FlashMemory
  import opened HexFormat
  import opened HexStream
  import opened IntelHex
  import opened Partitions
  import opened ReadPartsHex
  import Api
  import Cmd
  import Enter
  import HexErrors
  import Reading
  import SerialBurn
  import SessionPlan

  /** The text is the HEX file of the rows, with digits of either case and any line ends. */
  ghost predicate Depicts(text: seq<Byte>, rows: seq<Row>) {
    Ascending(rows) && Spells(Strip(text), Encode(rows, 0))
  }

  lemma RowCells(r: Row)
    requires r.Valid()
    ensures |At(r.addr, r.data)| == |r.data| && r.End() <= 0x1_0000_0000
    ensures forall i :: 0 <= i < |r.data| ==> At(r.addr, r.data)[i].addr == r.addr as int + i
  {
    FirstCells(r.addr, r.data, []);
    assert At(r.addr, r.data) + [] == At(r.addr, r.data);
    var page := r.addr / 0x1_0000;
    assert r.End() <= page * 0x1_0000 + 0x1_0000;
  }

  lemma {:induction false} ImageAbove(rows: seq<Row>, low: int)
    requires Ascending(rows) && (rows != [] ==> low <= rows[0].addr)
    ensures forall k :: 0 <= k < |Image(rows)| ==> low <= Image(rows)[k].addr
    decreases |rows|
  {
    if rows != [] {
      ImageAbove(rows[1..], rows[0].End());
      var first := At(rows[0].addr, rows[0].data);
      RowCells(rows[0]);
      forall k | 0 <= k < |Image(rows)| ensures low <= Image(rows)[k].addr {
        if k >= |first| {
          assert Image(rows)[k] == Image(rows[1..])[k - |first|];
        } else {
          assert Image(rows)[k] == first[k];
        }
      }
    }
  }

  /** The cells of ascending rows ascend. */
  lemma {:induction false} ImageAscends(rows: seq<Row>)
    requires Ascending(rows)
    ensures Ascend(Image(rows))
    decreases |rows|
  {
    if rows != [] {
      var r, rest := rows[0], rows[1..];
      var first := At(r.addr, r.data);
      RowCells(r);
      ImageAscends(rest);
      ImageAbove(rest, r.End());
      forall i, j | 0 <= i < j < |Image(rows)| ensures Image(rows)[i].addr < Image(rows)[j].addr {
        if i >= |first| {
          assert Image(rows)[i] == Image(rest)[i - |first|] && Image(rows)[j] == Image(rest)[j - |first|];
        } else if j >= |first| {
          assert Image(rows)[i] == first[i] && Image(rows)[j] == Image(rest)[j - |first|];
        } else {
          assert Image(rows)[i] == first[i] && Image(rows)[j] == first[j];
        }
      }
    }
  }

  /** The runs of an image suit the reader and the flash: each fits the buffer of a partition, starts on a sector, and
      ends inside the flash, and there are not too many of them. */
  predicate Suitable(runs: seq<Span>, lim: Limits, size: nat) {
    && RunsFit(runs, lim.capacity) && RunsAligned(runs) && CountFits(|runs|, lim.parts)
    && forall i :: 0 <= i < |runs| ==> runs[i].end <= size
  }

  /** A text whose cells ascend in one region, with runs that fit the buffers, is read if and only if there are not too
      many runs; then each run has become a partition, and together they carry the cells. */
  lemma TextBecomesRuns(text: seq<Byte>, lim: Limits, base: int)
    requires !Failed(Feed(FRESH, text).status)
    requires Ascend(Cells(Feed(FRESH, text).chunks)) && OneRegion(Cells(Feed(FRESH, text).chunks), lim, base)
    requires RunsFit(Runs(Cells(Feed(FRESH, text).chunks), base), lim.capacity)
    ensures var r, cells := ReadFrom(FRESH, text, [], lim), Cells(Feed(FRESH, text).chunks);
      && (r.code >= 0 <==> CountFits(|Runs(cells, base)|, lim.parts))
      && (r.code >= 0 ==>
            && Spans(r.parts) == Runs(cells, base) && Separated(r.parts)
            && Carries(LayoutOf(r.parts), ImageOf(cells, base)))
  {
    hide Feed, ReadFrom, Assemble, ImageOf, LayoutOf, Carries, Runs, RunsFit, Separated, Spans;
    ReadIsAssemble(FRESH, text, [], lim);
    PartitionsCarryImage(lim, Feed(FRESH, text).chunks, base);
  }

  lemma SuitableFits(runs: seq<Span>, lim: Limits, size: nat)
    requires Suitable(runs, lim, size)
    ensures RunsFit(runs, lim.capacity) && CountFits(|runs|, lim.parts)
  {
  }

  lemma SuitableSpans(parts: seq<Part>, lim: Limits, size: nat)
    requires Suitable(Spans(parts), lim, size)
    ensures Aligned(parts) && forall i :: 0 <= i < |parts| ==> EndOf(parts[i]) <= size
  {
    hide RunsFit, CountFits;
    var runs := Spans(parts);
    forall i | 0 <= i < |parts| ensures parts[i].addr % 0x1000 == 0 && EndOf(parts[i]) <= size {
      assert runs[i] == Span(parts[i].addr, EndOf(parts[i]));
    }
  }

  /** Burning the partitions of a text puts exactly the bytes it delivers onto the flash, 0xFF into the rest of their
      sectors, and changes nothing else. */
  lemma CellsReachFlash(text: seq<Byte>, lim: Limits, base: int, flash: Flash)
    requires !Failed(Feed(FRESH, text).status)
    requires Ascend(Cells(Feed(FRESH, text).chunks)) && OneRegion(Cells(Feed(FRESH, text).chunks), lim, base)
    requires Suitable(Runs(Cells(Feed(FRESH, text).chunks), base), lim, |flash|)
    ensures ReadFrom(FRESH, text, [], lim).code >= 0
    ensures BurnAll(flash, ReadFrom(FRESH, text, [], lim).parts)
         == Imprint(flash, ImageOf(Cells(Feed(FRESH, text).chunks), base))
  {
    hide Feed, ReadFrom, BurnAll, Imprint, ImageOf, LayoutOf, Carries, Runs, Separated, Spans, Suitable, Ascend,
         OneRegion;
    SuitableFits(Runs(Cells(Feed(FRESH, text).chunks), base), lim, |flash|);
    TextBecomesRuns(text, lim, base);
    SuitableSpans(ReadFrom(FRESH, text, [], lim).parts, lim, |flash|);
    PartsReachFlash(ReadFrom(FRESH, text, [], lim).parts, Cells(Feed(FRESH, text).chunks), base, flash);
  }

  lemma PartsReachFlash(parts: seq<Part>, cells: seq<Cell>, base: int, flash: Flash)
    requires Separated(parts) && Aligned(parts) && Carries(LayoutOf(parts), ImageOf(cells, base))
    requires forall i :: 0 <= i < |parts| ==> EndOf(parts[i]) <= |flash|
    ensures BurnAll(flash, parts) == Imprint(flash, ImageOf(cells, base))
  {
    hide BurnAll, Imprint, ImageOf, LayoutOf, Carries, Separated;
    BurnAllImprints(flash, parts);
    ImprintOfImage(flash, LayoutOf(parts), ImageOf(cells, base));
  }

  /** The whole way for an encoded image: write its rows as HEX in any digit case and with any line ends, parse and
      assemble the text, burn the partitions, and the flash holds the image. */
  lemma ImageReachesFlash(rows: seq<Row>, text: seq<Byte>, lim: Limits, base: int, flash: Flash)
    requires Depicts(text, rows) && OneRegion(Image(rows), lim, base)
    requires Suitable(Runs(Image(rows), base), lim, |flash|)
    ensures ReadFrom(FRESH, text, [], lim).code >= 0
    ensures BurnAll(flash, ReadFrom(FRESH, text, [], lim).parts) == Imprint(flash, ImageOf(Image(rows), base))
  {
    hide Feed, ReadFrom, BurnAll, Imprint, ImageOf, Image, Ascending, Ascend, Spells, Suitable, OneRegion, Encode,
         Runs;
    ImageRoundTrip(rows, text);
    ImageAscends(rows);
    CellsReachFlash(text, lim, base, flash);
  }

  /** The same for any records whose pages agree with the Intel format. */
  lemma MeaningReachesFlash(recs: seq<Record>, text: seq<Byte>, lim: Limits, base: int, flash: Flash)
    requires AllValid(recs) && Spells(Strip(text), recs) && PagesAgree(recs, Linear(0), 0)
    requires Ascend(Meaning(recs, Linear(0))) && OneRegion(Meaning(recs, Linear(0)), lim, base)
    requires Suitable(Runs(Meaning(recs, Linear(0)), base), lim, |flash|)
    ensures ReadFrom(FRESH, text, [], lim).code >= 0
    ensures BurnAll(flash, ReadFrom(FRESH, text, [], lim).parts) == Imprint(flash, ImageOf(Meaning(recs, Linear(0)), base))
  {
    hide Feed, ReadFrom, BurnAll, Imprint, ImageOf, Meaning, PagesAgree, Ascend, Spells, Suitable, OneRegion, Runs;
    DriverDelivers(recs, text);
    HexRoundTrip(recs, text);
    CellsReachFlash(text, lim, base, flash);
  }

  /** A file that is cut off inside a record is read without an error, and the flash holds the complete records. */
  lemma CutTextReachesFlash(recs: seq<Record>, whole: seq<Byte>, part: seq<Byte>, text: seq<Byte>, lim: Limits, base: int,
      flash: Flash)
    requires AllValid(recs) && Spells(whole, recs) && PartOfRecord(part) && Strip(text) == whole + part
    requires Ascend(Delivered(recs, 0)) && OneRegion(Delivered(recs, 0), lim, base)
    requires Suitable(Runs(Delivered(recs, 0), base), lim, |flash|)
    ensures ReadFrom(FRESH, text, [], lim).code >= 0
    ensures BurnAll(flash, ReadFrom(FRESH, text, [], lim).parts) == Imprint(flash, ImageOf(Delivered(recs, 0), base))
  {
    hide Feed, ReadFrom, BurnAll, Imprint, ImageOf, Delivered, Ascend, Spells, Suitable, OneRegion, Runs,
         PartOfRecord, HasEof;
    CutTextDelivers(recs, whole, part, text);
    CellsReachFlash(text, lim, base, flash);
  }

  /** Accepted partitions start on sectors and end inside the flash. */
  lemma AcceptedFits(o: SessionPlan.Options, parts: seq<Part>, flashSize: int, logical: bool, m: Api.FlashMap, size: nat)
    requires o.target.ToFlash? && SessionPlan.Small(parts) && flashSize <= size
    requires SessionPlan.Accepted(o, SessionPlan.AreasOf(parts), flashSize, logical, m)
    ensures Aligned(parts) && forall i :: 0 <= i < |parts| ==> EndOf(parts[i]) <= size
  {
    SessionPlan.PartsAllowed(o, parts, flashSize, logical, m);
    forall i | 0 <= i < |parts| ensures parts[i].addr % 0x1000 == 0 && EndOf(parts[i]) <= size {
      assert SessionPlan.AllowedPart(o, SessionPlan.AreaOf(parts[i]), flashSize, logical, m);
    }
  }

  /** A file with a wrong checksum or an over-long line is refused. */
  lemma CorruptRefused(text: seq<Byte>, lim: Limits)
    requires HexErrors.Corrupt(text)
    ensures ReadFrom(FRESH, text, [], lim).code < 0
  {
    hide ReadFrom, HexErrors.Corrupt;
    HexErrors.CorruptFails(text);
    FailureEndsRead(FRESH, text, [], lim);
  }

  /** Read a HEX file and burn it: the return code, the session, and the code of the reader. */
  method BurnHex(text: seq<Byte>, host: Cmd.Host, o: SessionPlan.Options, lim: Limits, files: seq<Reading.Writer?>)
    returns (ret: int, session: SerialBurn.Session, code: int)
    requires host.Valid() && |o.nand| == 8 && lim.capacity < 0x8000_0000 && 0 < |text| <= 2 * lim.capacity
    requires |files| == |o.readBack|
    requires forall i :: 0 <= i < |files| && files[i] != null ==> files[i].written == []
    requires forall i, j :: 0 <= i < j < |files| && files[i] != null ==> files[i] != files[j]
    requires o.connect.Valid()
    modifies host, host.wire, host.req, host.res
    modifies set f | f in files && f != null
    ensures fresh(session) && code == ReadFrom(FRESH, text, [], lim).code
    ensures code < 0 ==> ret == code && host.wire.device == old(host.wire.device)
    ensures HexErrors.Corrupt(text) ==>
              ret < 0 && host.wire.device == old(host.wire.device) && host.wire.log == old(host.wire.log)
    ensures ret == 0 ==> session.Valid() && session.Knows() && session.Heeds()
    ensures forall rows: seq<Row>, base: int ::
      && ret == 0 && Enter.HonestDevice(host.wire.script) && o.target.ToFlash?
      && SessionPlan.ErasesItself(host.chip, host.wire.device.medium)
      && Depicts(text, rows) && OneRegion(Image(rows), lim, base)
      && RunsFit(Runs(Image(rows), base), lim.capacity)
      && session.flashSize <= |old(host.wire.device.store.bytes)| ==>
        host.wire.device.store.bytes
        == Imprint(SessionPlan.Wiped(o, session.dual, session.flashMap, old(host.wire.device.store.bytes)),
                   ImageOf(Image(rows), base))
  {
    hide ReadFrom, HexErrors.Corrupt, Enter.HonestDevice, Imprint, Image, ImageOf, Depicts, OneRegion, BurnAll,
         SessionPlan.Wiped, SessionPlan.Accepted, SessionPlan.Closed, SessionPlan.AllGood, SessionPlan.WriteOut,
         SessionPlan.Found, SessionPlan.Minded, SessionPlan.Joined, SessionPlan.Kept, SessionPlan.Recorded,
         SessionPlan.TellsTwo, RunsFit, Runs;
    ghost var flash := host.wire.device.store.bytes;
    session := new SerialBurn.Session(host, o);
    var table := new PartTable();
    code := ReadPartsHex.ReadPartsHex(text, table, lim);
    if HexErrors.Corrupt(text) {
      CorruptRefused(text, lim);
    }
    if code < 0 {
      return code, session, code;
    }
    ret := session.Run(files, table);
    if ret == 0 && o.target.ToFlash? && session.flashSize <= |flash| {
      Reached(text, lim, o, table.parts, session.flashSize, session.logical, session.flashMap, session.dual, flash);
    }
  }

  lemma Reached(text: seq<Byte>, lim: Limits, o: SessionPlan.Options, parts: seq<Part>, flashSize: int, logical: bool,
      m: Api.FlashMap, dual: bool, flash: Flash)
    requires o.target.ToFlash? && SessionPlan.Small(parts) && flashSize <= |flash|
    requires SessionPlan.Accepted(o, SessionPlan.AreasOf(parts), flashSize, logical, m)
    requires ReadFrom(FRESH, text, [], lim).parts == parts && ReadFrom(FRESH, text, [], lim).code >= 0
    ensures forall rows: seq<Row>, base: int ::
      Depicts(text, rows) && OneRegion(Image(rows), lim, base) && RunsFit(Runs(Image(rows), base), lim.capacity) ==>
        BurnAll(SessionPlan.Wiped(o, dual, m, flash), parts)
        == Imprint(SessionPlan.Wiped(o, dual, m, flash), ImageOf(Image(rows), base))
  {
    hide ReadFrom, Imprint, Image, ImageOf, Depicts, OneRegion, BurnAll, SessionPlan.Accepted, RunsFit, Runs;
    var wiped := SessionPlan.Wiped(o, dual, m, flash);
    AcceptedFits(o, parts, flashSize, logical, m, |flash|);
    forall rows: seq<Row>, base: int |
      Depicts(text, rows) && OneRegion(Image(rows), lim, base) && RunsFit(Runs(Image(rows), base), lim.capacity)
      ensures BurnAll(wiped, parts) == Imprint(wiped, ImageOf(Image(rows), base))
    {
      ImageBurns(rows, text, lim, base, wiped);
    }
  }

  /** Partitions that were read and accepted put the image onto the flash. */
  lemma ImageBurns(rows: seq<Row>, text: seq<Byte>, lim: Limits, base: int, flash: Flash)
    requires Depicts(text, rows) && OneRegion(Image(rows), lim, base) && RunsFit(Runs(Image(rows), base), lim.capacity)
    requires var r := ReadFrom(FRESH, text, [], lim);
      r.code >= 0 && Aligned(r.parts) && forall i :: 0 <= i < |r.parts| ==> EndOf(r.parts[i]) <= |flash|
    ensures BurnAll(flash, ReadFrom(FRESH, text, [], lim).parts) == Imprint(flash, ImageOf(Image(rows), base))
  {
    hide Feed, ReadFrom, BurnAll, Imprint, ImageOf, Image, Ascending, Ascend, Spells, RunsFit, OneRegion, Encode,
         Runs, Carries, LayoutOf, Separated, Spans;
    ImageRoundTrip(rows, text);
    ImageAscends(rows);
    TextBecomesRuns(text, lim, base);
    PartsReachFlash(ReadFrom(FRESH, text, [], lim).parts, Image(rows), base, flash);
  }
}
