/** A HEX file of which the program loses a byte and yet reports success. */
module LostByte {
  import opened Bytes
  import opened EndToEnd
  import opened FlashImage
  import opened FlashMemory
  import opened HexFormat
  import opened HexStream
  import opened IntelHex
  import opened MemIo
  import opened Partitions
  import opened ReadPartsHex
  import Capacity

  const MAX_IMAGE_SIZE: nat := 0x200_0000
  const LAST: nat := 0x2000

  /** The memory maps of the three chips whose flash may be larger than the buffer of a partition. */
  function VenusRegions(): seq<Region> {
    [Region(0, 0x800_0000), Region(0x1800_0000, 0x800_0000), Region(0x3000_0000, 0x80_0000), Region(0x6000_0000, 0x80_0000),
     Region(0x6800_0000, 0x800_0000)]
  }

  function ArcsRegions(): seq<Region> {
    [Region(0, 0x200_0000), Region(0x2800_0000, 0x100_0000), Region(0x3000_0000, 0x800_0000)]
  }

  function VenusARegions(): seq<Region> {
    [Region(0, 0x800_0000), Region(0x3000_0000, 0x800_0000), Region(0x3800_0000, 0x100_0000)]
  }

  /** Where these chips show their flash. */
  type FlashBase = a: U32 | a == 0x1800_0000 || a == 0x3000_0000 || a == 0x6800_0000 witness 0x3000_0000

  /** The limits of such a chip, of which the flash can be read from address xip on. */
  ghost predicate Large(lim: Limits, xip: FlashBase) {
    && lim.capacity == MAX_IMAGE_SIZE
    && (|| (lim.regions == VenusRegions() && (xip == 0x1800_0000 || xip == 0x6800_0000))
        || ((lim.regions == ArcsRegions() || lim.regions == VenusARegions()) && xip == 0x3000_0000))
  }


  /** One byte at the start of each sector of the flash from sector k on, up to the first one behind 32 MiB. */
  function Grid(xip: FlashBase, k: nat, b: Byte): (rows: seq<Row>)
    requires k <= LAST + 1
    ensures |rows| == LAST + 1 - k
    ensures rows != [] ==> rows[0] == Row(xip + 0x1000 * k, [b])
    decreases LAST + 1 - k
  {
    if k > LAST then [] else [Row(xip + 0x1000 * k, [b])] + Grid(xip, k + 1, b)
  }

  lemma {:induction false} GridAt(xip: FlashBase, k: nat, b: Byte, i: nat)
    requires k + i <= LAST
    ensures Grid(xip, k, b)[i] == Row(xip + 0x1000 * (k + i), [b])
    decreases i
  {
    if i > 0 {
      GridAt(xip, k + 1, b, i - 1);
    }
  }

  lemma GridAscends(xip: FlashBase, k: nat, b: Byte)
    requires k <= LAST + 1
    ensures Ascending(Grid(xip, k, b))
  {
    hide Grid;
    var rows := Grid(xip, k, b);
    forall i | 0 <= i < |rows| ensures rows[i].Valid() {
      GridAt(xip, k, b, i);
      OneInPage(xip + 0x1000 * (k + i));
    }
    forall i | 0 < i < |rows| ensures rows[i - 1].End() <= rows[i].addr {
      GridAt(xip, k, b, i - 1);
      GridAt(xip, k, b, i);
    }
  }

  lemma OneInPage(addr: U32)
    ensures addr % 0x1_0000 + 1 <= 0x1_0000
  {
  }

  lemma OneCell(addr: U32, b: Byte)
    ensures At(addr, [b]) == [Cell(addr, b)]
  {
    FirstCells(addr, [b], []);
    assert At(addr, [b]) + [] == At(addr, [b]);
    assert Wrap(addr) == addr;
  }

  lemma {:induction false} GridImage(xip: FlashBase, k: nat, b: Byte)
    requires k <= LAST + 1
    ensures var cells := Image(Grid(xip, k, b));
      |cells| == LAST + 1 - k && forall i :: 0 <= i < |cells| ==> cells[i] == Cell(xip + 0x1000 * (k + i), b)
    decreases LAST + 1 - k
  {
    if k <= LAST {
      GridImage(xip, k + 1, b);
      OneCell(xip + 0x1000 * k, b);
      var cells, rest := Image(Grid(xip, k, b)), Image(Grid(xip, k + 1, b));
      assert Grid(xip, k, b)[1..] == Grid(xip, k + 1, b);
      assert cells == [Cell(xip + 0x1000 * k, b)] + rest;
    }
  }

  lemma Elsewhere(r: Region, rest: seq<Region>, addr: U32)
    requires addr < r.base || addr >= Wrap(r.base + r.size)
    ensures Translate([r] + rest, addr) == Translate(rest, addr)
  {
    assert ([r] + rest)[1..] == rest;
  }

  lemma Here(r: Region, rest: seq<Region>, addr: U32)
    requires r.base <= addr < Wrap(r.base + r.size)
    ensures Translate([r] + rest, addr) == Some(addr - r.base)
  {
  }

  lemma InFlash(xip: FlashBase, lim: Limits, offset: nat)
    requires Large(lim, xip) && offset <= MAX_IMAGE_SIZE
    ensures Translate(lim.regions, xip + offset) == Some(offset)
  {
    hide Translate;
    var addr: U32 := xip + offset;
    var flash := Region(xip, 0x800_0000);
    if lim.regions == VenusRegions() {
      var raw, apFlash, apRam, cpRam, cpFlash :=
        Region(0, 0x800_0000), Region(0x1800_0000, 0x800_0000), Region(0x3000_0000, 0x80_0000),
        Region(0x6000_0000, 0x80_0000), Region(0x6800_0000, 0x800_0000);
      if xip == 0x1800_0000 {
        Here(flash, [apRam, cpRam, cpFlash], addr);
        Elsewhere(raw, [flash] + [apRam, cpRam, cpFlash], addr);
        assert VenusRegions() == [raw] + ([flash] + [apRam, cpRam, cpFlash]);
      } else {
        Here(flash, [], addr);
        Elsewhere(cpRam, [flash] + [], addr);
        Elsewhere(apRam, [cpRam] + ([flash] + []), addr);
        Elsewhere(apFlash, [apRam] + ([cpRam] + ([flash] + [])), addr);
        Elsewhere(raw, [apFlash] + ([apRam] + ([cpRam] + ([flash] + []))), addr);
        assert VenusRegions() == [raw] + ([apFlash] + ([apRam] + ([cpRam] + ([flash] + []))));
      }
    } else if lim.regions == ArcsRegions() {
      Here(flash, [], addr);
      Elsewhere(Region(0x2800_0000, 0x100_0000), [flash] + [], addr);
      Elsewhere(Region(0, 0x200_0000), [Region(0x2800_0000, 0x100_0000)] + ([flash] + []), addr);
      assert ArcsRegions() == [Region(0, 0x200_0000)] + ([Region(0x2800_0000, 0x100_0000)] + ([flash] + []));
    } else {
      Here(flash, [Region(0x3800_0000, 0x100_0000)], addr);
      Elsewhere(Region(0, 0x800_0000), [flash] + [Region(0x3800_0000, 0x100_0000)], addr);
      assert VenusARegions() == [Region(0, 0x800_0000)] + ([flash] + [Region(0x3800_0000, 0x100_0000)]);
    }
  }

  lemma GridRegion(xip: FlashBase, lim: Limits, b: Byte)
    requires Large(lim, xip)
    ensures Ascend(Image(Grid(xip, 0, b))) && OneRegion(Image(Grid(xip, 0, b)), lim, xip)
  {
    hide Translate, Large, Image, Grid, InRegion, OnlyFrom;
    var cells := Image(Grid(xip, 0, b));
    GridImage(xip, 0, b);
    forall i | 0 <= i < |cells|
      ensures InRegion(lim.regions, cells[i].addr, xip) && cells[i].addr - xip < 0xFFFF_F000
    {
      var offset := 0x1000 * i;
      InFlash(xip, lim, offset);
      TranslateIs(lim.regions, cells[i].addr, xip);
      assert cells[i].addr == xip + offset;
    }
    forall i, j | 0 <= i < j < |cells| ensures cells[i].addr < cells[j].addr {
      assert cells[i].addr == xip + 0x1000 * i && cells[j].addr == xip + 0x1000 * j;
    }
  }

  /** The partition of the first k bytes of the grid, the gaps between them filled. */
  predicate Holds(parts: seq<Part>, k: nat) {
    if k == 0 then parts == []
    else |parts| == 1 && parts[0].addr == 0 && |parts[0].data| == if k <= LAST then 0x1000 * (k - 1) + 1 else MAX_IMAGE_SIZE
  }

  /** Byte number k of the grid: the last one of them no longer fits, and nobody is told. */
  lemma GridPlace(xip: FlashBase, parts: seq<Part>, lim: Limits, k: nat, b: Byte)
    requires Large(lim, xip) && k <= LAST && Holds(parts, k)
    ensures var a := Place(parts, lim, Chunk(xip + 0x1000 * k, [b]));
      a.code >= 0 && Holds(a.parts, k + 1)
  {
    hide AppendPart, RoundUp, Translate;
    var addr: U32 := 0x1000 * k;
    InFlash(xip, lim, 0x1000 * k);
    if k == 0 {
      AppendStarts(parts, lim, addr, [b]);
    } else {
      SectorBehind(k);
      if k < LAST {
        AppendGrows(parts, lim, addr, [b]);
      } else {
        var q := Capacity.FillsUp(parts, lim, addr, [b]);
      }
    }
  }

  lemma SectorBehind(k: nat)
    requires k > 0
    ensures RoundUp(0x1000 * (k - 1) + 1) == 0x1000 * k
  {
  }

  lemma GridSparse(xip: FlashBase, addr: U32, d: seq<Byte>, cells: seq<Cell>, k: nat, b: Byte)
    requires k <= LAST + 1 && d != [] && cells == Image(Grid(xip, k, b)) && Starts(cells, addr, d)
    ensures |d| == 1
  {
    hide Image;
    GridImage(xip, k, b);
    var steps := if |cells| > 1 then cells[1].addr - cells[0].addr else 0x1000;
    assert steps == 0x1000;
  }

  /** The parser delivers the grid in chunks of one byte. */
  lemma GridChunk(xip: FlashBase, c: Chunk, rest: seq<Cell>, k: nat, b: Byte)
    requires k <= LAST + 1 && c.bytes != [] && Ascend(At(c.addr, c.bytes) + rest)
    requires At(c.addr, c.bytes) + rest == Image(Grid(xip, k, b))
    ensures k <= LAST && c == Chunk(xip + 0x1000 * k, [b]) && rest == Image(Grid(xip, k + 1, b))
  {
    hide At, Ascend;
    var cells := At(c.addr, c.bytes) + rest;
    GridImage(xip, k, b);
    NoWrap(c.addr, c.bytes, rest);
    assert cells[0] == Cell(c.addr, c.bytes[0]);
    GridSparse(xip, c.addr, c.bytes, cells, k, b);
    GridImage(xip, k + 1, b);
    assert rest == cells[1..] == Image(Grid(xip, k + 1, b));
  }

  lemma {:induction false} GridAssembles(xip: FlashBase, parts: seq<Part>, lim: Limits, chunks: seq<Chunk>, k: nat, b: Byte)
    requires Large(lim, xip) && k <= LAST + 1 && Holds(parts, k)
    requires Cells(chunks) == Image(Grid(xip, k, b)) && Ascend(Cells(chunks))
    ensures Fits(parts, lim.capacity)
    ensures var a := Assemble(parts, lim, chunks);
      a.code == 0 && Holds(a.parts, LAST + 1)
    decreases |chunks|
  {
    hide Place, Holds, Image, At, Ascend, Large;
    HoldsFits(xip, parts, lim, k);
    if chunks == [] {
      GridImage(xip, k, b);
    } else {
      var c, rest := chunks[0], chunks[1..];
      var cells := Cells(chunks);
      assert cells == At(c.addr, c.bytes) + Cells(rest);
      AscendRest(cells, |c.bytes|);
      assert cells[|c.bytes|..] == Cells(rest);
      if c.bytes == [] {
        PlaceNothing(parts, lim, c);
        assert cells == Cells(rest);
        GridAssembles(xip, parts, lim, rest, k, b);
      } else {
        GridChunk(xip, c, Cells(rest), k, b);
        GridPlace(xip, parts, lim, k, b);
        GridAssembles(xip, Place(parts, lim, c).parts, lim, rest, k + 1, b);
      }
    }
  }

  lemma HoldsFits(xip: FlashBase, parts: seq<Part>, lim: Limits, k: nat)
    requires Large(lim, xip) && k <= LAST + 1 && Holds(parts, k)
    ensures Fits(parts, lim.capacity)
  {
  }

  lemma AscendRest(cells: seq<Cell>, n: nat)
    requires Ascend(cells) && n <= |cells|
    ensures Ascend(cells[n..])
  {
  }

  /** The image has a byte at 32 MiB. */
  lemma GridHasByte(xip: FlashBase, b: Byte)
    ensures MAX_IMAGE_SIZE in ImageOf(Image(Grid(xip, 0, b)), xip)
    ensures ImageOf(Image(Grid(xip, 0, b)), xip)[MAX_IMAGE_SIZE] == b
  {
    hide ImageFrom, Image, Grid;
    var cells := Image(Grid(xip, 0, b));
    GridImage(xip, 0, b);
    var first, last := cells[..LAST], Cell(xip + 0x1000 * LAST, b);
    assert cells[LAST] == last;
    assert cells == first + [last];
    ImageSplit(map[], first, [last], xip);
    ImageOne(ImageFrom(map[], first, xip), last, xip);
  }

  lemma {:induction false} ImageSplit(l: Layout, a: seq<Cell>, b: seq<Cell>, base: int)
    ensures ImageFrom(l, a + b, base) == ImageFrom(ImageFrom(l, a, base), b, base)
    decreases |a|
  {
    if a == [] {
      assert a + b == b;
    } else {
      assert (a + b)[1..] == a[1..] + b;
      ImageSplit(l[a[0].addr - base := a[0].value], a[1..], b, base);
    }
  }

  lemma ImageOne(l: Layout, c: Cell, base: int)
    ensures ImageFrom(l, [c], base) == l[c.addr - base := c.value]
  {
  }

  /** One partition from offset 0 on leaves the flash behind it alone. */
  lemma BurnStops(flash: Flash, p: Part, x: nat)
    requires p.addr == 0 && |p.data| % 0x1000 == 0 && |p.data| <= x < |flash|
    ensures BurnAll(flash, [p])[x] == flash[x] && x !in LayoutOf([p])
  {
    hide LayoutOf, RoundUp;
    var parts := [p];
    assert parts[..|parts| - 1] == [] && BurnAll(flash, []) == flash;
    LayoutNone();
    LayoutPush([], p);
    assert [] + [p] == parts;
    WholeUp(|p.data|);
  }

  lemma WholeUp(n: nat)
    requires n % 0x1000 == 0
    ensures RoundUp(n) == n
  {
  }

  /** Any HEX file of the grid is read without an error, the byte at 32 MiB is in no partition, and burning the
      partitions does not touch it. */
  lemma LastByteLost(xip: FlashBase, text: seq<Byte>, lim: Limits, flash: Flash, b: Byte)
    requires Depicts(text, Grid(xip, 0, b)) && Large(lim, xip) && MAX_IMAGE_SIZE < |flash|
    ensures var r := ReadFrom(FRESH, text, [], lim);
      && r.code >= 0
      && MAX_IMAGE_SIZE in ImageOf(Image(Grid(xip, 0, b)), xip) && MAX_IMAGE_SIZE !in LayoutOf(r.parts)
      && BurnAll(flash, r.parts)[MAX_IMAGE_SIZE] == flash[MAX_IMAGE_SIZE]
  {
    hide Feed, ReadFrom, Assemble, Image, Ascending, Ascend, Spells, Encode, Large, BurnAll, LayoutOf, ImageFrom;
    ImageRoundTrip(Grid(xip, 0, b), text);
    GridRegion(xip, lim, b);
    ReadIsAssemble(FRESH, text, [], lim);
    GridAssembles(xip, [], lim, Feed(FRESH, text).chunks, 0, b);
    GridHasByte(xip, b);
    var parts := ReadFrom(FRESH, text, [], lim).parts;
    assert parts == [parts[0]];
    BurnStops(flash, parts[0], MAX_IMAGE_SIZE);
  }

  /** There is such a file. */
  lemma GridText(xip: FlashBase, b: Byte) returns (text: seq<Byte>)
    ensures Depicts(text, Grid(xip, 0, b))
  {
    hide Encode, Spells, Grid, Spell, Strip;
    GridAscends(xip, 0, b);
    EncodeValid(Grid(xip, 0, b));
    text := Spell(Encode(Grid(xip, 0, b), 0));
    SpellSpells(Encode(Grid(xip, 0, b), 0));
  }

  lemma EncodeValid(rows: seq<Row>)
    requires Ascending(rows)
    ensures AllValid(Encode(rows, 0))
  {
  }
}
