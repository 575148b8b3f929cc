/** Erasing and writing partitions on a flash, and what the flash holds afterwards. */
module FlashImage {
  import opened Bytes
  import opened ReadPartsHex
  import opened Partitions
  import opened FlashMemory

  /** One partition of the burn loop: the range rounded up to sectors is erased, then the data is written. */
  function Burn(flash: Flash, p: Part): (f: Flash)
    ensures |f| == |flash|
  {
    Store(Erase(flash, p.addr, RoundUp(|p.data|)), p.addr, p.data)
  }

  function BurnAll(flash: Flash, parts: seq<Part>): (f: Flash)
    ensures |f| == |flash|
    decreases |parts|
  {
    if parts == [] then flash else Burn(BurnAll(flash, parts[..|parts| - 1]), parts[|parts| - 1])
  }

  /** The flash with the layout on it: 0xFF in the rest of its sectors, and everything else as it was. */
  function Imprint(flash: Flash, l: Layout): (f: Flash)
    ensures |f| == |flash|
  {
    seq(|flash|, x requires 0 <= x < |flash| =>
      if x in l then l[x] else if x / 0x1000 in Sectors(l) then 0xFF else flash[x])
  }

  ghost predicate Aligned(parts: seq<Part>) { forall i :: 0 <= i < |parts| ==> parts[i].addr % 0x1000 == 0 }

  lemma SectorSpan(addr: int, n: int, x: int)
    requires addr % 0x1000 == 0 && n > 0
    ensures addr <= x < addr + RoundUp(n) <==> addr / 0x1000 <= x / 0x1000 <= (addr + n - 1) / 0x1000
    ensures addr + RoundUp(n) == RoundUp(addr + n)
  {
  }

  /** The sectors of a stretch are those that its rounded-up range covers. */
  lemma StretchSectors(addr: int, d: seq<Byte>, k: int)
    requires d != []
    ensures k in Sectors(Stretch(addr, d)) <==> addr / 0x1000 <= k <= (addr + |d| - 1) / 0x1000
  {
    var l := Stretch(addr, d);
    if addr / 0x1000 <= k <= (addr + |d| - 1) / 0x1000 {
      var x := if k == addr / 0x1000 then addr else k * 0x1000;
      assert x in l && x / 0x1000 == k;
    }
  }

  lemma SectorsJoin(a: Layout, b: Layout)
    ensures Sectors(a + b) == Sectors(a) + Sectors(b)
  {
    forall k ensures k in Sectors(a + b) <==> k in Sectors(a) || k in Sectors(b) {
      if k in Sectors(a) {
        InSectors(a, a + b, k);
      }
      if k in Sectors(b) {
        InSectors(b, a + b, k);
      }
    }
  }

  /** A partition that shares no sector with the layout adds its bytes to it. */
  lemma BurnImprints(flash: Flash, l: Layout, p: Part)
    requires p.data != [] && p.addr % 0x1000 == 0 && p.addr + |p.data| <= |flash|
    requires forall k :: p.addr / 0x1000 <= k ==> k !in Sectors(l)
    ensures Burn(Imprint(flash, l), p) == Imprint(flash, l + Stretch(p.addr, p.data))
  {
    hide RoundUp, Sectors;
    var s := Stretch(p.addr, p.data);
    SectorsJoin(l, s);
    var a, b := Burn(Imprint(flash, l), p), Imprint(flash, l + s);
    forall x | 0 <= x < |flash| ensures a[x] == b[x] {
      SectorSpan(p.addr, |p.data|, x);
      StretchSectors(p.addr, p.data, x / 0x1000);
      OwnSector(l, x);
      OwnSector(s, x);
    }
  }

  lemma OwnSector(l: Layout, x: int)
    ensures x in l ==> x / 0x1000 in Sectors(l)
  {
  }

  lemma ImprintNone(flash: Flash)
    ensures Imprint(flash, map[]) == flash
  {
  }

  /** Separated partitions on sector boundaries leave their layout on the flash, whatever was there before. */
  lemma {:induction false} BurnAllImprints(flash: Flash, parts: seq<Part>)
    requires Separated(parts) && Aligned(parts)
    requires forall i :: 0 <= i < |parts| ==> EndOf(parts[i]) <= |flash|
    ensures BurnAll(flash, parts) == Imprint(flash, LayoutOf(parts))
    decreases |parts|
  {
    hide LayoutOf, Imprint, Burn, Sectors, RoundUp;
    if parts == [] {
      LayoutNone();
      ImprintNone(flash);
    } else {
      var k := |parts| - 1;
      var p, l := parts[k], LayoutOf(parts[..k]);
      BurnAllImprints(flash, parts[..k]);
      LayoutLast(parts);
      NoSharedSector(parts[..k], p);
      BurnImprints(flash, l, p);
    }
  }

  lemma NoSharedSector(parts: seq<Part>, p: Part)
    requires Separated(parts) && (parts != [] ==> RoundUp(LastEnd(parts)) < p.addr)
    ensures forall k :: p.addr / 0x1000 <= k ==> k !in Sectors(LayoutOf(parts))
  {
    hide LayoutOf, RoundUp;
    if parts == [] {
      LayoutNone();
    } else {
      LayoutBounded(parts);
      forall k | k in Sectors(LayoutOf(parts)) ensures k < p.addr / 0x1000 {
        var x :| x in LayoutOf(parts) && x / 0x1000 == k;
        LowerSector(x, LastEnd(parts), p.addr);
      }
    }
  }

  lemma LowerSector(x: int, end: int, addr: int)
    requires x < end && RoundUp(end) < addr
    ensures x / 0x1000 < addr / 0x1000
  {
  }

  /** The layout and the image leave the same flash behind. */
  lemma ImprintOfImage(flash: Flash, l: Layout, image: Layout)
    requires Carries(l, image)
    ensures Imprint(flash, l) == Imprint(flash, image)
  {
    hide Sectors;
    forall x | 0 <= x < |flash| ensures Imprint(flash, l)[x] == Imprint(flash, image)[x] {
      SameSectors(l, image, x / 0x1000);
      OwnSector(l, x);
    }
  }

  lemma SameSectors(l: Layout, image: Layout, k: int)
    requires Carries(l, image)
    ensures k in Sectors(l) <==> k in Sectors(image)
  {
    if k in Sectors(l) {
      var x :| x in l && x / 0x1000 == k;
    }
    if k in Sectors(image) {
      var x :| x in image && x / 0x1000 == k;
      assert x in l;
    }
  }
}
