/** The range checks of a session, and what they guarantee about one or two physical flashes. */
module Bounds {
  import opened Bytes
  import opened FlashMemory
  import opened Partitions
  import Api
  import Utils

  const ERR_ARG_INVALID: int := 1001
  const ERR_ARG_ADDR_UNALIGNED: int := 1005
  const ERR_ARG_ADDR_OUT_OF_BOUNDS: int := 1006

  datatype Area = Area(addr: U32, size: U32)

  /** validate_flash_bounds: accepts exactly the nonempty ranges below the capacity and below 2^32. */
  method ValidateFlashBounds(a: Area, flashSize: int) returns (ret: int)
    ensures ret == if a.size == 0 then -ERR_ARG_INVALID else if InBounds(a, flashSize) then 0 else -ERR_ARG_ADDR_OUT_OF_BOUNDS
  {
    if a.size == 0 {
      return -ERR_ARG_INVALID;
    }
    if a.addr as int + a.size > 0x1_0000_0000 {
      return -ERR_ARG_ADDR_OUT_OF_BOUNDS;
    }
    if a.addr >= flashSize {
      return -ERR_ARG_ADDR_OUT_OF_BOUNDS;
    } else if a.addr as int + a.size > flashSize {
      return -ERR_ARG_ADDR_OUT_OF_BOUNDS;
    }
    return 0;
  }

  predicate InBounds(a: Area, flashSize: int) {
    0 < a.size && a.addr as int + a.size <= 0x1_0000_0000 && a.addr as int + a.size <= flashSize
  }

  /** Where flash i begins in the logical address space. */
  function StartOf(m: Api.FlashMap, i: nat): nat
    requires i <= |m.sizes|
  {
    Api.SumOf(m.sizes[..i])
  }

  lemma StartNext(m: Api.FlashMap, i: nat)
    requires i < |m.sizes|
    ensures StartOf(m, i + 1) == StartOf(m, i) + m.sizes[i]
  {
    assert m.sizes[..i + 1][..i] == m.sizes[..i];
  }

  /** The range lies inside flash i. */
  predicate Inside(m: Api.FlashMap, i: nat, addr: int, size: int)
    requires i < |m.sizes|
  {
    StartOf(m, i) <= addr && addr + size <= StartOf(m, i) + m.sizes[i]
  }

  ghost predicate InsideOne(m: Api.FlashMap, addr: int, size: int)
    requires m.count <= |m.sizes|
  {
    exists i: nat :: i < m.count && Inside(m, i, addr, size)
  }

  /** validate_flash_layout_area: accepts exactly the ranges inside one physical flash. */
  method ValidateFlashLayoutArea(m: Api.FlashMap, a: Area) returns (ret: int)
    requires m.count <= |m.sizes|
    ensures ret == if a.size == 0 || InsideOne(m, a.addr, a.size) then 0 else -ERR_ARG_ADDR_OUT_OF_BOUNDS
  {
    hide StartOf;
    if a.size == 0 {
      return 0;
    }
    var start: nat := 0;
    var end := a.addr as int + a.size;
    StartNone(m);
    for i := 0 to m.count
      invariant start == StartOf(m, i)
      invariant forall k: nat :: k < i ==> !Inside(m, k, a.addr, a.size)
    {
      StartNext(m, i);
      var limit := start + m.sizes[i];
      if a.addr >= start && end <= limit {
        assert Inside(m, i, a.addr, a.size);
        return 0;
      }
      start := limit;
    }
    return -ERR_ARG_ADDR_OUT_OF_BOUNDS;
  }

  lemma StartNone(m: Api.FlashMap)
    ensures StartOf(m, 0) == 0
  {
  }

  // ---- Physical ranges ----

  /** Sizes of flashes that consist of whole sectors. */
  ghost predicate WholeSectors(m: Api.FlashMap)
    requires m.count <= |m.sizes|
  {
    forall i :: 0 <= i < m.count ==> m.sizes[i] % 0x1000 == 0
  }

  lemma {:induction false} StartAligned(m: Api.FlashMap, i: nat)
    requires m.count <= |m.sizes| && WholeSectors(m) && i <= m.count
    ensures StartOf(m, i) % 0x1000 == 0
  {
    if i == 0 {
      StartNone(m);
    } else {
      StartAligned(m, i - 1);
      StartNext(m, i - 1);
    }
  }

  /** The length that the session erases for n bytes. */
  function EraseSize(n: U32): int { Utils.AlignUp(n, Utils.FLASH_ALIGN) }

  lemma RoundUpBelow(addr: int, n: int, limit: int)
    requires addr % 0x1000 == 0 && limit % 0x1000 == 0 && addr + n <= limit
    ensures addr + RoundUp(n) <= limit
  {
  }

  lemma EraseSizeIs(addr: U32, n: U32)
    requires addr % 0x1000 == 0 && addr as int + n <= 0x1_0000_0000 && n <= 0xFFFF_F000
    ensures EraseSize(n) == RoundUp(n) && addr as int + EraseSize(n) <= 0x1_0000_0000
    ensures n <= EraseSize(n) < n as int + 0x1000
  {
    hide Utils.AlignUp;
    Utils.SectorUp(n);
    RoundUpBelow(addr, n, 0x1_0000_0000);
    RoundUpBounds(n);
  }

  /** A sector-aligned range inside one flash is erased inside that flash, and the guard of the erase operation
      does not fire. */
  lemma EraseStaysInside(m: Api.FlashMap, a: Area, i: nat)
    requires m.count <= |m.sizes| && WholeSectors(m) && i < m.count && Inside(m, i, a.addr, a.size)
    requires a.addr % 0x1000 == 0 && 0 < a.size <= 0xFFFF_F000 && a.addr as int + a.size <= 0x1_0000_0000
    ensures Inside(m, i, a.addr, EraseSize(a.size))
    ensures EraseSize(a.size) > 0 && a.addr as int + EraseSize(a.size) <= 0x1_0000_0000
  {
    hide StartOf, EraseSize, RoundUp;
    StartAligned(m, i);
    EraseSizeIs(a.addr, a.size);
    RoundUpBelow(a.addr, a.size, StartOf(m, i) + m.sizes[i]);
  }

  lemma SumIsTotal(m: Api.FlashMap)
    requires Api.SaneMap(m)
    ensures StartOf(m, m.count) == m.total
  {
  }

  lemma {:induction false} StartGrows(m: Api.FlashMap, i: nat, j: nat)
    requires i <= j <= |m.sizes|
    ensures StartOf(m, i) <= StartOf(m, j)
    decreases j - i
  {
    if i < j {
      StartGrows(m, i, j - 1);
      StartNext(m, j - 1);
    }
  }

  /** Flash i ends inside the logical address space. */
  lemma EndsBelow(m: Api.FlashMap, i: nat)
    requires Api.SaneMap(m) && i < m.count
    ensures StartOf(m, i) + m.sizes[i] <= m.total
  {
    hide StartOf;
    StartNext(m, i);
    StartGrows(m, i + 1, m.count);
    SumIsTotal(m);
  }

  /** What is in flash i is in no other one. */
  lemma OnlyInside(m: Api.FlashMap, i: nat, j: nat, addr: int, size: int)
    requires m.count <= |m.sizes| && i < m.count && j < m.count && size > 0
    requires StartOf(m, i) <= addr < StartOf(m, i) + m.sizes[i] && Inside(m, j, addr, size)
    ensures i == j
  {
    hide StartOf;
    StartNext(m, i);
    StartNext(m, j);
    if i < j {
      StartGrows(m, i + 1, j);
    } else if j < i {
      StartGrows(m, j + 1, i);
    }
  }

  /** A range on a sector boundary that the checks on a partition let pass. */
  ghost predicate Erasable(m: Api.FlashMap, a: Area)
    requires m.count <= |m.sizes|
  {
    a.addr % 0x1000 == 0 && 0 < a.size < 0x8000_0000 && InsideOne(m, a.addr, a.size)
  }

  /** The last sector of a flash that does not end on a sector boundary is accepted as far as the flash goes, and yet
      erased beyond its end. */
  lemma EraseLeavesFlash(m: Api.FlashMap, i: nat) returns (a: Area)
    requires Api.SaneMap(m) && i < m.count && m.sizes[i] % 0x1000 != 0 && StartOf(m, i) % 0x1000 == 0
    ensures Erasable(m, a) && !InsideOne(m, a.addr, EraseSize(a.size))
  {
    hide StartOf, EraseSize, RoundUp;
    EndsBelow(m, i);
    var tail := m.sizes[i] % 0x1000;
    LastSector(StartOf(m, i), m.sizes[i]);
    a := Area(StartOf(m, i) + m.sizes[i] - tail, tail);
    EraseSizeIs(a.addr, a.size);
    RoundUpBounds(a.size);
    assert Inside(m, i, a.addr, a.size);
    forall j: nat | j < m.count ensures !Inside(m, j, a.addr, EraseSize(a.size)) {
      if Inside(m, j, a.addr, EraseSize(a.size)) {
        OnlyInside(m, i, j, a.addr, EraseSize(a.size));
        SectorTail(tail, EraseSize(a.size));
      }
    }
  }

  lemma LastSector(start: int, size: int)
    requires start % 0x1000 == 0
    ensures (start + size - size % 0x1000) % 0x1000 == 0
  {
  }

  lemma SectorTail(tail: int, size: int)
    requires 0 < tail < 0x1000 && size % 0x1000 == 0 && size >= tail
    ensures size > tail
  {
  }

  /** Whole sectors are exactly what it takes: every accepted range is erased inside its flash if and only if flashes
      consist of whole sectors. */
  lemma WholeSectorsIff(m: Api.FlashMap)
    requires Api.SaneMap(m)
    ensures WholeSectors(m) <==> forall a: Area :: Erasable(m, a) ==> InsideOne(m, a.addr, EraseSize(a.size))
  {
    hide StartOf, EraseSize;
    if WholeSectors(m) {
      forall a: Area | Erasable(m, a) ensures InsideOne(m, a.addr, EraseSize(a.size)) {
        var i: nat :| i < m.count && Inside(m, i, a.addr, a.size);
        EndsBelow(m, i);
        EraseStaysInside(m, a, i);
      }
    } else {
      var i := FirstPartial(m);
      var a := EraseLeavesFlash(m, i);
    }
  }

  /** The first flash that is not whole sectors starts on a sector boundary. */
  lemma FirstPartial(m: Api.FlashMap) returns (i: nat)
    requires m.count <= |m.sizes| && !WholeSectors(m)
    ensures i < m.count && m.sizes[i] % 0x1000 != 0 && StartOf(m, i) % 0x1000 == 0
  {
    hide StartOf;
    i := 0;
    StartNone(m);
    while i < m.count && m.sizes[i] % 0x1000 == 0
      invariant i <= m.count && StartOf(m, i) % 0x1000 == 0
      invariant forall k :: 0 <= k < i ==> m.sizes[k] % 0x1000 == 0
    {
      StartNext(m, i);
      i := i + 1;
    }
  }

  /** Capacities from a flash id are whole sectors from code 12 on. */
  lemma {:induction false} IdWholeSectors(k: nat)
    ensures Utils.Pow2(k) % 0x1000 == 0 <==> k >= 12
  {
    Utils.Pow2Values();
    if k <= 12 {
      Utils.Pow2Mono(k, 12);
      if k < 12 {
        Utils.Pow2Mono(k, 11);
        assert Utils.Pow2(12) == 2 * Utils.Pow2(11);
      }
    } else {
      IdWholeSectors(k - 1);
    }
  }

  // ---- Erasing in steps ----

  /** Erasing each area in turn. */
  function EraseAreas(flash: Flash, areas: seq<Area>): (f: Flash)
    ensures |f| == |flash|
    decreases |areas|
  {
    if areas == [] then flash
    else var k := |areas| - 1; Erase(EraseAreas(flash, areas[..k]), areas[k].addr, areas[k].size)
  }

  lemma EraseNone(flash: Flash, addr: int)
    ensures Erase(flash, addr, 0) == flash
  {
  }

  lemma EraseNext(flash: Flash, addr: int, a: nat, b: nat)
    ensures Erase(Erase(flash, addr, a), addr + a, b) == Erase(flash, addr, a + b)
  {
  }

  /** The bytes that are erased in the end are those of any of the areas. */
  lemma {:induction false} EraseAreasAt(flash: Flash, areas: seq<Area>, x: nat)
    requires x < |flash|
    ensures EraseAreas(flash, areas)[x]
         == if exists i :: 0 <= i < |areas| && areas[i].addr <= x < areas[i].addr as int + areas[i].size
            then 0xFF else flash[x]
    decreases |areas|
  {
    if areas != [] {
      var k := |areas| - 1;
      EraseAreasAt(flash, areas[..k], x);
      if areas[k].addr <= x < areas[k].addr as int + areas[k].size {
      } else if i :| 0 <= i < k && areas[..k][i].addr <= x < areas[..k][i].addr as int + areas[..k][i].size {
        assert areas[i] == areas[..k][i];
      }
    }
  }
}
