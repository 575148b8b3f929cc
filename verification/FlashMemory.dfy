/** A flash (or any other memory that is burned) as its bytes. */
module FlashMemory {
  import opened Bytes
  import Utils

  type Flash = seq<Byte>

  /** Erased bytes read 0xFF. */
  function Erase(flash: Flash, addr: int, size: int): (f: Flash)
    ensures |f| == |flash|
  {
    seq(|flash|, x requires 0 <= x < |flash| => if addr <= x < addr + size then 0xFF else flash[x])
  }

  function Store(flash: Flash, addr: int, data: seq<Byte>): (f: Flash)
    ensures |f| == |flash|
  {
    seq(|flash|, x requires 0 <= x < |flash| => if addr <= x < addr + |data| then data[x - addr] else flash[x])
  }

  // ---- Media ----

  /** n bytes rounded up to whole sectors. */
  function RoundUp(n: int): int { (n + 0xFFF) / 0x1000 * 0x1000 }

  /** The bits that both bytes have. */
  function BothBits(a: Byte, b: Byte): Byte {
    AndBelow(a, b);
    Utils.And(a, b)
  }

  lemma {:induction false} AndBelow(a: nat, b: nat)
    ensures Utils.And(a, b) <= b
  {
    if a != 0 && b != 0 {
      AndBelow(a / 2, b / 2);
      assert (a % 2) * (b % 2) <= b % 2 by {
        assert a % 2 == 0 || a % 2 == 1;
      }
    }
  }

  lemma {:induction false} AndTwice(a: nat, b: nat)
    ensures Utils.And(Utils.And(a, b), b) == Utils.And(a, b)
  {
    if a != 0 && b != 0 {
      AndTwice(a / 2, b / 2);
      var r := Utils.And(a, b);
      var low := (a % 2) * (b % 2);
      assert low == (if a % 2 == 1 then b % 2 else 0) by {
        assert a % 2 == 0 || a % 2 == 1;
      }
      assert r % 2 == low && r / 2 == Utils.And(a / 2, b / 2);
      assert low * (b % 2) == low by {
        assert b % 2 == 0 || b % 2 == 1;
      }
    }
  }

  lemma {:induction false} AndOnes(k: nat, b: nat)
    requires b < Utils.Pow2(k)
    ensures Utils.And(Utils.Pow2(k) - 1, b) == b
  {
    if b != 0 {
      var ones := Utils.Pow2(k) - 1;
      AndOnes(k - 1, b / 2);
      assert ones / 2 == Utils.Pow2(k - 1) - 1 && ones % 2 == 1;
    }
  }

  /** Programming clears bits, and never sets one. */
  function Program(flash: Flash, addr: int, data: seq<Byte>): (f: Flash)
    ensures |f| == |flash|
  {
    seq(|flash|, x requires 0 <= x < |flash| =>
      if addr <= x < addr + |data| then BothBits(flash[x], data[x - addr]) else flash[x])
  }

  /** What a write does to a memory: it replaces bytes, it programs a flash, or it programs a flash of which it erases
      the sectors first. */
  datatype Medium = Rewritable | Programmable | SelfErasing

  function Put(medium: Medium, flash: Flash, addr: int, data: seq<Byte>): (f: Flash)
    ensures |f| == |flash|
  {
    match medium
    case Rewritable => Store(flash, addr, data)
    case Programmable => Program(flash, addr, data)
    case SelfErasing => Program(Erase(flash, addr, RoundUp(|data|)), addr, data)
  }

  lemma BothTwice(a: Byte, b: Byte)
    ensures BothBits(BothBits(a, b), b) == BothBits(a, b)
  {
    AndTwice(a, b);
  }

  lemma BothErased(b: Byte)
    ensures BothBits(0xFF, b) == b
  {
    assert Utils.Pow2(4) == 16;
    assert Utils.Pow2(8) == 256;
    AndOnes(8, b);
  }

  lemma RoundUpCovers(n: int)
    ensures n <= RoundUp(n) < n + 0x1000
  {
  }

  /** On erased bytes, programming is as good as replacing. */
  lemma ProgramErased(flash: Flash, addr: int, size: int, data: seq<Byte>)
    requires |data| <= size
    ensures Program(Erase(flash, addr, size), addr, data) == Store(Erase(flash, addr, size), addr, data)
  {
    hide BothBits;
    var e := Erase(flash, addr, size);
    forall x | 0 <= x < |flash| ensures Program(e, addr, data)[x] == Store(e, addr, data)[x] {
      if addr <= x < addr + |data| {
        BothErased(data[x - addr]);
      }
    }
  }

  lemma EraseTwice(flash: Flash, addr: int, size: int)
    ensures Erase(Erase(flash, addr, size), addr, size) == Erase(flash, addr, size)
  {
  }

  /** After its sectors have been erased, data gets onto any medium. */
  lemma PutErased(medium: Medium, flash: Flash, addr: int, data: seq<Byte>)
    ensures var erased := Erase(flash, addr, RoundUp(|data|));
      Put(medium, erased, addr, data) == Store(erased, addr, data)
  {
    hide Erase, Program, Store, RoundUp;
    RoundUpCovers(|data|);
    ProgramErased(flash, addr, RoundUp(|data|), data);
    EraseTwice(flash, addr, RoundUp(|data|));
  }

  /** A medium that erases on its own needs no erase. */
  lemma PutSelfErasing(flash: Flash, addr: int, data: seq<Byte>)
    ensures Put(SelfErasing, flash, addr, data) == Store(Erase(flash, addr, RoundUp(|data|)), addr, data)
  {
    hide Erase, Program, Store, RoundUp;
    RoundUpCovers(|data|);
    ProgramErased(flash, addr, RoundUp(|data|), data);
  }

  /** Writing the same bytes twice is writing them once. */
  lemma PutTwice(medium: Medium, flash: Flash, addr: int, data: seq<Byte>)
    ensures Put(medium, Put(medium, flash, addr, data), addr, data) == Put(medium, flash, addr, data)
  {
    match medium {
      case Rewritable => StoreTwice(flash, addr, data);
      case Programmable => ProgramTwice(flash, addr, data);
      case SelfErasing =>
        hide Erase, Store, RoundUp, Program;
        var size := RoundUp(|data|);
        PutSelfErasing(flash, addr, data);
        PutSelfErasing(Put(SelfErasing, flash, addr, data), addr, data);
        RoundUpCovers(|data|);
        EraseOver(flash, addr, size, data);
    }
  }

  lemma StoreTwice(flash: Flash, addr: int, data: seq<Byte>)
    ensures Store(Store(flash, addr, data), addr, data) == Store(flash, addr, data)
  {
  }

  lemma ProgramTwice(flash: Flash, addr: int, data: seq<Byte>)
    ensures Program(Program(flash, addr, data), addr, data) == Program(flash, addr, data)
  {
    hide BothBits;
    var once := Program(flash, addr, data);
    forall x | 0 <= x < |flash| ensures Program(once, addr, data)[x] == once[x] {
      if addr <= x < addr + |data| {
        BothTwice(flash[x], data[x - addr]);
      }
    }
  }

  /** Erasing what has been written brings back the erased range. */
  lemma EraseOver(flash: Flash, addr: int, size: int, data: seq<Byte>)
    requires |data| <= size
    ensures Erase(Store(Erase(flash, addr, size), addr, data), addr, size) == Erase(flash, addr, size)
  {
  }

  lemma PutNothing(medium: Medium, flash: Flash, addr: int)
    ensures Put(medium, flash, addr, []) == flash
  {
    assert Erase(flash, addr, 0) == flash && Store(flash, addr, []) == flash && Program(flash, addr, []) == flash;
  }

  /** Writing piece by piece is writing the whole, on a self-erasing medium when the pieces are whole sectors. */
  lemma PutNext(medium: Medium, flash: Flash, addr: int, c: seq<Byte>, e: seq<Byte>)
    requires medium.SelfErasing? ==> |c| % 0x1000 == 0
    ensures Put(medium, Put(medium, flash, addr, c), addr + |c|, e) == Put(medium, flash, addr, c + e)
  {
    match medium {
      case Rewritable => StoreNext(flash, addr, c, e);
      case Programmable => ProgramNext(flash, addr, c, e);
      case SelfErasing =>
        hide Put;
        PutSelfErasing(flash, addr, c);
        PutSelfErasing(Put(SelfErasing, flash, addr, c), addr + |c|, e);
        PutSelfErasing(flash, addr, c + e);
        SectorsNext(flash, addr, c, e);
    }
  }

  lemma StoreNext(flash: Flash, addr: int, c: seq<Byte>, e: seq<Byte>)
    ensures Store(Store(flash, addr, c), addr + |c|, e) == Store(flash, addr, c + e)
  {
  }

  lemma ProgramNext(flash: Flash, addr: int, c: seq<Byte>, e: seq<Byte>)
    ensures Program(Program(flash, addr, c), addr + |c|, e) == Program(flash, addr, c + e)
  {
    hide BothBits;
  }

  lemma SectorsNext(flash: Flash, addr: int, c: seq<Byte>, e: seq<Byte>)
    requires |c| % 0x1000 == 0
    ensures var first := Store(Erase(flash, addr, RoundUp(|c|)), addr, c);
      Store(Erase(first, addr + |c|, RoundUp(|e|)), addr + |c|, e)
      == Store(Erase(flash, addr, RoundUp(|c + e|)), addr, c + e)
  {
    hide RoundUp;
    RoundUpSplits(|c|, |e|);
    RoundUpCovers(|e|);
  }

  lemma RoundUpSplits(a: int, b: int)
    requires a % 0x1000 == 0
    ensures RoundUp(a) == a && RoundUp(a + b) == a + RoundUp(b)
  {
  }
}
