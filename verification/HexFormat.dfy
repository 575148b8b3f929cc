/** The Intel HEX object format (Intel Hexadecimal Object File Format Specification, "General Record
    Format", "Data Record", "Extended Linear Address Record", "Extended Segment Address Record"),
    written down independently of the parser, and what the parser makes of a file in that format. */
module HexFormat {
  import opened Bytes
  import opened IntelHex
  import opened HexStream

  // ---- Text ----

  predicate IsDigit(c: Byte) { 48 <= c <= 57 || 65 <= c <= 70 || 97 <= c <= 102 }

  function Value(c: Byte): (v: int)
    requires IsDigit(c)
    ensures 0 <= v < 16
  {
    if c <= 57 then c - 48 else if c <= 70 then c - 55 else c - 87
  }

  /** s writes the bytes as pairs of digits, in any case. */
  ghost predicate Writes(s: seq<Byte>, bytes: seq<Byte>) {
    && |s| == 2 * |bytes|
    && forall i :: 0 <= i < |bytes| ==>
         IsDigit(s[2 * i]) && IsDigit(s[2 * i + 1]) && bytes[i] == Value(s[2 * i]) * 16 + Value(s[2 * i + 1])
  }

  datatype Record = Record(addr: U16, typ: Byte, data: seq<Byte>)
  {
    predicate Valid() {
      |data| <= 32 && typ <= 5 && (typ == 2 || typ == 4 ==> |data| == 2)
    }

    function Body(): seq<Byte>
      requires Valid()
    {
      [|data|, addr / 0x100, addr % 0x100, typ] + data
    }

    /** The body followed by the two's complement of its sum. */
    function Bytes(): (b: seq<Byte>)
      requires Valid()
      ensures |b| == |data| + 5
    {
      Body() + [(-Sum(Body())) % 0x100]
    }
  }

  predicate AllValid(recs: seq<Record>) { forall i :: 0 <= i < |recs| ==> recs[i].Valid() }

  /** The text without its line ends. */
  function Strip(s: seq<Byte>): seq<Byte> {
    if s == [] then []
    else (if s[0] == CR || s[0] == LF then [] else [s[0]]) + Strip(s[1..])
  }

  /** s is the records one after the other, each a colon and its bytes. */
  ghost predicate Spells(s: seq<Byte>, recs: seq<Record>)
    requires AllValid(recs)
    decreases |recs|
  {
    if recs == [] then s == []
    else
      var n := 2 * (|recs[0].data| + 5) + 1;
      n <= |s| && s[0] == COLON && Writes(s[1..n], recs[0].Bytes()) && Spells(s[n..], recs[1..])
  }

  // ---- Writing a file ----

  function Digit(v: int): Byte
    requires 0 <= v < 16
  {
    if v < 10 then 48 + v else 55 + v
  }

  function Digits(bytes: seq<Byte>): (s: seq<Byte>)
    ensures Writes(s, bytes)
  {
    if bytes == [] then []
    else
      var k := |bytes| - 1;
      var last := bytes[k] as int;
      Digits(bytes[..k]) + [Digit(last / 16), Digit(last % 16)]
  }

  /** One record a line, in upper case. */
  function Spell(recs: seq<Record>): seq<Byte>
    requires AllValid(recs)
  {
    if recs == [] then [] else [COLON] + Digits(recs[0].Bytes()) + [LF] + Spell(recs[1..])
  }

  lemma {:induction false} StripPlain(a: seq<Byte>, b: seq<Byte>)
    requires forall i :: 0 <= i < |a| ==> a[i] != CR && a[i] != LF
    ensures Strip(a + b) == a + Strip(b)
    decreases |a|
  {
    if a == [] {
      assert a + b == b;
    } else {
      assert (a + b)[1..] == a[1..] + b;
      StripPlain(a[1..], b);
    }
  }

  /** A written file spells its records. */
  lemma {:induction false} SpellSpells(recs: seq<Record>)
    requires AllValid(recs)
    ensures Spells(Strip(Spell(recs)), recs)
    decreases |recs|
  {
    if recs != [] {
      hide Strip, Writes, Spells;
      SpellSpells(recs[1..]);
      SpellFirst(recs, Spell(recs[1..]));
    }
  }

  lemma SpellFirst(recs: seq<Record>, rest: seq<Byte>)
    requires AllValid(recs) && recs != [] && Spells(Strip(rest), recs[1..])
    ensures Spells(Strip([COLON] + Digits(recs[0].Bytes()) + [LF] + rest), recs)
  {
    var bytes := recs[0].Bytes();
    var line := [COLON] + Digits(bytes);
    StripLine(line, bytes, rest);
    LineFirst(line, bytes, Strip(rest), recs);
  }

  lemma LineFirst(line: seq<Byte>, bytes: seq<Byte>, rest: seq<Byte>, recs: seq<Record>)
    requires AllValid(recs) && recs != [] && Spells(rest, recs[1..]) && bytes == recs[0].Bytes()
    requires line != [] && line[0] == COLON && Writes(line[1..], bytes)
    ensures Spells(line + rest, recs)
  {
    hide Record.Bytes, Writes;
    var n := 2 * (|recs[0].data| + 5) + 1;
    WritesLength(line[1..], bytes);
    assert |line| == n && (line + rest)[1..n] == line[1..] && (line + rest)[n..] == rest;
  }

  lemma WritesLength(s: seq<Byte>, bytes: seq<Byte>)
    requires Writes(s, bytes)
    ensures |s| == 2 * |bytes|
  {
  }

  lemma StripLine(line: seq<Byte>, bytes: seq<Byte>, rest: seq<Byte>)
    requires line != [] && line[0] == COLON && Writes(line[1..], bytes)
    ensures Strip(line + [LF] + rest) == line + Strip(rest)
  {
    hide Writes;
    DigitsPlain(line[1..], bytes);
    forall i | 0 <= i < |line| ensures line[i] != CR && line[i] != LF {
      assert i > 0 ==> line[i] == line[1..][i - 1];
    }
    var tail := [LF] + rest;
    assert line + [LF] + rest == line + tail;
    StripPlain(line, tail);
    assert tail[1..] == rest;
  }

  lemma DigitsPlain(s: seq<Byte>, bytes: seq<Byte>)
    requires Writes(s, bytes)
    ensures forall i :: 0 <= i < |s| ==> s[i] != CR && s[i] != LF && s[i] != COLON
  {
    forall i | 0 <= i < |s| ensures s[i] != CR && s[i] != LF && s[i] != COLON {
      var k := i / 2;
      assert 0 <= k < |bytes| && (i == 2 * k || i == 2 * k + 1);
      assert IsDigit(s[2 * k]) && IsDigit(s[2 * k + 1]);
    }
  }

  // ---- The meaning of a file ----

  /** The addressing mode set by the last address record. */
  datatype Base = Linear(upper: U16) | Segment(seg: U16)
  {
    function Addr(): int { match this case Linear(u) => u * 0x1_0000 case Segment(s) => s * 0x10 }
  }

  /** The cells of a data record: linear addresses count on modulo 2^32, segment offsets modulo 2^16. */
  function DataCells(base: Base, addr: U16, data: seq<Byte>): (c: seq<Cell>)
    ensures |c| == |data|
  {
    seq(|data|, i requires 0 <= i < |data| =>
      match base
      case Linear(_) => Cell(Wrap(base.Addr() + (addr + i)), data[i])
      case Segment(_) => Cell(Wrap(base.Addr() + (addr + i) % 0x1_0000), data[i]))
  }

  function Meaning(recs: seq<Record>, base: Base): seq<Cell>
    requires AllValid(recs)
    decreases |recs|
  {
    if recs == [] || recs[0].typ == 1 then []
    else
      var r, rest := recs[0], recs[1..];
      match r.typ
      case 0 => DataCells(base, r.addr, r.data) + Meaning(rest, base)
      case 2 => Meaning(rest, Segment(Word(r.data[0], r.data[1])))
      case 4 => Meaning(rest, Linear(Word(r.data[0], r.data[1])))
      case _ => Meaning(rest, base)
  }

  // ---- What the parser delivers for a list of records ----

  function NextAfter(next: U32, r: Record): U32
    requires r.Valid()
  {
    match r.typ
    case 0 => Wrap(Upper(next) + r.addr + |r.data|)
    case 2 => Word(r.data[0], r.data[1]) as int * 0x10
    case 4 => Word(r.data[0], r.data[1]) as int * 0x1_0000
    case _ => next
  }

  function RecordCells(next: U32, r: Record): seq<Cell> {
    if r.typ == 0 then At(Upper(next) + r.addr, r.data) else []
  }

  function Delivered(recs: seq<Record>, next: U32): seq<Cell>
    requires AllValid(recs)
    decreases |recs|
  {
    if recs == [] || recs[0].typ == 1 then []
    else RecordCells(next, recs[0]) + Delivered(recs[1..], NextAfter(next, recs[0]))
  }

  lemma DigitValue(c: Byte)
    requires IsDigit(c)
    ensures Ctoh(c) % 0x10 == Value(c) && Ctoh(c) * 0x10 % 0x100 == Value(c) * 0x10
    ensures c != CR && c != LF && c != COLON
  {
  }

  /** The parser with the first k bytes of a record in its line buffer. */
  function Loading(p: Parser, b: seq<Byte>, k: nat): (q: Parser)
    requires k <= |b| <= LINE_LEN && (p.load ==> false)
    ensures q.Valid() && !q.load
  {
    p.(line := b[..k] + Zeros(LINE_LEN - k), low := false, idx := k, processed := false)
  }

  lemma HighDigit(p: Parser, b: seq<Byte>, k: nat, hi: Byte)
    requires !p.load && k < |b| <= LINE_LEN && IsDigit(hi)
    ensures var q := Loading(p, b, k);
      StepChar(q, hi) == Go(q.(line := q.line[k := Value(hi) * 16], low := true), [])
  {
    hide Complete, Ctoh;
    DigitValue(hi);
  }

  lemma LoadedByte(b: seq<Byte>, k: nat, first: Byte)
    requires k < |b| <= LINE_LEN
    ensures (b[..k] + Zeros(LINE_LEN - k))[k := first][k := b[k]] == b[..k + 1] + Zeros(LINE_LEN - (k + 1))
  {
  }

  lemma LowDigit(p: Parser, b: seq<Byte>, k: nat, hi: Byte, lo: Byte)
    requires !p.load && k < |b| <= LINE_LEN
    requires IsDigit(hi) && IsDigit(lo) && b[k] == Value(hi) * 16 + Value(lo)
    ensures var q := Loading(p, b, k);
      StepChar(q.(line := q.line[k := Value(hi) * 16], low := true), lo) == Complete(Loading(p, b, k + 1).(low := true))
  {
    hide Complete, Ctoh, Zeros;
    DigitValue(lo);
    LoadedByte(b, k, Value(hi) * 16);
    var q := Loading(p, b, k);
    var q1 := q.(line := q.line[k := Value(hi) * 16], low := true);
    assert Latch(q1, lo).line == q.line[k := Value(hi) * 16][k := b[k]];
  }

  /** Two digits put one byte into the line. */
  lemma TwoDigits(p: Parser, b: seq<Byte>, k: nat, hi: Byte, lo: Byte)
    requires !p.load && k < |b| <= LINE_LEN
    requires IsDigit(hi) && IsDigit(lo) && b[k] == Value(hi) * 16 + Value(lo)
    ensures var q := Loading(p, b, k);
      && StepChar(q, hi).Go? && StepChar(q, hi).out == [] && !StepChar(q, hi).p.load
      && StepChar(StepChar(q, hi).p, lo) == Complete(Loading(p, b, k + 1).(low := true))
  {
    hide Complete, StepChar, Value, IsDigit;
    HighDigit(p, b, k, hi);
    LowDigit(p, b, k, hi, lo);
  }

  lemma WrittenByte(s: seq<Byte>, b: seq<Byte>, k: nat)
    requires Writes(s, b) && k < |b|
    ensures 2 * k + 1 < |s| && IsDigit(s[2 * k]) && IsDigit(s[2 * k + 1])
    ensures b[k] == Value(s[2 * k]) * 16 + Value(s[2 * k + 1])
  {
  }

  /** Feeding the digits of bytes that do not complete a record yet loads the line buffer. */
  lemma {:induction false} LoadLine(p: Parser, b: seq<Byte>, s: seq<Byte>, k: nat, n: nat, tail: seq<Byte>)
    requires p.Valid() && !p.load && !p.skip
    requires k <= n <= |b| <= LINE_LEN && 0 < |b| && n < b[0] as int + 5 <= LINE_LEN && Writes(s, b)
    ensures PassAll(Loading(p, b, k), s[2 * k..] + tail) == PassAll(Loading(p, b, n), s[2 * n..] + tail)
    decreases n - k
  {
    hide StepChar, Loading, IsDigit, Value, Complete, PassAll;
    if k < n {
      WrittenByte(s, b, k);
      var hi, lo := s[2 * k], s[2 * k + 1];
      var q, rest := Loading(p, b, k), s[2 * (k + 1)..] + tail;
      TwoDigits(p, b, k, hi, lo);
      ShortRecordGoesOn(p, b, k + 1);
      assert s[2 * k..] + tail == [hi, lo] + rest;
      TwoPasses(q, hi, lo, rest, Loading(p, b, k + 1));
      LoadLine(p, b, s, k + 1, n, tail);
    }
  }

  lemma ShortRecordGoesOn(p: Parser, b: seq<Byte>, k: nat)
    requires p.Valid() && !p.load && 0 < k <= |b| <= LINE_LEN && k < b[0] as int + 5 <= LINE_LEN
    ensures Complete(Loading(p, b, k).(low := true)) == Go(Loading(p, b, k), [])
    ensures Loading(p, b, k).next == p.next
  {
  }

  /** Two characters that both go on without output. */
  lemma TwoPasses(q: Parser, c: Byte, d: Byte, rest: seq<Byte>, r: Parser)
    requires q.Valid() && !q.load && StepChar(q, c).Go? && StepChar(q, c).out == []
    requires r.Valid() && !r.load && !StepChar(q, c).p.load && StepChar(StepChar(q, c).p, d) == Go(r, [])
    ensures PassAll(q, [c, d] + rest) == PassAll(r, rest)
  {
    hide StepChar;
    var m := StepChar(q, c).p;
    var s := [c, d] + rest;
    assert s[1..] == [d] + rest && ([d] + rest)[1..] == rest;
    assert r.(load := false) == r && m.(load := false) == m;
    PrependTwice(PassAll(r, rest), [], []);
    PrependTwice(PassAll(m, [d] + rest), [], []);
    assert Pass(q, c) == Run(m, [], false, Ok) && Pass(m, d) == Run(r, [], false, Ok);
  }

  lemma {:induction false} SumAppend(s: seq<Byte>, b: Byte)
    ensures Sum(s + [b]) == Sum(s) + b
  {
    assert (s + [b])[..|s|] == s;
  }

  lemma ChecksumHolds(r: Record)
    requires r.Valid()
    ensures Sum(r.Bytes()) % 0x100 == 0
  {
    hide Sum;
    var sum := Sum(r.Body());
    SumAppend(r.Body(), (-sum) % 0x100);
    assert (sum + (-sum) % 0x100) % 0x100 == 0;
  }

  /** The last byte of a record makes it take effect. */
  lemma LastByte(p: Parser, r: Record)
    requires p.Valid() && !p.load && r.Valid()
    ensures var b := r.Bytes();
      var q := Loading(p, b, |b|).(low := true);
      && Complete(q) == Dispatch(q.(processed := true, line := Swapped(q.line)))
      && q.Count() == |r.data|
      && Swapped(q.line)[4..4 + |r.data|] == r.data && q.line[3] == r.typ
      && Word(Swapped(q.line)[2], Swapped(q.line)[1]) == r.addr
  {
    var b := r.Bytes();
    var q := Loading(p, b, |b|).(low := true);
    ChecksumHolds(r);
    assert q.line[..|b|] == b;
    assert Swapped(q.line)[4..4 + |r.data|] == q.line[4..4 + |r.data|] == r.data;
  }

  lemma StartsLine(p: Parser, b: seq<Byte>)
    requires p.Valid() && !p.load && |b| <= LINE_LEN
    ensures Pass(p, COLON) == Run(Loading(p, b, 0), [], false, Ok)
  {
    assert b[..0] + Zeros(LINE_LEN) == Zeros(LINE_LEN);
  }

  lemma FirstOfTwo(q: Parser, c: Byte, rest: seq<Byte>)
    requires q.Valid() && !q.load && StepChar(q, c).Go? && StepChar(q, c).out == [] && !StepChar(q, c).p.load
    ensures PassAll(q, [c] + rest) == PassAll(StepChar(q, c).p, rest)
  {
    hide StepChar;
    var m := StepChar(q, c).p;
    assert ([c] + rest)[1..] == rest && m.(load := false) == m;
    PrependTwice(PassAll(m, rest), [], []);
    assert Pass(q, c) == Run(m, [], false, Ok);
  }

  lemma LoadingKeeps(p: Parser, b: seq<Byte>, k: nat)
    requires k <= |b| <= LINE_LEN && !p.load
    ensures var q := Loading(p, b, k); q.next == p.next && q.version == p.version && q.skip == p.skip && !q.load
  {
  }

  /** The parser d holds the complete record r and expects `next`. */
  predicate HoldsRecord(d: Parser, r: Record, next: U32) {
    && d.Valid() && r.Valid() && !d.load && !d.skip && d.version == 0 && d.next == next
    && d.line[3] == r.typ && d.Address() == r.addr && d.Count() == |r.data| && d.Data() == r.data
  }

  lemma LastStep(p: Parser, r: Record) returns (d: Parser)
    requires p.Valid() && !p.load && !p.skip && p.version == 0 && r.Valid()
    ensures HoldsRecord(d, r, p.next) && Complete(Loading(p, r.Bytes(), |r.Bytes()|).(low := true)) == Dispatch(d)
  {
    hide Complete, Loading, Dispatch;
    var l := Loading(p, r.Bytes(), |r.Bytes()|).(low := true);
    LastByte(p, r);
    LoadingKeeps(p, r.Bytes(), |r.Bytes()|);
    d := l.(processed := true, line := Swapped(l.line));
  }

  lemma LastData(m: Parser, lo: Byte, d: Parser, r: Record, next: U32) returns (q: Parser)
    requires m.Valid() && !m.load && HoldsRecord(d, r, next) && StepChar(m, lo) == Dispatch(d) && r.typ == 0
    ensures q.Valid() && !q.load && !q.skip && q.version == 0 && q.next == NextAfter(next, r)
    ensures Pass(m, lo) == Run(q, RecordCells(next, r), false, Ok)
  {
    hide StepChar, At, Wrap;
    q := Pass(m, lo).p;
    if Dispatch(d).Go? {
      NextCongruent(next, |r.data|, q.next);
      AtCongruent(q.next - |r.data|, next, r.data);
    }
  }

  lemma LastAddress(m: Parser, lo: Byte, d: Parser, r: Record, next: U32) returns (q: Parser)
    requires m.Valid() && !m.load && HoldsRecord(d, r, next) && StepChar(m, lo) == Dispatch(d) && (r.typ == 2 || r.typ == 4)
    ensures q.Valid() && !q.load && !q.skip && q.version == 0 && q.next == NextAfter(next, r)
    ensures Pass(m, lo) == Run(q, RecordCells(next, r), false, Ok)
  {
    hide StepChar, At, Wrap;
    q := Pass(m, lo).p;
    assert r.data == [d.line[4], d.line[5]];
    RepresentedNibble(m, lo);
  }

  lemma LastOther(m: Parser, lo: Byte, d: Parser, r: Record, next: U32) returns (q: Parser)
    requires m.Valid() && !m.load && HoldsRecord(d, r, next) && StepChar(m, lo) == Dispatch(d) && r.typ !in {0, 2, 4}
    ensures q.Valid() && !q.load && !q.skip && q.version == 0 && q.next == NextAfter(next, r)
    ensures Pass(m, lo) == if r.typ == 1 then Run(q, [], true, Eof) else Run(q, RecordCells(next, r), false, Ok)
  {
    hide StepChar, Wrap;
    q := Pass(m, lo).p;
  }

  /** A complete record takes effect as its meaning for the parser says. */
  lemma LastPass(p: Parser, r: Record, m: Parser, lo: Byte) returns (q: Parser)
    requires p.Valid() && !p.load && !p.skip && p.version == 0 && r.Valid() && m.Valid() && !m.load
    requires StepChar(m, lo) == Complete(Loading(p, r.Bytes(), |r.Bytes()|).(low := true))
    ensures q.Valid() && !q.load && !q.skip && q.version == 0
    ensures q.next == NextAfter(p.next, r)
    ensures Pass(m, lo) == if r.typ == 1 then Run(q, [], true, Eof) else Run(q, RecordCells(p.next, r), false, Ok)
  {
    hide StepChar, Complete, Loading, Pass, Dispatch, HoldsRecord, NextAfter, RecordCells;
    var d := LastStep(p, r);
    if r.typ == 0 {
      q := LastData(m, lo, d, r, p.next);
    } else if r.typ == 2 || r.typ == 4 {
      q := LastAddress(m, lo, d, r, p.next);
    } else {
      q := LastOther(m, lo, d, r, p.next);
    }
  }

  /** One record of text: its cells, and the address where the next data record is expected. */
  lemma RecordPass(p: Parser, r: Record, s: seq<Byte>, tail: seq<Byte>) returns (q: Parser)
    requires p.Valid() && !p.load && !p.skip && p.version == 0 && r.Valid()
    requires |s| > 0 && s[0] == COLON && Writes(s[1..], r.Bytes())
    ensures q.Valid() && !q.load && !q.skip && q.version == 0
    ensures q.next == NextAfter(p.next, r)
    ensures PassAll(p, s + tail)
         == if r.typ == 1 then Run(q, [], true, Eof) else PassAll(q, tail).Prepend(RecordCells(p.next, r))
  {
    hide StepChar, Pass;
    var b, d := r.Bytes(), s[1..];
    var n := |b| - 1;
    StartsLine(p, b);
    assert (s + tail)[1..] == d + tail;
    PrependTwice(PassAll(Loading(p, b, 0), d + tail), [], []);
    LoadLine(p, b, d, 0, n, tail);
    assert d[0..] == d;
    var hi, lo := d[2 * n], d[2 * n + 1];
    var m := Loading(p, b, n);
    assert d[2 * n..] + tail == [hi] + ([lo] + tail);
    TwoDigits(p, b, n, hi, lo);
    var m1 := StepChar(m, hi).p;
    FirstOfTwo(m, hi, [lo] + tail);
    assert ([lo] + tail)[1..] == tail;
    q := LastPass(p, r, m1, lo);
    PrependTwice(PassAll(q, tail), RecordCells(p.next, r), []);
  }

  // ---- Whole files ----

  /** Line ends do not matter to the parser, wherever they stand. */
  lemma {:induction false} LineEndsIgnored(p: Parser, s: seq<Byte>)
    requires p.Valid() && !p.load
    ensures PassAll(p, s) == PassAll(p, Strip(s))
    decreases |s|
  {
    hide StepChar;
    if s != [] {
      var rest := Strip(s[1..]);
      if s[0] == CR || s[0] == LF {
        LineEnd(p, s[0]);
        LineEndsIgnored(p, s[1..]);
        PrependTwice(PassAll(p, s[1..]), [], []);
        assert Strip(s) == rest;
      } else {
        assert Strip(s)[0] == s[0] && Strip(s)[1..] == rest;
        var r := Pass(p, s[0]);
        if !r.halt {
          LineEndsIgnored(r.p, s[1..]);
        }
      }
    }
  }

  lemma LineEnd(p: Parser, c: Byte)
    requires p.Valid() && !p.load && (c == CR || c == LF)
    ensures Pass(p, c) == Run(p, [], false, Ok)
  {
    assert p.(load := false) == p;
  }

  predicate HasEof(recs: seq<Record>) { exists i :: 0 <= i < |recs| && recs[i].typ == 1 }

  lemma EofFirst(recs: seq<Record>)
    requires recs != []
    ensures HasEof(recs) <==> recs[0].typ == 1 || HasEof(recs[1..])
  {
    if HasEof(recs) && recs[0].typ != 1 {
      var i :| 0 <= i < |recs| && recs[i].typ == 1;
      assert recs[1..][i - 1].typ == 1;
    }
    if HasEof(recs[1..]) {
      var i :| 0 <= i < |recs[1..]| && recs[1..][i].typ == 1;
      assert recs[i + 1].typ == 1;
    }
  }

  /** What a list of records and a beginning of one more amount to: the cells of the records, up to the EOF record. */
  lemma {:induction false} RecordsPass(p: Parser, recs: seq<Record>, s: seq<Byte>, part: seq<Byte>)
    requires p.Valid() && !p.load && !p.skip && p.version == 0
    requires AllValid(recs) && Spells(s, recs) && PartOfRecord(part)
    ensures var r := PassAll(p, s + part);
      r.cells == Delivered(recs, p.next) && !r.p.skip && r.status == if HasEof(recs) then Eof else Ok
    decreases |recs|
  {
    hide StepChar, Pass, PassAll, Writes, NextAfter, RecordCells, PartOfRecord, HasEof;
    if recs == [] {
      assert s + part == part;
      PartPass(p, part);
      NoEof();
    } else {
      EofFirst(recs);
      var r := recs[0];
      var n := 2 * (|r.data| + 5) + 1;
      CutLine(s, n, part);
      var q := RecordPass(p, r, s[..n], s[n..] + part);
      if r.typ != 1 {
        RecordsPass(q, recs[1..], s[n..], part);
      }
    }
  }

  lemma CutLine(s: seq<Byte>, n: nat, part: seq<Byte>)
    requires 1 <= n <= |s|
    ensures s[..n][1..] == s[1..n] && s + part == s[..n] + (s[n..] + part)
  {
  }

  lemma NoEof()
    ensures !HasEof([])
  {
  }

  /** Less than one record: perhaps the colon, and some of its digits. */
  ghost predicate PartOfRecord(s: seq<Byte>) {
    s == [] || exists r: Record, d: seq<Byte> :: r.Valid() && PartOf(s, r, d)
  }

  ghost predicate PartOf(s: seq<Byte>, r: Record, d: seq<Byte>)
    requires r.Valid()
  {
    Writes(d, r.Bytes()) && 0 < |s| <= |d| && s[0] == COLON && s[1..] <= d
  }

  /** The digits of a record before its last one deliver nothing. */
  lemma {:induction false} PartLoads(p: Parser, b: seq<Byte>, s: seq<Byte>, k: nat, n: nat)
    requires p.Valid() && !p.load && !p.skip
    requires k < |b| <= LINE_LEN && b[0] as int + 5 == |b| && Writes(s, b) && 2 * k <= n < |s|
    ensures var r := PassAll(Loading(p, b, k), s[2 * k..n]);
      r.cells == [] && !r.halt && r.status == Ok && !r.p.skip
    decreases |b| - k
  {
    hide StepChar, Loading, IsDigit, Value, Complete, PassAll;
    LoadingKeeps(p, b, k);
    var q := Loading(p, b, k);
    if n == 2 * k {
      PassNone(q);
      assert s[2 * k..n] == [];
    } else {
      WrittenByte(s, b, k);
      var hi, lo := s[2 * k], s[2 * k + 1];
      TwoDigits(p, b, k, hi, lo);
      if n == 2 * k + 1 {
        assert s[2 * k..n] == [hi] + [];
        FirstOfTwo(q, hi, []);
        PassNone(StepChar(q, hi).p);
        HighDigit(p, b, k, hi);
      } else {
        var rest := s[2 * (k + 1)..n];
        ShortRecordGoesOn(p, b, k + 1);
        assert s[2 * k..n] == [hi, lo] + rest;
        TwoPasses(q, hi, lo, rest, Loading(p, b, k + 1));
        PartLoads(p, b, s, k + 1, n);
      }
    }
  }

  lemma PassNone(p: Parser)
    requires p.Valid() && !p.load
    ensures PassAll(p, []) == Run(p, [], false, Ok)
  {
  }

  lemma PartPass(p: Parser, s: seq<Byte>)
    requires p.Valid() && !p.load && !p.skip && PartOfRecord(s)
    ensures var r := PassAll(p, s); r.cells == [] && !r.halt && r.status == Ok && !r.p.skip
  {
    hide StepChar, Pass, Loading, Writes;
    if s != [] {
      var r: Record, d: seq<Byte> :| r.Valid() && PartOf(s, r, d);
      var b := r.Bytes();
      StartsLine(p, b);
      assert d[2 * 0..|s| - 1] == s[1..];
      PartLoads(p, b, d, 0, |s| - 1);
      PrependTwice(PassAll(Loading(p, b, 0), s[1..]), [], []);
    }
  }

  /** For every file of the format, in any digit case and with any line ends, the resumed parser delivers the cells of
      its records in order, and no call fails. When the file is cut off inside a record, that record is dropped without
      an error: the status Eof, that is the EOF record, is all that tells a complete file. */
  lemma CutTextDelivers(recs: seq<Record>, whole: seq<Byte>, part: seq<Byte>, text: seq<Byte>)
    requires AllValid(recs) && Spells(whole, recs) && PartOfRecord(part) && Strip(text) == whole + part
    ensures var f := Feed(FRESH, text);
      && Cells(f.chunks) == Delivered(recs, 0)
      && !f.p.skip && f.status == if HasEof(recs) then Eof else Ok
  {
    hide PassAll, Feed, Delivered, PartOfRecord, HasEof;
    FeedIsWhole(FRESH, text);
    LineEndsIgnored(FRESH, text);
    RecordsPass(FRESH, recs, whole, part);
    assert PendingCells(FRESH) == [];
    PrependTwice(PassAll(FRESH, text), [], []);
  }

  lemma DriverDelivers(recs: seq<Record>, text: seq<Byte>)
    requires AllValid(recs) && Spells(Strip(text), recs)
    ensures var f := Feed(FRESH, text);
      && Cells(f.chunks) == Delivered(recs, 0)
      && !f.p.skip && f.status == if HasEof(recs) then Eof else Ok
  {
    hide Feed, Delivered, Spells, HasEof;
    assert Strip(text) + [] == Strip(text);
    CutTextDelivers(recs, Strip(text), [], text);
  }

  /** The parser keeps the upper address half in the address it expects next. A record is placed as the
      format says iff that half is the base of the file at this point, and a segment does not wrap inside it. */
  predicate Placed(base: Base, next: U32, r: Record) {
    r.data == [] || (Upper(next) == base.Addr() && (base.Segment? ==> r.addr + |r.data| <= 0x1_0000))
  }

  predicate PagesAgree(recs: seq<Record>, base: Base, next: U32)
    requires AllValid(recs)
    decreases |recs|
  {
    if recs == [] || recs[0].typ == 1 then true
    else
      var r, rest := recs[0], recs[1..];
      match r.typ
      case 0 => Placed(base, next, r) && PagesAgree(rest, base, Wrap(Upper(next) + r.addr + |r.data|))
      case 2 => PagesAgree(rest, Segment(Word(r.data[0], r.data[1])), Word(r.data[0], r.data[1]) as int * 0x10)
      case 4 => PagesAgree(rest, Linear(Word(r.data[0], r.data[1])), Word(r.data[0], r.data[1]) as int * 0x1_0000)
      case _ => PagesAgree(rest, base, next)
  }

  lemma SamePlace(base: Base, next: U32, addr: U16, k: nat)
    requires k < 32
    ensures Upper(next) == base.Addr() && (base.Segment? ==> addr + k < 0x1_0000)
        ==> Wrap(Upper(next) + addr + k) == Wrap(base.Addr() + if base.Linear? then addr + k else (addr + k) % 0x1_0000)
    ensures Wrap(Upper(next) + addr) == Wrap(base.Addr() + addr) ==> Upper(next) == base.Addr()
    ensures base.Segment? && Upper(next) == base.Addr() && addr + k >= 0x1_0000
        ==> Wrap(Upper(next) + addr + k) != Wrap(base.Addr() + (addr + k) % 0x1_0000)
  {
    assert 0 <= Upper(next) <= 0xFFFF_0000 && 0 <= base.Addr() <= 0xFFFF_0000;
  }

  /** Where the parser puts byte k of a record, and where the format does. */
  lemma PlaceOf(base: Base, next: U32, r: Record, k: nat)
    requires k < |r.data|
    ensures At(Upper(next) + r.addr, r.data)[k] == Cell(Wrap(Upper(next) + r.addr + k), r.data[k])
    ensures DataCells(base, r.addr, r.data)[k]
         == Cell(Wrap(base.Addr() + if base.Linear? then r.addr + k else (r.addr + k) % 0x1_0000), r.data[k])
  {
  }

  lemma PlacedExactly(base: Base, next: U32, r: Record)
    requires r.Valid()
    ensures Placed(base, next, r) <==> At(Upper(next) + r.addr, r.data) == DataCells(base, r.addr, r.data)
  {
    hide Wrap, Upper, At, DataCells;
    var a, b := At(Upper(next) + r.addr, r.data), DataCells(base, r.addr, r.data);
    if Placed(base, next, r) {
      forall k | 0 <= k < |r.data| ensures a[k] == b[k] {
        PlaceOf(base, next, r, k);
        SamePlace(base, next, r.addr, k);
      }
    }
    if a == b && r.data != [] {
      var n := |r.data| - 1;
      PlaceOf(base, next, r, 0);
      PlaceOf(base, next, r, n);
      SamePlace(base, next, r.addr, n);
    }
  }

  lemma EqualInParts(a: seq<Cell>, d: seq<Cell>, b: seq<Cell>, m: seq<Cell>)
    requires |a| == |b|
    ensures a + d == b + m <==> a == b && d == m
  {
    assert (a + d)[..|a|] == a && (a + d)[|a|..] == d && (b + m)[..|a|] == b && (b + m)[|a|..] == m;
  }

  /** The parser gives a file the meaning of the format if and only if its pages agree. */
  lemma {:induction false} MeaningIffPagesAgree(recs: seq<Record>, base: Base, next: U32)
    requires AllValid(recs)
    ensures PagesAgree(recs, base, next) <==> Delivered(recs, next) == Meaning(recs, base)
    ensures |Delivered(recs, next)| == |Meaning(recs, base)|
    decreases |recs|
  {
    hide At, DataCells, Wrap, Placed;
    if recs != [] && recs[0].typ != 1 {
      var r, rest := recs[0], recs[1..];
      var next' := NextAfter(next, r);
      var base' := if r.typ == 2 then Segment(Word(r.data[0], r.data[1]))
                   else if r.typ == 4 then Linear(Word(r.data[0], r.data[1])) else base;
      MeaningIffPagesAgree(rest, base', next');
      if r.typ == 0 {
        PlacedExactly(base, next, r);
        EqualInParts(At(Upper(next) + r.addr, r.data), Delivered(rest, next'), DataCells(base, r.addr, r.data),
                     Meaning(rest, base));
      } else {
        assert [] + Delivered(rest, next') == Delivered(rest, next');
      }
    }
  }

  /** The resumed parser implements the format exactly for the files whose pages agree. */
  lemma HexRoundTrip(recs: seq<Record>, text: seq<Byte>)
    requires AllValid(recs) && Spells(Strip(text), recs)
    ensures Cells(Feed(FRESH, text).chunks) == Meaning(recs, Linear(0)) <==> PagesAgree(recs, Linear(0), 0)
  {
    hide Feed, Meaning, PagesAgree, Delivered;
    DriverDelivers(recs, text);
    MeaningIffPagesAgree(recs, Linear(0), 0);
  }

  // ---- Encoding an image ----

  /** A run of 1 to 32 image bytes inside one 64 KiB page. */
  datatype Row = Row(addr: U32, data: seq<Byte>)
  {
    predicate Valid() { 1 <= |data| <= 32 && addr % 0x1_0000 + |data| <= 0x1_0000 }
    function Page(): U16 { addr / 0x1_0000 }
    function End(): int { addr + |data| }
  }

  ghost predicate Ascending(rows: seq<Row>) {
    && (forall i :: 0 <= i < |rows| ==> rows[i].Valid())
    && (forall i :: 0 < i < |rows| ==> rows[i - 1].End() <= rows[i].addr)
  }

  function Image(rows: seq<Row>): seq<Cell> {
    if rows == [] then [] else At(rows[0].addr, rows[0].data) + Image(rows[1..])
  }

  /** Data records, with a type-04 record at each change of the 64 KiB page, closed by an EOF record. */
  function Encode(rows: seq<Row>, page: U16): (recs: seq<Record>)
    requires forall i :: 0 <= i < |rows| ==> rows[i].Valid()
    ensures AllValid(recs)
  {
    if rows == [] then [Record(0, 1, [])]
    else
      var r := rows[0];
      var data := Record(r.addr % 0x1_0000, 0, r.data);
      assert r.Valid() && data.Valid();
      if r.Page() == page then [data] + Encode(rows[1..], page)
      else [Record(0, 4, [r.Page() / 0x100, r.Page() % 0x100]), data] + Encode(rows[1..], r.Page())
  }

  lemma DataFirst(r: Row, start: U32, tail: seq<Record>)
    requires r.Valid() && Upper(start) == r.Page() as int * 0x1_0000 && AllValid(tail)
    requires PagesAgree(tail, Linear(r.Page()), Wrap(Upper(start) + r.addr % 0x1_0000 + |r.data|))
    ensures var recs := [Record(r.addr % 0x1_0000, 0, r.data)] + tail;
      && AllValid(recs)
      && PagesAgree(recs, Linear(r.Page()), start)
      && Meaning(recs, Linear(r.Page())) == At(r.addr, r.data) + Meaning(tail, Linear(r.Page()))
  {
    hide At, DataCells, Wrap, Placed;
    var recs := [Record(r.addr % 0x1_0000, 0, r.data)] + tail;
    assert recs[1..] == tail && recs[0].Valid();
    RowPlaced(r, start);
  }

  lemma PageFirst(page: U16, other: U16, next: U32, tail: seq<Record>)
    requires AllValid(tail) && PagesAgree(tail, Linear(page), page as int * 0x1_0000)
    ensures var recs := [Record(0, 4, [page / 0x100, page % 0x100])] + tail;
      && AllValid(recs)
      && PagesAgree(recs, Linear(other), next)
      && Meaning(recs, Linear(other)) == Meaning(tail, Linear(page))
  {
    var recs := [Record(0, 4, [page / 0x100, page % 0x100])] + tail;
    assert recs[1..] == tail && Word(recs[0].data[0], recs[0].data[1]) == page;
  }

  lemma RestAscending(rows: seq<Row>)
    requires Ascending(rows) && rows != []
    ensures Ascending(rows[1..]) && rows[0].Valid() && (rows[1..] != [] ==> rows[0].End() <= rows[1].addr)
  {
    forall i | 0 < i < |rows[1..]| ensures rows[1..][i - 1].End() <= rows[1..][i].addr {
      assert rows[1..][i] == rows[i + 1] && rows[1..][i - 1] == rows[i];
    }
  }

  lemma EncodeFirst(rows: seq<Row>, page: U16)
    requires Ascending(rows) && rows != [] && Ascending(rows[1..])
    ensures var r := rows[0];
      var data := [Record(r.addr % 0x1_0000, 0, r.data)] + Encode(rows[1..], r.Page());
      Encode(rows, page) == if r.Page() == page then data else [Record(0, 4, [r.Page() / 0x100, r.Page() % 0x100])] + data
  {
  }

  lemma EncodeNone(page: U16, next: U32)
    ensures PagesAgree(Encode([], page), Linear(page), next) && Meaning(Encode([], page), Linear(page)) == Image([])
  {
  }

  lemma {:induction false} EncodedPagesAgree(rows: seq<Row>, page: U16, next: U32)
    requires Ascending(rows)
    requires rows != [] && rows[0].Page() == page ==> Upper(next) == page as int * 0x1_0000
    ensures PagesAgree(Encode(rows, page), Linear(page), next)
    ensures Meaning(Encode(rows, page), Linear(page)) == Image(rows)
    decreases |rows|
  {
    hide At, DataCells, Wrap, Placed, Upper, Encode, Ascending, PagesAgree, Meaning;
    if rows == [] {
      EncodeNone(page, next);
    } else {
      var r, rest := rows[0], rows[1..];
      RestAscending(rows);
      EncodeFirst(rows, page);
      var start: U32 := if r.Page() == page then next else r.Page() as int * 0x1_0000;
      UpperOfPage(r.Page());
      NextPage(r, rest, start);
      EncodedPagesAgree(rest, r.Page(), Wrap(Upper(start) + r.addr % 0x1_0000 + |r.data|));
      DataFirst(r, start, Encode(rest, r.Page()));
      if r.Page() != page {
        PageFirst(r.Page(), page, next, [Record(r.addr % 0x1_0000, 0, r.data)] + Encode(rest, r.Page()));
      }
    }
  }

  lemma UpperOfPage(page: U16)
    ensures Upper(page as int * 0x1_0000) == page as int * 0x1_0000
  {
  }

  lemma RowPlaced(r: Row, start: U32)
    requires r.Valid() && Upper(start) == r.Page() as int * 0x1_0000
    ensures Placed(Linear(r.Page()), start, Record(r.addr % 0x1_0000, 0, r.data))
    ensures DataCells(Linear(r.Page()), r.addr % 0x1_0000, r.data) == At(r.addr, r.data)
  {
  }

  lemma NextPage(r: Row, rest: seq<Row>, start: U32)
    requires r.Valid() && Upper(start) == r.Page() as int * 0x1_0000
    requires rest != [] ==> r.End() <= rest[0].addr
    ensures rest != [] && rest[0].Page() == r.Page()
        ==> Upper(Wrap(Upper(start) + r.addr % 0x1_0000 + |r.data|)) == r.Page() as int * 0x1_0000
  {
  }

  /** Encode an ascending image, in any digit case and with any line ends, and parse it with all the exits
      and resumptions of the driver: the cells delivered are exactly those of the image. */
  lemma ImageRoundTrip(rows: seq<Row>, text: seq<Byte>)
    requires Ascending(rows) && Spells(Strip(text), Encode(rows, 0))
    ensures Cells(Feed(FRESH, text).chunks) == Image(rows)
    ensures Feed(FRESH, text).status in {Ok, Eof}
  {
    hide Feed, Image, PagesAgree, Delivered, Meaning;
    DriverDelivers(Encode(rows, 0), text);
    EncodedPagesAgree(rows, 0, 0);
    HexRoundTrip(Encode(rows, 0), text);
  }
}
