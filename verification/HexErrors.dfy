/** What the parser makes of any lines of digits, sound or not. A line is a colon and the digit pairs of its bytes. The
    first byte declares the data bytes of a record; address, type and checksum make five more. */
module HexErrors {
  import opened Bytes
  import opened IntelHex
  import opened HexStream
  import opened HexFormat

  /** s is the lines one after the other. Up to 254 bytes the index into the line buffer does not wrap. */
  ghost predicate Lines(s: seq<Byte>, lines: seq<seq<Byte>>)
    decreases |lines|
  {
    if lines == [] then s == []
    else
      var n := 2 * |lines[0]| + 1;
      && |lines[0]| <= 254
      && n <= |s| && s[0] == COLON && Writes(s[1..n], lines[0]) && Lines(s[n..], lines[1..])
  }

  /** More data bytes are declared than a line holds. */
  predicate TooLong(b: seq<Byte>) { b != [] && b[0] > 32 }

  /** All the bytes that are declared are there. */
  predicate Full(b: seq<Byte>) { b != [] && b[0] <= 32 && |b| >= b[0] as int + 5 }

  function Added(b: seq<Byte>): int { if b == [] then 0 else b[0] + Added(b[1..]) }

  predicate Sound(b: seq<Byte>) { Full(b) && Added(b[..b[0] as int + 5]) % 256 == 0 }

  predicate WrongSum(b: seq<Byte>) { Full(b) && !Sound(b) }

  /** A record of type 0A sets the board version of what follows in a Universal HEX file. */
  function VersionAfter(v: U16, b: seq<Byte>): U16 {
    if Sound(b) && b[3] == 10 then Word(b[4], if b[0] > 0 then b[5] else 0) else v
  }

  function VersionAt(lines: seq<seq<Byte>>, i: nat, v: U16): U16
    requires i <= |lines|
    decreases i
  {
    if i == 0 then v else VersionAt(lines[1..], i - 1, VersionAfter(v, lines[0]))
  }

  /** The data of another board. */
  predicate Foreign(b: seq<Byte>, v: U16) { Sound(b) && (b[3] == 0 || b[3] == 13) && v != 0 }

  predicate EndOfFile(b: seq<Byte>) { Sound(b) && b[3] == 1 }

  /** Reading goes on after a line that is not complete, and after a sound record other than EOF. */
  predicate GoesOn(b: seq<Byte>, v: U16) { !TooLong(b) && !WrongSum(b) && !EndOfFile(b) && !Foreign(b, v) }

  ghost predicate Reached(lines: seq<seq<Byte>>, i: nat, v: U16) {
    i < |lines| && forall j :: 0 <= j < i ==> GoesOn(lines[j], VersionAt(lines, j, v))
  }

  lemma {:induction false} AddedIsSum(b: seq<Byte>)
    ensures Added(b) == Sum(b)
    decreases |b|
  {
    if |b| == 1 {
      assert b[..0] == [] && b[1..] == [];
    } else if |b| > 1 {
      var k := |b| - 1;
      AddedIsSum(b[1..]);
      AddedIsSum(b[..k]);
      AddedIsSum(b[1..k]);
      assert b[1..][..k - 1] == b[1..k] && b[..k][1..] == b[1..k];
    }
  }

  /** Reading the text reaches an over-long line or a wrong sum. */
  ghost predicate Corrupt(text: seq<Byte>) {
    exists lines: seq<seq<Byte>>, i: nat :: Lines(Strip(text), lines) && BadAt(lines, i)
  }

  ghost predicate BadAt(lines: seq<seq<Byte>>, i: nat) {
    Reached(lines, i, 0) && (WrongSum(lines[i]) || TooLong(lines[i]))
  }

  // ---- One line ----

  /** The record in the line has taken effect, and m bounds the digits that the index has counted. */
  ghost predicate Done(q: Parser, m: nat) {
    && q.Valid() && !q.load && !q.skip && q.processed && q.Count() <= DATA_LEN && q.Count() + 5 <= q.idx
    && Sum(q.line[..q.Count() + 5]) % 0x100 == 0
    && 2 * q.idx as int + (if q.low then 1 else 0) <= m
  }

  /** More digits in the line of such a record have no effect. */
  lemma DoneStep(q: Parser, c: Byte, m: nat)
    requires Done(q, m) && m < 511 && c != CR && c != LF && c != COLON
    ensures var s := StepChar(q, c);
      s.Go? && s.out == [] && !s.p.load && Done(s.p, m + 1) && s.p.version == q.version
  {
    hide Sum, Ctoh, OrNibble;
    var r := StepChar(q, c).p;
    if q.low {
      ProcessedGoesOn(q, c);
    }
    assert r.line[..q.Count() + 5] == q.line[..q.Count() + 5];
  }

  lemma {:induction false} DonePass(q: Parser, s: seq<Byte>, tail: seq<Byte>, m: nat) returns (r: Parser)
    requires Done(q, m) && m + |s| <= 511
    requires forall i :: 0 <= i < |s| ==> s[i] != CR && s[i] != LF && s[i] != COLON
    ensures Done(r, m + |s|) && r.version == q.version && PassAll(q, s + tail) == PassAll(r, tail)
    decreases |s|
  {
    hide StepChar, Sum, Pass, PassAll;
    if s == [] {
      r := q;
      assert s + tail == tail;
    } else {
      DoneStep(q, s[0], m);
      var rest := s[1..] + tail;
      assert s + tail == [s[0]] + rest;
      FirstOfTwo(q, s[0], rest);
      r := DonePass(StepChar(q, s[0]).p, s[1..], tail, m + 1);
    }
  }

  /** A sound record in the line, about to take effect. */
  ghost predicate Ready(d: Parser, v: U16, b: seq<Byte>) {
    && Sound(b) && d.Valid() && !d.load && !d.skip && d.version == v && d.processed && d.low
    && d.idx as int == b[0] as int + 5 && d.Count() == b[0] && d.line[3] == b[3] && d.line[4] == b[4]
    && d.line[5] == (if b[0] > 0 then b[5] else 0)
    && Sum(d.line[..d.Count() as int + 5]) % 0x100 == 0
  }

  /** The last byte that is declared: a wrong sum is refused, and a sound record takes effect. */
  lemma LastOfLine(p: Parser, b: seq<Byte>)
    requires p.Valid() && !p.load && !p.skip && Full(b)
    ensures var n := b[0] as int + 5;
      var q := IntelHex.Complete(Loading(p, b[..n], n).(low := true));
      && (WrongSum(b) ==> q.Exit? && q.status == ChecksumFail)
      && (Sound(b) ==> exists d: Parser :: Ready(d, p.version, b) && q == Dispatch(d))
  {
    hide Sum, Added, Dispatch;
    var n := b[0] as int + 5;
    var l := Loading(p, b[..n], n).(low := true);
    AddedIsSum(b[..n]);
    assert l.line[..n] == b[..n];
    if Sound(b) {
      var d := l.(processed := true, line := Swapped(l.line));
      SwapKeepsSum(l.line, n);
      assert Ready(d, p.version, b);
    }
  }

  /** A record that moves the address: its last digit is read once more, without effect. */
  lemma AddressTakesEffect(m: Parser, c: Byte, d: Parser, v: U16, b: seq<Byte>)
    requires m.Valid() && !m.load && Ready(d, v, b) && StepChar(m, c) == Dispatch(d) && (b[3] == 2 || b[3] == 4)
    ensures var r := Pass(m, c); !r.halt && r.p.version == v && Done(r.p, 2 * (b[0] as int + 5) + 2)
  {
    hide StepChar, Sum, Added;
    var s := Dispatch(d);
    AddressExit(m, c);
    DoneStep(s.p, c, 2 * (b[0] as int + 5) + 1);
  }

  /** A sound record takes effect: the file ends, the data are not for this board, or reading goes on. */
  lemma TakesEffect(m: Parser, c: Byte, d: Parser, v: U16, b: seq<Byte>)
    requires m.Valid() && !m.load && Ready(d, v, b) && StepChar(m, c) == Dispatch(d)
    ensures var r := Pass(m, c);
      if EndOfFile(b) then r.halt && r.status == Eof
      else if Foreign(b, v) then r.halt && r.status == Ok
      else !r.halt && r.p.version == VersionAfter(v, b) && Done(r.p, 2 * (b[0] as int + 5) + 2)
  {
    hide StepChar, Sum, Added, At, Wrap, Upper;
    if b[3] == 2 || b[3] == 4 {
      AddressTakesEffect(m, c, d, v, b);
    }
  }

  /** Whether the line ends the reading, and how. */
  function Ending(b: seq<Byte>): Status {
    if TooLong(b) then LineOverrun else if WrongSum(b) then ChecksumFail else if EndOfFile(b) then Eof else Ok
  }

  lemma TooLongStops(p: Parser, b: seq<Byte>, s: seq<Byte>, tail: seq<Byte>)
    requires p.Valid() && !p.load && !p.skip && TooLong(b) && Writes(s, b)
    ensures PassAll(Loading(p, [], 0), s + tail).status == LineOverrun
  {
    hide StepChar, IsDigit, Value, Pass;
    var c, hi, lo := b[..1], s[0], s[1];
    WrittenByte(s, b, 0);
    TwoDigits(p, c, 0, hi, lo);
    var q := Loading(p, c, 0);
    assert q == Loading(p, [], 0);
    var rest := s[2..] + tail;
    assert s + tail == [hi] + ([lo] + rest);
    FirstOfTwo(q, hi, [lo] + rest);
    StopsAt(StepChar(q, hi).p, lo, rest);
  }

  /** A character on which the run halts. */
  lemma StopsAt(m: Parser, c: Byte, rest: seq<Byte>)
    requires m.Valid() && !m.load
    ensures Pass(m, c).halt ==> PassAll(m, [c] + rest).status == Pass(m, c).status
    ensures !Pass(m, c).halt ==> PassAll(m, [c] + rest).status == PassAll(Pass(m, c).p, rest).status
    ensures StepChar(m, c).Exit? && StepChar(m, c).status != Unaligned ==>
      Pass(m, c).halt && Pass(m, c).status == StepChar(m, c).status
  {
    hide StepChar;
    assert ([c] + rest)[1..] == rest;
  }

  /** The digits of a complete record up to the last one. */
  lemma FullLoads(p: Parser, b: seq<Byte>, s: seq<Byte>, tail: seq<Byte>) returns (m: Parser, lo: Byte)
    requires p.Valid() && !p.load && !p.skip && Full(b) && Writes(s, b)
    ensures var n := b[0] as int + 5;
      && 2 * n <= |s| && lo == s[2 * n - 1] && m.Valid() && !m.load
      && StepChar(m, lo) == IntelHex.Complete(Loading(p, b[..n], n).(low := true))
      && PassAll(Loading(p, [], 0), s + tail) == PassAll(m, [lo] + (s[2 * n..] + tail))
  {
    hide StepChar, IsDigit, Value, Pass, Loading, IntelHex.Complete;
    var n := b[0] as int + 5;
    var c, d, rest := b[..n], s[..2 * n], s[2 * n..] + tail;
    forall i | 0 <= i < n ensures IsDigit(d[2 * i]) && IsDigit(d[2 * i + 1])
                               && c[i] == Value(d[2 * i]) * 16 + Value(d[2 * i + 1]) {
      WrittenByte(s, b, i);
    }
    assert Writes(d, c);
    LoadLine(p, c, d, 0, n - 1, rest);
    LoadsNothing(p, c);
    assert s + tail == d[2 * 0..] + rest;
    var hi := d[2 * (n - 1)];
    lo := d[2 * (n - 1) + 1];
    TwoDigits(p, c, n - 1, hi, lo);
    assert d[2 * (n - 1)..] + rest == [hi] + ([lo] + rest);
    FirstOfTwo(Loading(p, c, n - 1), hi, [lo] + rest);
    m := StepChar(Loading(p, c, n - 1), hi).p;
  }

  lemma LoadsNothing(p: Parser, b: seq<Byte>)
    requires !p.load && |b| <= LINE_LEN
    ensures Loading(p, b, 0) == Loading(p, [], 0)
  {
  }

  lemma FullLine(p: Parser, b: seq<Byte>, s: seq<Byte>, tail: seq<Byte>) returns (q: Parser)
    requires p.Valid() && !p.load && !p.skip && Full(b) && |b| <= 254 && Writes(s, b)
    ensures var r := PassAll(Loading(p, [], 0), s + tail);
      if GoesOn(b, p.version) then
        && q.Valid() && !q.load && !q.skip && q.version == VersionAfter(p.version, b)
        && r.status == PassAll(q, tail).status
      else r.status == Ending(b)
  {
    hide StepChar, Writes, Pass, PassAll, Loading, IntelHex.Complete, Dispatch, Sum, VersionAfter;
    var n := b[0] as int + 5;
    var m, lo := FullLoads(p, b, s, tail);
    var rest := s[2 * n..];
    LastOfLine(p, b);
    StopsAt(m, lo, rest + tail);
    q := p;
    if Sound(b) {
      var d: Parser :| Ready(d, p.version, b) && StepChar(m, lo) == Dispatch(d);
      TakesEffect(m, lo, d, p.version, b);
      if GoesOn(b, p.version) {
        DigitsPlain(s, b);
        WritesLength(s, b);
        q := DonePass(Pass(m, lo).p, rest, tail, 2 * n + 2);
      }
    }
  }

  /** A line whose declared bytes are not all there has no effect. */
  lemma PartialLine(p: Parser, b: seq<Byte>, s: seq<Byte>, tail: seq<Byte>) returns (q: Parser)
    requires p.Valid() && !p.load && !p.skip && !Full(b) && !TooLong(b) && Writes(s, b)
    ensures q.Valid() && !q.load && !q.skip && q.version == p.version
    ensures PassAll(Loading(p, [], 0), s + tail) == PassAll(q, tail)
  {
    hide StepChar, Writes, Pass, PassAll, Loading;
    WritesLength(s, b);
    if b == [] {
      q := Loading(p, [], 0);
      assert s + tail == tail;
      LoadingKeeps(p, [], 0);
    } else {
      LoadLine(p, b, s, 0, |b|, tail);
      LoadsNothing(p, b);
      LoadingKeeps(p, b, |b|);
      assert s[2 * 0..] == s && s[2 * |b|..] == [];
      assert [] + tail == tail;
      q := Loading(p, b, |b|);
    }
  }

  /** What one line does, before anything that follows it. */
  lemma LinePass(p: Parser, b: seq<Byte>, s: seq<Byte>, tail: seq<Byte>) returns (q: Parser)
    requires p.Valid() && !p.load && !p.skip && |b| <= 254 && s != [] && s[0] == COLON && Writes(s[1..], b)
    ensures var r := PassAll(p, s + tail);
      if GoesOn(b, p.version) then
        && q.Valid() && !q.load && !q.skip && q.version == VersionAfter(p.version, b)
        && r.status == PassAll(q, tail).status
      else r.status == Ending(b)
  {
    hide StepChar, Writes, Pass, PassAll, Loading;
    StartsLine(p, []);
    assert s + tail == [COLON] + (s[1..] + tail);
    StopsAt(p, COLON, s[1..] + tail);
    if TooLong(b) {
      q := p;
      TooLongStops(p, b, s[1..], tail);
    } else if Full(b) {
      q := FullLine(p, b, s[1..], tail);
    } else {
      q := PartialLine(p, b, s[1..], tail);
    }
  }

  // ---- All lines ----

  /** Line i is the one on which reading ends, this way. */
  ghost predicate EndsAt(lines: seq<seq<Byte>>, i: nat, v: U16, status: Status) {
    && i < |lines| && Reached(lines, i, v)
    && !GoesOn(lines[i], VersionAt(lines, i, v)) && Ending(lines[i]) == status
  }

  ghost predicate EndsAs(lines: seq<seq<Byte>>, v: U16, status: Status) { exists i: nat :: EndsAt(lines, i, v, status) }

  lemma ReachedNext(lines: seq<seq<Byte>>, i: nat, v: U16)
    requires lines != []
    ensures Reached(lines, 0, v)
    ensures GoesOn(lines[0], v) ==> (Reached(lines[1..], i, VersionAfter(v, lines[0])) <==> Reached(lines, i + 1, v))
    ensures !GoesOn(lines[0], v) ==> !Reached(lines, i + 1, v)
  {
    hide GoesOn, VersionAfter;
    var rest, w := lines[1..], VersionAfter(v, lines[0]);
    assert VersionAt(lines, 0, v) == v;
    if GoesOn(lines[0], v) && Reached(rest, i, w) {
      forall j | 0 <= j < i + 1 ensures GoesOn(lines[j], VersionAt(lines, j, v)) {
        assert j > 0 ==> GoesOn(rest[j - 1], VersionAt(rest, j - 1, w));
      }
    }
    if GoesOn(lines[0], v) && Reached(lines, i + 1, v) {
      forall j | 0 <= j < i ensures GoesOn(rest[j], VersionAt(rest, j, w)) {
        assert GoesOn(lines[j + 1], VersionAt(lines, j + 1, v));
      }
    }
  }

  lemma {:induction false} LinesPass(p: Parser, lines: seq<seq<Byte>>, s: seq<Byte>)
    requires p.Valid() && !p.load && !p.skip && Lines(s, lines)
    ensures var r := PassAll(p, s).status;
      && (forall st :: st != Ok ==> (r == st <==> EndsAs(lines, p.version, st)))
    decreases |lines|
  {
    hide StepChar, Writes, Pass, PassAll, GoesOn, Ending, VersionAfter, Reached;
    var v := p.version;
    if lines == [] {
      PassNone(p);
    } else {
      var b, n := lines[0], 2 * |lines[0]| + 1;
      var q := LinePass(p, b, s[..n], s[n..]);
      assert s == s[..n] + s[n..] && s[..n][1..] == s[1..n];
      ReachedNext(lines, 0, v);
      if GoesOn(b, v) {
        LinesPass(q, lines[1..], s[n..]);
        EndsLater(lines, v);
      } else {
        EndsHere(lines, v);
      }
    }
  }

  lemma EndsLater(lines: seq<seq<Byte>>, v: U16)
    requires lines != [] && GoesOn(lines[0], v)
    ensures forall st :: EndsAs(lines, v, st) <==> EndsAs(lines[1..], VersionAfter(v, lines[0]), st)
  {
    hide GoesOn, Ending, VersionAfter, Reached;
    var rest, w := lines[1..], VersionAfter(v, lines[0]);
    forall st | EndsAs(lines, v, st) ensures EndsAs(rest, w, st) {
      var i: nat :| EndsAt(lines, i, v, st);
      ReachedNext(lines, i - 1, v);
      assert EndsAt(rest, i - 1, w, st);
    }
    forall st | EndsAs(rest, w, st) ensures EndsAs(lines, v, st) {
      var i: nat :| EndsAt(rest, i, w, st);
      ReachedNext(lines, i, v);
      assert EndsAt(lines, i + 1, v, st);
    }
  }

  lemma EndsHere(lines: seq<seq<Byte>>, v: U16)
    requires lines != [] && !GoesOn(lines[0], v)
    ensures forall st :: EndsAs(lines, v, st) <==> st == Ending(lines[0])
  {
    hide GoesOn, Ending, VersionAfter, Reached;
    ReachedNext(lines, 0, v);
    assert VersionAt(lines, 0, v) == v;
    forall st | EndsAs(lines, v, st) ensures st == Ending(lines[0]) {
      var i: nat :| EndsAt(lines, i, v, st);
      if i > 0 {
        ReachedNext(lines, i - 1, v);
      }
    }
    assert EndsAt(lines, 0, v, Ending(lines[0]));
  }

  lemma EndingIs(b: seq<Byte>, v: U16)
    ensures !GoesOn(b, v) && Ending(b) == ChecksumFail <==> WrongSum(b)
    ensures !GoesOn(b, v) && Ending(b) == LineOverrun <==> TooLong(b)
    ensures !GoesOn(b, v) && Ending(b) == Eof <==> EndOfFile(b)
  {
    hide Added;
  }

  lemma EndsAsIs(lines: seq<seq<Byte>>, v: U16)
    ensures EndsAs(lines, v, ChecksumFail) <==> exists i: nat :: Reached(lines, i, v) && WrongSum(lines[i])
    ensures EndsAs(lines, v, LineOverrun) <==> exists i: nat :: Reached(lines, i, v) && TooLong(lines[i])
    ensures EndsAs(lines, v, Eof) <==> exists i: nat :: Reached(lines, i, v) && EndOfFile(lines[i])
  {
    hide GoesOn, Ending, WrongSum, TooLong, EndOfFile;
    forall i: nat | i < |lines| && Reached(lines, i, v)
      ensures EndsAt(lines, i, v, ChecksumFail) <==> WrongSum(lines[i])
      ensures EndsAt(lines, i, v, LineOverrun) <==> TooLong(lines[i])
      ensures EndsAt(lines, i, v, Eof) <==> EndOfFile(lines[i])
    {
      EndingIs(lines[i], VersionAt(lines, i, v));
    }
  }

  /** Reading fails exactly at the first line that ends it and is over-long or has a wrong sum, and it ends as it should
      exactly when that line is a sound EOF record; the data of another board end it as well. */
  lemma FailsIff(text: seq<Byte>, lines: seq<seq<Byte>>)
    requires Lines(Strip(text), lines)
    ensures var status := Feed(FRESH, text).status;
      && (status == ChecksumFail <==> exists i: nat :: Reached(lines, i, 0) && WrongSum(lines[i]))
      && (status == LineOverrun <==> exists i: nat :: Reached(lines, i, 0) && TooLong(lines[i]))
      && (status == Eof <==> exists i: nat :: Reached(lines, i, 0) && EndOfFile(lines[i]))
  {
    hide PassAll, Feed, Lines, Full, Sound, Foreign, Reached;
    FeedIsWhole(FRESH, text);
    LineEndsIgnored(FRESH, text);
    assert PendingCells(FRESH) == [];
    PrependTwice(PassAll(FRESH, text), [], []);
    LinesPass(FRESH, lines, Strip(text));
    EndsAsIs(lines, 0);
  }

  lemma CorruptFails(text: seq<Byte>)
    requires Corrupt(text)
    ensures Failed(Feed(FRESH, text).status)
  {
    hide Feed, Lines, Strip, WrongSum, TooLong;
    var lines: seq<seq<Byte>>, i: nat :| Lines(Strip(text), lines) && BadAt(lines, i);
    FailsIff(text, lines);
  }

  predicate SetsBoard(b: seq<Byte>) { Sound(b) && b[3] == 10 }

  /** A file in which no board version is set is read up to its first EOF record or its first bad record. */
  lemma PlainReached(lines: seq<seq<Byte>>, i: nat)
    requires i < |lines| && forall j :: 0 <= j < i ==> !SetsBoard(lines[j])
    ensures Reached(lines, i, 0) <==>
            forall j :: 0 <= j < i ==> !TooLong(lines[j]) && !WrongSum(lines[j]) && !EndOfFile(lines[j])
  {
    hide Sound, WrongSum, TooLong;
    forall j | 0 <= j < i ensures VersionAt(lines, j, 0) == 0 {
      NoVersion(lines, j);
    }
  }

  lemma {:induction false} NoVersion(lines: seq<seq<Byte>>, i: nat)
    requires i <= |lines| && forall j :: 0 <= j < i ==> !SetsBoard(lines[j])
    ensures VersionAt(lines, i, 0) == 0
    decreases i
  {
    if i > 0 {
      assert !SetsBoard(lines[0]);
      forall j | 0 <= j < i - 1 ensures !SetsBoard(lines[1..][j]) {
        assert lines[1..][j] == lines[j + 1];
      }
      NoVersion(lines[1..], i - 1);
    }
  }

  /** The characters of a text. */
  function Ascii(s: string): seq<Byte> { seq(|s|, i requires 0 <= i < |s| => s[i] as int % 0x100) }

  /** The first byte of a text of digits, and the others. */
  lemma WritesOne(s: seq<Byte>, b: seq<Byte>)
    requires |s| >= 2 && b != [] && IsDigit(s[0]) && IsDigit(s[1]) && b[0] == Value(s[0]) * 16 + Value(s[1])
    requires Writes(s[2..], b[1..])
    ensures Writes(s, b)
  {
    hide IsDigit, Value;
    forall i | 0 < i < |b|
      ensures IsDigit(s[2 * i]) && IsDigit(s[2 * i + 1]) && b[i] == Value(s[2 * i]) * 16 + Value(s[2 * i + 1])
    {
      WrittenByte(s[2..], b[1..], i - 1);
    }
  }

  lemma ThreeBytes(s: seq<Byte>, sum: Byte)
    requires s == Ascii(if sum == 0xAA then "0055AA" else "0055AB") && sum in {0xAA, 0xAB}
    ensures Writes(s, [0, 0x55, sum])
  {
    hide Writes;
    var b: seq<Byte> := [0, 0x55, sum];
    WritesNone();
    assert s[6..] == [] && b[3..] == [];
    WritesOne(s[4..], b[2..]);
    WritesOne(s[2..], b[1..]);
    WritesOne(s, b);
  }

  lemma SixBytes(s: seq<Byte>, sum: Byte)
    requires s == Ascii(if sum == 0xAA then "0100000055AA" else "0100000055AB") && sum in {0xAA, 0xAB}
    ensures Writes(s, [1, 0, 0, 0, 0x55, sum])
  {
    hide Writes;
    var b: seq<Byte> := [1, 0, 0, 0, 0x55, sum];
    ThreeBytes(s[6..], sum);
    assert b[3..] == [0, 0x55, sum] && s[2..][2..] == s[4..] && s[4..][2..] == s[6..] && b[1..][1..] == b[2..];
    WritesOne(s[4..], b[2..]);
    WritesOne(s[2..], b[1..]);
    WritesOne(s, b);
  }

  lemma FiveBytes(s: seq<Byte>)
    requires s == Ascii("00000001FF")
    ensures Writes(s, [0, 0, 0, 1, 0xFF])
  {
    hide Writes;
    var b: seq<Byte> := [0, 0, 0, 1, 0xFF];
    WritesNone();
    assert s[10..] == [] && b[5..] == [];
    WritesOne(s[8..], b[4..]);
    WritesOne(s[6..], b[3..]);
    WritesOne(s[4..], b[2..]);
    WritesOne(s[2..], b[1..]);
    WritesOne(s, b);
  }

  lemma WritesNone()
    ensures Writes([], [])
  {
  }

  lemma AddedFive(b: seq<Byte>)
    requires |b| == 5
    ensures Added(b) == b[0] as int + b[1] as int + b[2] as int + b[3] as int + b[4] as int
  {
    hide Added;
    assert b[1..][1..] == b[2..] && b[2..][1..] == b[3..] && b[3..][1..] == b[4..] && b[4..][1..] == [];
    AddedFirst(b);
    AddedFirst(b[1..]);
    AddedFirst(b[2..]);
    AddedFirst(b[3..]);
    AddedFirst(b[4..]);
    AddedNone();
  }

  lemma TwoLines(s: seq<Byte>, a: seq<Byte>, b: seq<Byte>)
    requires |a| <= 254 && |b| <= 254 && |s| == 2 * (|a| + |b|) + 2
    requires var n := 2 * |a| + 1; s[0] == COLON && s[n] == COLON && Writes(s[1..n], a) && Writes(s[n + 1..], b)
    ensures Lines(s, [a, b])
  {
    hide Writes;
    var n := 2 * |a| + 1;
    var t := s[n..];
    assert t[1..2 * |b| + 1] == s[n + 1..] && t[2 * |b| + 1..] == [];
    assert [b][1..] == [] && [a, b][1..] == [b];
    assert Lines(t, [b]);
  }

  /** A data record of the byte 0x55 and an EOF record, with the right checksum and with one that is one more. */
  lemma OneDigitOff(text: seq<Byte>, ok: bool)
    requires text == Ascii(":") + Ascii(if ok then "0100000055AA" else "0100000055AB") + Ascii(":") + Ascii("00000001FF")
    ensures Feed(FRESH, text).status == if ok then Eof else ChecksumFail
  {
    hide Feed, Strip, Lines, Writes, Added;
    var a, b := [1, 0, 0, 0, 0x55, if ok then 0xAA else 0xAB], [0, 0, 0, 1, 0xFF];
    StripPlain(text, []);
    StripNone();
    assert text + [] == text;
    var first := Ascii(if ok then "0100000055AA" else "0100000055AB");
    assert text[1..13] == first && text[14..] == Ascii("00000001FF");
    assert text[0] == COLON && text[13] == COLON;
    SixBytes(first, a[5]);
    FiveBytes(text[14..]);
    TwoLines(text, a, b);
    FailsIff(text, [a, b]);
    AddedFive(b);
    AddedFive(a[1..]);
    AddedFirst(a);
    assert a[..6] == a && b[..5] == b;
    assert Reached([a, b], 0, 0);
    if ok {
      assert GoesOn(a, VersionAt([a, b], 0, 0));
      assert Reached([a, b], 1, 0) && EndOfFile([a, b][1]);
    } else {
      assert WrongSum([a, b][0]);
    }
  }

  lemma AddedFirst(b: seq<Byte>)
    requires b != []
    ensures Added(b) == b[0] as int + Added(b[1..])
  {
  }

  lemma AddedNone()
    ensures Added([]) == 0
  {
  }

  lemma StripNone()
    ensures Strip([]) == []
  {
  }
}
