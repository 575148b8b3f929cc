/** The meaning of a run of the parser as a stream of (address, byte) cells, whatever the calls it is cut into. */
module HexStream {
  import opened Bytes
  import opened IntelHex

  datatype Cell = Cell(addr: U32, value: Byte)

  datatype Chunk = Chunk(addr: U32, bytes: seq<Byte>)

  /** Consecutive cells from address a on, modulo 2^32. */
  function At(a: int, d: seq<Byte>): (c: seq<Cell>)
    ensures |c| == |d|
  {
    seq(|d|, i requires 0 <= i < |d| => Cell(Wrap(a + i), d[i]))
  }

  function Cells(chunks: seq<Chunk>): seq<Cell> {
    if chunks == [] then [] else At(chunks[0].addr, chunks[0].bytes) + Cells(chunks[1..])
  }

  /** What a run from a state over a text amounts to. A run halts before the end of the text on an EOF
      record, on an error, and at a Universal HEX block of another board. */
  datatype Run = Run(p: Parser, cells: seq<Cell>, halt: bool, status: Status)
  {
    function Prepend(c: seq<Cell>): Run { this.(cells := c + cells) }
  }

  /** One character together with the re-entry that an unaligned exit asks for. */
  function Pass(p: Parser, c: Byte): (r: Run)
    requires p.Valid() && !p.load
    ensures r.p.Valid() && (!r.halt ==> !r.p.load)
  {
    match StepChar(p, c)
    case Go(q, out) => Run(q.(load := false), At(q.next - |out|, out), false, Ok)
    case Exit(q, status, taken, _) =>
      if status != Unaligned then Run(q, [], true, status)
      else if taken then Run(Resume(q), At(Upper(q.next) + q.Address(), Pending(q)), false, Ok)
      else Run(StepChar(q.(load := false), c).p.(load := false), [], false, Ok)
  }

  function PassAll(p: Parser, s: seq<Byte>): (r: Run)
    requires p.Valid() && !p.load
    ensures r.p.Valid()
    ensures !r.halt ==> !r.p.load && r.status == Ok
    decreases |s|
  {
    if s == [] then Run(p, [], false, Ok)
    else
      var r := Pass(p, s[0]);
      if r.halt then r else PassAll(r.p, s[1..]).Prepend(r.cells)
  }

  // ---- Facts about single steps ----

  lemma SumPrefix(s: seq<Byte>, i: nat)
    requires i < |s|
    ensures Sum(s[..i + 1]) == Sum(s[..i]) + s[i]
  {
    assert s[..i + 1][..i] == s[..i];
  }

  lemma SumThree(s: seq<Byte>)
    requires |s| >= 3
    ensures Sum(s[..3]) == s[0] as int + s[1] as int + s[2] as int
  {
    hide Sum;
    SumNone(s);
    SumPrefix(s, 0);
    SumPrefix(s, 1);
    SumPrefix(s, 2);
  }

  lemma SumNone(s: seq<Byte>)
    ensures Sum(s[..0]) == 0
  {
  }

  lemma {:induction false} SwapKeepsSum(line: seq<Byte>, n: nat)
    requires 3 <= n <= |line| == LINE_LEN
    ensures Sum(Swapped(line)[..n]) == Sum(line[..n])
  {
    var t := Swapped(line);
    if n == 3 {
      assert Sum(t[..3]) == t[0] as int + t[1] as int + t[2] as int by {
        SumThree(t);
      }
      assert Sum(line[..3]) == line[0] as int + line[1] as int + line[2] as int by {
        SumThree(line);
      }
    } else {
      SwapKeepsSum(line, n - 1);
      assert t[..n][..n - 1] == t[..n - 1] && line[..n][..n - 1] == line[..n - 1];
    }
  }

  /** What a step may look like, seen from the state before it. */
  ghost predicate Shape(p: Parser, s: Step)
    requires s.p.Valid()
  {
    match s
    case Go(q, out) =>
      && !q.load && q.skip == p.skip
      && (out != [] ==> p.next == Upper(p.next) + q.Address())
      && q.next == Wrap(p.next + |out|)
    case Exit(q, status, taken, mark) =>
      && mark == p.next
      && (status == Unaligned ==> q.processed && q.skip == p.skip && q.load == taken)
      && (taken ==> status == Unaligned && q.next == p.next)
      && (status != Unaligned ==> !q.load)
      && (status == Ok ==> q.skip)
  }

  lemma DispatchShape(p: Parser, q: Parser)
    requires q.Valid() && q.Count() <= DATA_LEN && !q.load && q.processed && q.next == p.next && q.skip == p.skip
    ensures Shape(p, Dispatch(q))
  {
    hide Upper;
  }

  lemma StepShape(p: Parser, c: Byte)
    requires p.Valid() && !p.load
    ensures Shape(p, StepChar(p, c))
  {
    hide Dispatch, Sum, Upper, Ctoh, OrNibble;
    if p.low && Latch(p, c).Count() <= DATA_LEN {
      var q := Latch(p, c);
      DispatchShape(p, q.(processed := true, line := Swapped(q.line)));
    }
  }

  /** The line of an address record is complete, valid, and its bytes are swapped on the way out. */
  lemma AddressExit(p: Parser, c: Byte)
    requires p.Valid() && !p.load
    requires var s := StepChar(p, c); s.Exit? && s.status == Unaligned && !s.taken
    ensures c != CR && c != LF && c != COLON
    ensures var l, q := Latch(p, c), StepChar(p, c).p;
      && l.Count() <= DATA_LEN && l.Count() + 5 <= l.idx && Sum(l.line[..l.Count() + 5]) % 0x100 == 0
      && q.line == Swapped(l.line) && q.idx == l.idx && q.processed && q.low && !q.load
  {
    hide Sum, Ctoh, OrNibble, Put;
  }

  /** A complete and processed line takes one more nibble without effect. */
  lemma ProcessedGoesOn(q: Parser, c: Byte)
    requires q.Valid() && !q.load && q.low && q.processed && c != CR && c != LF && c != COLON
    requires q.Count() <= DATA_LEN && q.Count() + 5 <= q.idx && Sum(q.line[..q.Count() + 5]) % 0x100 == 0
    ensures StepChar(q, c) == Go(Latch(q, c).(low := false), [])
  {
    hide Sum, Ctoh, OrNibble, Dispatch;
    assert Latch(q, c).line[..q.Count() + 5] == q.line[..q.Count() + 5];
  }

  /** The last nibble of an address record is presented again to the next call, where it does nothing. */
  lemma RepresentedNibble(p: Parser, c: Byte)
    requires p.Valid() && !p.load
    requires var s := StepChar(p, c); s.Exit? && s.status == Unaligned && !s.taken
    ensures var q := StepChar(p, c).p;
      var s := StepChar(q, c);
      && s.Go? && s.out == [] && !s.p.load
      && s.p.next == q.next && s.p.skip == q.skip && s.p.version == q.version
  {
    hide StepChar, Sum, OrNibble;
    AddressExit(p, c);
    SwapKeepsSum(Latch(p, c).line, Latch(p, c).Count() + 5);
    ProcessedGoesOn(StepChar(p, c).p, c);
  }

  lemma AtSplit(a: int, d: seq<Byte>, e: seq<Byte>, b: int)
    requires Wrap(a + |d|) == Wrap(b)
    ensures At(a, d + e) == At(a, d) + At(b, e)
  {
    hide Wrap;
    forall i | 0 <= i < |d + e| ensures At(a, d + e)[i] == (At(a, d) + At(b, e))[i] {
      if i >= |d| {
        WrapShift(a + |d|, b, i - |d|);
      }
    }
  }

  lemma AtCongruent(a: int, b: int, d: seq<Byte>)
    requires Wrap(a) == Wrap(b)
    ensures At(a, d) == At(b, d)
  {
    AtSplit(a, [], d, b);
    assert [] + d == d && At(a, []) + At(b, d) == At(b, d);
  }

  // ---- One call ----

  /** The bytes of one call are consecutive and end at its mark. */
  lemma {:induction false} ScanMark(p: Parser, s: seq<Byte>)
    requires p.Valid() && !p.load
    ensures var r := Scan(p, s); r.mark == Wrap(p.next + |r.out|)
    decreases |s|
  {
    hide StepChar;
    if s != [] {
      StepShape(p, s[0]);
      var step := StepChar(p, s[0]);
      if step.Go? {
        ScanMark(step.p, s[1..]);
        WrapTwice(p.next + |step.out|, |Scan(step.p, s[1..]).out|);
      }
    }
  }

  function PendingCells(p: Parser): seq<Cell>
    requires p.Valid()
  {
    At(Upper(p.next) + (if p.load then p.Address() else 0), Pending(p))
  }

  /** A call from p over s that ended as r did what the whole run does over the characters it consumed;
      after an unaligned exit the rest of the run starts at the state left behind. */
  ghost predicate Delivers(p: Parser, s: seq<Byte>, r: Call)
    requires p.Valid() && !p.load && r.p.Valid() && r.parsed <= |s|
  {
    var here := At(p.next, r.out);
    if r.status == Unaligned then
      && r.p.processed && r.p.skip == p.skip
      && (r.p.load ==> r.parsed > 0)
      && PassAll(p, s) == PassAll(Resume(r.p), s[r.parsed..]).Prepend(here + PendingCells(r.p))
    else
      && !r.p.load
      && (r.status == Ok && !r.p.skip ==> r.parsed == |s|)
      && PassAll(p, s) == Run(r.p, here, r.status != Ok || r.p.skip, r.status)
  }

  lemma PrependTwice(r: Run, a: seq<Cell>, b: seq<Cell>)
    ensures r.Prepend([]) == r && r.Prepend(b).Prepend(a) == r.Prepend(a + b)
  {
    assert [] + r.cells == r.cells && a + (b + r.cells) == (a + b) + r.cells;
  }

  lemma Regroup(r: Run, a: seq<Cell>, b: seq<Cell>, c: seq<Cell>)
    ensures r.Prepend(b + c).Prepend(a) == r.Prepend((a + b) + c)
  {
    PrependTwice(r, a, b + c);
    assert a + (b + c) == (a + b) + c;
  }

  lemma ExitTaken(p: Parser, s: seq<Byte>)
    requires p.Valid() && !p.load && !p.skip && s != []
    requires StepChar(p, s[0]).Exit? && StepChar(p, s[0]).taken
    ensures Delivers(p, s, Scan(p, s))
  {
    hide StepChar, At, Resume;
    StepShape(p, s[0]);
    var q := StepChar(p, s[0]).p;
    var rest := PassAll(Resume(q), s[1..]);
    assert Scan(p, s) == Call(q, Unaligned, 1, [], p.next);
    assert PassAll(p, s) == rest.Prepend(PendingCells(q));
    assert At(p.next, []) + PendingCells(q) == PendingCells(q);
  }

  lemma ExitKept(p: Parser, s: seq<Byte>)
    requires p.Valid() && !p.load && !p.skip && s != []
    requires StepChar(p, s[0]).Exit? && !StepChar(p, s[0]).taken
    ensures Delivers(p, s, Scan(p, s))
  {
    hide StepChar, At;
    StepShape(p, s[0]);
    var q := StepChar(p, s[0]).p;
    if StepChar(p, s[0]).status == Unaligned {
      RepresentedNibble(p, s[0]);
      assert s[0..] == s;
      var rest := PassAll(StepChar(q, s[0]).p, s[1..]);
      PrependTwice(rest, [], []);
      assert At(p.next, []) + PendingCells(q) == [];
      assert q.(load := false) == q;
      assert PassAll(p, s) == rest == PassAll(q, s);
      PrependTwice(PassAll(q, s), [], []);
    }
  }

  lemma NextCongruent(a: int, k: int, b: U32)
    requires b == Wrap(a + k)
    ensures Wrap(a + k) == Wrap(b) && Wrap(a) == Wrap(b - k)
  {
    WrapTwice(a + k, 0);
    WrapTwice(a + k, -k);
  }

  lemma GoCells(p: Parser, c: Byte, q: Parser, out: seq<Byte>, e: seq<Byte>)
    requires p.Valid() && !p.load && StepChar(p, c) == Go(q, out)
    ensures !q.load
    ensures Pass(p, c) == Run(q, At(p.next, out), false, Ok)
    ensures At(p.next, out + e) == At(p.next, out) + At(q.next, e)
  {
    hide StepChar, At, Resume, Wrap;
    StepShape(p, c);
    NextCongruent(p.next, |out|, q.next);
    AtSplit(p.next, out, e, q.next);
    AtCongruent(p.next, q.next - |out|, out);
  }

  lemma GoUnrolls(p: Parser, s: seq<Byte>, q: Parser, out: seq<Byte>)
    requires p.Valid() && !p.load && s != [] && StepChar(p, s[0]) == Go(q, out)
    ensures !q.load
    ensures var t := Scan(q, s[1..]);
      && Scan(p, s) == Call(t.p, t.status, t.parsed + 1, out + t.out, t.mark)
      && PassAll(p, s) == PassAll(q, s[1..]).Prepend(At(p.next, out))
      && At(p.next, out + t.out) == At(p.next, out) + At(q.next, t.out)
  {
    hide StepChar, At, Pass;
    StepShape(p, s[0]);
    GoCells(p, s[0], q, out, Scan(q, s[1..]).out);
  }

  lemma GoOn(p: Parser, s: seq<Byte>, q: Parser, out: seq<Byte>)
    requires p.Valid() && !p.load && !p.skip && s != []
    requires StepChar(p, s[0]) == Go(q, out)
    requires !q.load && q.skip == p.skip && Delivers(q, s[1..], Scan(q, s[1..]))
    ensures Delivers(p, s, Scan(p, s))
  {
    hide StepChar, At, Resume, PendingCells, Scan, PassAll;
    var r, t := Scan(p, s), Scan(q, s[1..]);
    GoUnrolls(p, s, q, out);
    if t.status == Unaligned {
      var rest := PassAll(Resume(r.p), s[r.parsed..]);
      assert s[1..][t.parsed..] == s[r.parsed..];
      Regroup(rest, At(p.next, out), At(q.next, t.out), PendingCells(r.p));
    }
  }

  /** One call delivers the cells of the characters it consumed. */
  lemma {:induction false} ScanDelivers(p: Parser, s: seq<Byte>)
    requires p.Valid() && !p.load && !p.skip
    ensures Delivers(p, s, Scan(p, s))
    decreases |s|
  {
    hide StepChar, Resume, PendingCells;
    if s == [] {
    } else if StepChar(p, s[0]).Go? {
      StepShape(p, s[0]);
      ScanDelivers(StepChar(p, s[0]).p, s[1..]);
      GoOn(p, s, StepChar(p, s[0]).p, StepChar(p, s[0]).out);
    } else if StepChar(p, s[0]).taken {
      ExitTaken(p, s);
    } else {
      ExitKept(p, s);
    }
  }

  // ---- The driver loop ----

  /** A state in which a call cannot return on its first character. */
  predicate Settled(p: Parser) { p.processed || (p.idx == 0 && !p.low) }

  /** A call that asks to be resumed has consumed nothing exactly when its first character completes a record that moves
      the address; it leaves that record marked as processed, so that the next call consumes a character. */
  lemma {:induction false} Progress(p: Parser, s: seq<Byte>)
    requires p.Valid() && !p.load && Scan(p, s).status == Unaligned
    ensures s != []
    ensures Scan(p, s).parsed == 0 <==>
              StepChar(p, s[0]).Exit? && StepChar(p, s[0]).status == Unaligned && !StepChar(p, s[0]).taken
    ensures Scan(p, s).parsed == 0 ==> !Settled(p) && Scan(p, s).p.processed && Settled(Resume(Scan(p, s).p))
  {
    var step := StepChar(p, s[0]);
    if step.Exit? {
      assert step.status == Unaligned ==> !Settled(p) && step.p.processed;
    }
  }

  /** Line characters held by a record that is still being read. */
  function Held(p: Parser): nat { if p.processed then 0 else 2 * p.idx as int + if p.low then 1 else 0 }

  lemma DispatchBudget(q: Parser)
    requires q.Valid() && !q.load && q.processed && q.Count() <= DATA_LEN
    ensures var s := Dispatch(q);
      && s.p.processed
      && (if s.Go? then |s.out| + |Pending(s.p)| <= q.Count() else |Pending(s.p)| <= if s.taken then q.Count() as int else 0)
  {
  }

  predicate Failed(status: Status) { status == LineOverrun || status == ChecksumFail }

  lemma StepBudget(p: Parser, c: Byte)
    requires p.Valid() && !p.load
    ensures var s := StepChar(p, c);
      (s.Exit? && Failed(s.status)) ||
      Held(s.p) + 2 * |Pending(s.p)| + (if s.Go? then 2 * |s.out| else 0) <= Held(p) + (if s.Go? || s.taken then 1 else 0)
  {
    hide Complete, OrNibble, Ctoh, Zeros;
    if c != CR && c != LF && c != COLON && p.low {
      CompleteBudget(Latch(p, c));
    }
  }

  lemma CompleteBudget(q: Parser)
    requires q.Valid() && !q.load && q.low
    ensures var s := Complete(q);
      var was := if q.processed then 0 else 2 * q.idx as int;
      (s.Exit? && Failed(s.status)) ||
      Held(s.p) + 2 * |Pending(s.p)| + (if s.Go? then 2 * |s.out| else 0) <= if s.Go? || s.taken then was else 0
  {
    hide Dispatch, Sum;
    if q.Count() <= DATA_LEN && !q.processed {
      DispatchBudget(q.(processed := true, line := Swapped(q.line)));
    }
  }

  /** Every delivered byte has used up two characters since the parser was reset. */
  lemma {:induction false} ScanBudget(p: Parser, s: seq<Byte>)
    requires p.Valid() && !p.load
    ensures var r := Scan(p, s);
      (if Failed(r.status) then 0 else Held(r.p) + 2 * |Pending(r.p)|) + 2 * |r.out| <= Held(p) + r.parsed
    decreases |s|
  {
    hide StepChar, Held;
    if s != [] {
      StepShape(p, s[0]);
      StepBudget(p, s[0]);
      var step := StepChar(p, s[0]);
      if step.Go? {
        ScanBudget(step.p, s[1..]);
      }
    }
  }

  /** What is still to come from a state, a pending record included. */
  function Whole(p: Parser, s: seq<Byte>): (r: Run)
    requires p.Valid()
  {
    PassAll(Resume(p), s).Prepend(PendingCells(p))
  }

  lemma BlobAddress(p: Parser, s: seq<Byte>)
    requires p.Valid() && !p.skip
    ensures var r := ParseBlob(p, s);
      At(r.Addr(), r.out) == PendingCells(p) + At(Resume(p).next, Scan(Resume(p), s).out)
  {
    hide Scan, At, Wrap;
    var q := Resume(p);
    var n := if p.load then p.Count() as int else 0;
    var a := Upper(p.next) + if p.load then p.Address() else 0;
    var t := Scan(q, s);
    assert p.(skip := false) == p;
    ScanMark(q, s);
    if p.load {
      NextCongruent(a, n, q.next);
      AtSplit(a, p.Data(), t.out, q.next);
      AddrOfMark(a, n, q.next, |t.out|, t.mark);
      AtCongruent(a, ParseBlob(p, s).Addr(), p.Data() + t.out);
    } else {
      AddrOfMark(q.next, 0, q.next, |t.out|, t.mark);
      assert [] + t.out == t.out && At(a, []) + At(q.next, t.out) == At(q.next, t.out);
      AtCongruent(q.next, ParseBlob(p, s).Addr(), t.out);
    }
  }

  lemma AddrOfMark(a: int, n: int, next: U32, k: int, mark: U32)
    requires Wrap(a + n) == Wrap(next) && mark == Wrap(next + k)
    ensures Wrap(a) == Wrap(Wrap(mark - (n + k)))
  {
    WrapTwice(mark - (n + k), 0);
    WrapTwice(next + k, -(n + k));
    WrapShift(a + n, next, -n);
  }

  lemma BlobDelivers(p: Parser, s: seq<Byte>)
    requires p.Valid() && !p.skip
    ensures var r := ParseBlob(p, s);
      var here := At(r.Addr(), r.out);
      if r.status == Unaligned then
        && r.p.processed && !r.p.skip && (r.parsed > 0 || !Settled(p)) && (r.p.load ==> r.parsed > 0)
        && Whole(p, s) == Whole(r.p, s[r.parsed..]).Prepend(here)
      else
        && !r.p.load && (r.status == Ok && !r.p.skip ==> r.parsed == |s|)
        && Whole(p, s) == Run(r.p, here, r.status != Ok || r.p.skip, r.status)
  {
    hide Scan, At, PassAll, PendingCells;
    var q := Resume(p);
    assert p.(skip := false) == p;
    BlobAddress(p, s);
    ScanDelivers(q, s);
    var t := Scan(q, s);
    if t.status == Unaligned {
      if Settled(p) {
        Progress(q, s);
      }
      Regroup(PassAll(Resume(t.p), s[t.parsed..]), PendingCells(p), At(q.next, t.out), PendingCells(t.p));
      PrependTwice(PassAll(Resume(t.p), s[t.parsed..]), PendingCells(p) + At(q.next, t.out), PendingCells(t.p));
    }
  }

  /** What the calls of the driver loop deliver, one chunk per call, until a call does not end unaligned. */
  datatype Fed = Fed(p: Parser, chunks: seq<Chunk>, status: Status)

  function Feed(p: Parser, s: seq<Byte>): (f: Fed)
    requires p.Valid() && !p.skip
    ensures f.p.Valid() && !f.p.load && f.status != Unaligned
    decreases |s|, if p.processed then 0 else 1
  {
    var r := ParseBlob(p, s);
    BlobDelivers(p, s);
    if r.status != Unaligned then Fed(r.p, [Chunk(r.Addr(), r.out)], r.status)
    else
      var f := Feed(r.p, s[r.parsed..]);
      Fed(f.p, [Chunk(r.Addr(), r.out)] + f.chunks, f.status)
  }

  /** The resumed calls deliver exactly the stream of the whole text. */
  lemma {:induction false} FeedIsWhole(p: Parser, s: seq<Byte>)
    requires p.Valid() && !p.skip
    ensures var f := Feed(p, s); Whole(p, s) == Run(f.p, Cells(f.chunks), f.status != Ok || f.p.skip, f.status)
    decreases |s|, if p.processed then 0 else 1
  {
    hide ParseBlob, At, Whole;
    BlobDelivers(p, s);
    var r := ParseBlob(p, s);
    var here := Chunk(r.Addr(), r.out);
    if r.status == Unaligned {
      FeedIsWhole(r.p, s[r.parsed..]);
      assert ([here] + Feed(r.p, s[r.parsed..]).chunks)[1..] == Feed(r.p, s[r.parsed..]).chunks;
    } else {
      assert Cells([here]) == At(here.addr, here.bytes) + Cells([]);
    }
  }

  // ---- Cutting the text ----

  lemma {:induction false} PassAllAppend(p: Parser, a: seq<Byte>, b: seq<Byte>)
    requires p.Valid() && !p.load
    ensures var r := PassAll(p, a);
      PassAll(p, a + b) == if r.halt then r else PassAll(r.p, b).Prepend(r.cells)
    decreases |a|
  {
    hide Pass;
    if a == [] {
      assert a + b == b;
      PrependTwice(PassAll(p, b), [], []);
    } else {
      var r := Pass(p, a[0]);
      assert (a + b)[0] == a[0] && (a + b)[1..] == a[1..] + b;
      if !r.halt {
        PassAllAppend(r.p, a[1..], b);
        var t := PassAll(r.p, a[1..]);
        if !t.halt {
          PrependTwice(PassAll(t.p, b), r.cells, t.cells);
        }
      }
    }
  }

  /** The driver loop over one piece of text after another, as long as the pieces end without a halt. */
  function FeedPieces(p: Parser, pieces: seq<seq<Byte>>): (f: Fed)
    requires p.Valid() && !p.skip && !p.load
    ensures f.p.Valid()
    decreases |pieces|
  {
    if pieces == [] then Fed(p, [], Ok)
    else
      var f := Feed(p, pieces[0]);
      if f.status != Ok || f.p.skip then f
      else
        var g := FeedPieces(f.p, pieces[1..]);
        Fed(g.p, f.chunks + g.chunks, g.status)
  }

  function Join(pieces: seq<seq<Byte>>): seq<Byte> {
    if pieces == [] then [] else pieces[0] + Join(pieces[1..])
  }

  lemma {:induction false} CellsAppend(a: seq<Chunk>, b: seq<Chunk>)
    ensures Cells(a + b) == Cells(a) + Cells(b)
  {
    hide At;
    if a == [] {
      assert a + b == b;
    } else {
      CellsAppend(a[1..], b);
      assert (a + b)[1..] == a[1..] + b;
    }
  }

  /** Cutting the text at any characters, nibbles included, changes neither the stream nor the final state. */
  lemma {:induction false} CutIndependence(p: Parser, pieces: seq<seq<Byte>>)
    requires p.Valid() && !p.skip && !p.load
    ensures var f, g := FeedPieces(p, pieces), Feed(p, Join(pieces));
      f.p == g.p && f.status == g.status && Cells(f.chunks) == Cells(g.chunks)
    decreases |pieces|
  {
    hide At, PassAll, Feed;
    var text := Join(pieces);
    FeedIsWhole(p, text);
    assert PendingCells(p) == [];
    PrependTwice(PassAll(p, text), [], []);
    if pieces != [] {
      var f := Feed(p, pieces[0]);
      FeedIsWhole(p, pieces[0]);
      PrependTwice(PassAll(p, pieces[0]), [], []);
      PassAllAppend(p, pieces[0], Join(pieces[1..]));
      if f.status == Ok && !f.p.skip {
        CutIndependence(f.p, pieces[1..]);
        FeedIsWhole(f.p, Join(pieces[1..]));
        assert PendingCells(f.p) == [];
        PrependTwice(PassAll(f.p, Join(pieces[1..])), [], []);
        CellsAppend(f.chunks, FeedPieces(f.p, pieces[1..]).chunks);
      }
    } else {
      EmptyText(p);
    }
  }

  lemma EmptyText(p: Parser)
    requires p.Valid() && !p.skip && !p.load
    ensures Feed(p, []).p == p && Feed(p, []).status == Ok && Cells(Feed(p, []).chunks) == []
  {
    assert ParseBlob(p, []).p == p;
    FeedIsWhole(p, []);
  }
}
