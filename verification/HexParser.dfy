/** The parser as the program runs it: static variables, a line buffer and an output buffer updated in place. */
module HexParser {
  import opened Bytes
  import opened IntelHex
  import opened HexStream

  /** memset(buf + from, value, buf.Length - from) */
  method Memset(buf: array<Byte>, from: nat, value: Byte)
    requires from <= buf.Length
    modifies buf
    ensures buf[..from] == old(buf[..from])
    ensures forall k :: from <= k < buf.Length ==> buf[k] == value
  {
    for i := from to buf.Length
      invariant buf[..from] == old(buf[..from])
      invariant forall k :: from <= k < i ==> buf[k] == value
    {
      buf[i] := value;
    }
  }

  class HexParser {
    const line: array<Byte>
    var next: U32
    var low: bool
    var idx: Byte
    var processed: bool
    var load: bool
    var version: U16
    var skip: bool

    ghost function State(): Parser
      reads this, line
    {
      Parser(line[..], next, low, idx, processed, load, version, skip)
    }

    ghost predicate Valid()
      reads this, line
    {
      line.Length == LINE_LEN && State().Valid()
    }

    constructor ()
      ensures Valid() && State() == FRESH && fresh(line)
    {
      var l := new Byte[LINE_LEN](_ => 0);
      line := l;
      next, low, idx, processed, load, version, skip := 0, false, 0, false, false, 0, false;
    }

    method Reset()
      requires Valid()
      modifies this, line
      ensures Valid() && State() == FRESH
    {
      Memset(line, 0, 0);
      next, low, idx, processed, load, version, skip := 0, false, 0, false, false, 0, false;
    }

    /** The eight-bit sum over the whole record is zero. */
    method ValidateChecksum() returns (ok: bool)
      requires Valid() && line[0] <= DATA_LEN
      ensures ok <==> Sum(line[..line[0] + 5]) % 0x100 == 0
    {
      var result: Byte := 0;
      for i := 0 to line[0] as int + 5
        invariant result == Sum(line[..i]) % 0x100
      {
        SumPrefix(line[..], i);
        assert line[..][..i + 1] == line[..i + 1] && line[..][..i] == line[..i];
        result := (result as int + line[i] as int) % 0x100;
      }
      ok := result == 0;
    }

    /** The bytes of the address are swapped in place, once. */
    method SwapAddress()
      requires Valid()
      modifies this`processed, line
      ensures Valid() && State() == old(State()).(processed := true, line := Swapped(old(State()).line))
      ensures line[0] == old(line[0])
    {
      processed := true;
      line[1], line[2] := line[2], line[1];
      assert line[..] == Swapped(old(line[..]));
    }

    /** A complete and not yet processed record takes effect. `emit` bytes of the line go to the output. */
    method Process() returns (exit: bool, status: Status, taken: bool, mark: U32, emit: nat)
      requires Valid() && !load && !processed && line[0] <= DATA_LEN
      modifies this, line
      ensures Valid() && emit <= DATA_LEN
      ensures var p := old(State());
        Dispatch(p.(processed := true, line := Swapped(p.line)))
        == if exit then Exit(State(), status, taken, mark) else Go(State(), line[4..4 + emit])
    {
      hide Wrap, Upper, Sum;
      exit, status, taken, mark, emit := false, Ok, false, next, 0;
      SwapAddress();
      var address := Word(line[2], line[1]);
      match line[3] {
        case 0x0A =>
          version := Word(line[4], line[5]);
        case 1 =>
          exit, status := true, Eof;
        case 2 =>
          next := Word(line[4], line[5]) as int * 0x10;
          exit, status := true, Unaligned;
        case 4 =>
          next := Word(line[4], line[5]) as int * 0x1_0000;
          exit, status := true, Unaligned;
        case t =>
          if t == 0 || t == 0x0D {
            if version != 0 {
              skip := true;
              exit := true;
            } else if Upper(next) + address != next {
              load := true;
              exit, status, taken := true, Unaligned, true;
            } else {
              load := false;
              emit := line[0];
              next := Wrap(Upper(next) + address + line[0] as int);
            }
          }
      }
      if !exit {
        low := false;
      }
    }

    /** A byte of the line is complete. */
    method ByteDone() returns (exit: bool, status: Status, taken: bool, mark: U32, emit: nat)
      requires Valid() && !load
      modifies this, line
      ensures Valid() && emit <= DATA_LEN
      ensures Complete(old(State()))
           == if exit then Exit(State(), status, taken, mark) else Go(State(), line[4..4 + emit])
    {
      hide Dispatch, Sum;
      exit, status, taken, mark, emit := false, Ok, false, next, 0;
      if line[0] > DATA_LEN {
        exit, status := true, LineOverrun;
      } else if idx < line[0] + 5 {
        low := false;
      } else {
        var ok := ValidateChecksum();
        assert State().line[..line[0] + 5] == line[..line[0] + 5];
        if !ok {
          exit, status := true, ChecksumFail;
        } else if processed {
          low := false;
        } else {
          exit, status, taken, mark, emit := Process();
        }
      }
    }

    /** A colon starts a line. */
    method StartLine()
      requires Valid() && !load
      modifies this, line
      ensures Valid() && State() == old(State()).(line := Zeros(LINE_LEN), low := false, idx := 0, processed := false)
    {
      Memset(line, 0, 0);
      low, idx, processed := false, 0, false;
      assert line[..] == Zeros(LINE_LEN);
    }

    /** The first nibble of a byte. */
    method HighNibble(c: Byte)
      requires Valid() && !load
      modifies this, line
      ensures Valid() && State() == old(State()).(line := Put(old(State()), Ctoh(c) * 0x10 % 0x100), low := true)
    {
      hide Ctoh;
      if idx < LINE_LEN {
        line[idx] := Ctoh(c) * 0x10 % 0x100;
      }
      assert line[..] == Put(old(State()), Ctoh(c) * 0x10 % 0x100);
      low := true;
    }

    /** The second nibble. */
    method LowNibble(c: Byte)
      requires Valid() && !load
      modifies this, line
      ensures Valid() && !load && State() == Latch(old(State()), c)
    {
      hide Ctoh, OrNibble;
      if idx < LINE_LEN {
        line[idx] := OrNibble(line[idx], Ctoh(c) % 0x10);
      }
      idx := (idx + 1) % 0x100;
      assert State() == Latch(old(State()), c);
    }

    /** One character of the switch, on the static variables. */
    method Char(c: Byte) returns (exit: bool, status: Status, taken: bool, mark: U32, emit: nat)
      requires Valid() && !load
      modifies this, line
      ensures Valid() && emit <= DATA_LEN
      ensures StepChar(old(State()), c)
           == if exit then Exit(State(), status, taken, mark) else Go(State(), line[4..4 + emit])
    {
      hide Complete, Latch, Put, Ctoh, Zeros;
      exit, status, taken, mark, emit := false, Ok, false, next, 0;
      if c == CR || c == LF {
      } else if c == COLON {
        StartLine();
      } else if !low {
        HighNibble(c);
      } else {
        LowNibble(c);
        exit, status, taken, mark, emit := ByteDone();
      }
    }

    /** memcpy(bin + at, line.data, n) */
    method CopyData(bin: array<Byte>, at: nat, n: nat)
      requires Valid() && bin != line && n <= DATA_LEN && at + n <= bin.Length
      modifies bin
      ensures bin[..at + n] == old(bin[..at]) + line[4..4 + n]
    {
      forall k | 0 <= k < n {
        bin[at + k] := line[4 + k];
      }
    }

    /** The loop over the characters, delivering behind the bytes that are already in the buffer. */
    method ScanChars(blob: seq<Byte>, bin: array<Byte>, start: nat)
      returns (status: Status, parsed: nat, mark: U32, cnt: nat)
      requires Valid() && !load && bin != line
      requires start + |Scan(State(), blob).out| <= bin.Length
      modifies this, line, bin
      ensures Valid() && start <= cnt <= bin.Length
      ensures Joins(Scan(old(State()), blob), Call(State(), status, parsed, [], mark), 0, bin[..cnt], old(bin[..start]))
    {
      hide StepChar, Scan;
      ghost var r, first := Scan(State(), blob), bin[..start];
      var exit := false;
      status, parsed, mark, cnt := Ok, 0, next, start;
      assert blob[0..] == blob && first + r.out == bin[..cnt] + r.out;
      while parsed < |blob| && !exit
        invariant Valid() && start <= cnt <= bin.Length && parsed <= |blob|
        invariant !exit ==> !load && Joins(r, Scan(State(), blob[parsed..]), parsed, bin[..cnt], first)
        invariant exit ==> Joins(r, Call(State(), status, parsed, [], mark), 0, bin[..cnt], first)
        decreases |blob| - parsed, !exit
      {
        ghost var p, rest, before := State(), blob[parsed..], bin[..cnt];
        StepShape(p, rest[0]);
        var taken, emit;
        exit, status, taken, mark, emit := Char(blob[parsed]);
        assert rest[1..] == blob[parsed + 1..];
        if exit {
          assert before == bin[..cnt];
          JoinsExit(r, p, rest, parsed, before, first);
          if taken {
            parsed := parsed + 1;
          }
        } else {
          JoinsGo(r, p, rest, parsed, before, first);
          CopyData(bin, cnt, emit);
          cnt, parsed := cnt + emit, parsed + 1;
        }
      }
      if !exit {
        status, mark := Ok, next;
        assert blob[parsed..] == [] && bin[..cnt] + [] == bin[..cnt];
        ScanNone(State());
      }
    }

    /** parse_hex_blob. The output buffer must hold half the characters read since the parser was reset. */
    method Parse(blob: seq<Byte>, bin: array<Byte>) returns (status: Status, parsed: nat, addr: U32, cnt: nat)
      requires Valid() && (skip ==> |blob| > 0)
      requires bin != line && Held(State()) + 2 * |Pending(State())| + |blob| <= 2 * bin.Length
      modifies this, line, bin
      ensures Valid()
      ensures var r := ParseBlob(old(State()), blob);
        && State() == r.p && status == r.status && parsed == r.parsed
        && cnt == |r.out| <= bin.Length && bin[..cnt] == r.out && addr == r.Addr()
      ensures forall k :: cnt <= k < bin.Length ==> bin[k] == 0xFF
    {
      hide Scan, Wrap, Held;
      ghost var p0, r := State(), ParseBlob(State(), blob);
      var mark: U32 := next;
      status, parsed, cnt := Ok, 0, 0;
      if skip && blob[0] != COLON {
        assert r.out == bin[..0];
      } else {
        skip := false;
        if load {
          load := false;
          CopyData(bin, 0, line[0]);
          cnt := line[0];
          next := Wrap(Upper(next) + Word(line[2], line[1]) + line[0] as int);
        }
        ghost var p1 := Resume(p0.(skip := false));
        assert State() == p1 && bin[..cnt] == Pending(p0);
        ScanBudget(p1, blob);
        assert Held(p1) == Held(p0) by { HeldOf(p0); }
        ghost var first := bin[..cnt];
        status, parsed, mark, cnt := ScanChars(blob, bin, cnt);
        assert bin[..cnt] + [] == bin[..cnt];
      }
      Memset(bin, cnt, 0xFF);
      addr := Wrap(mark - cnt);
    }
  }

  lemma ScanNone(p: Parser)
    requires p.Valid() && !p.load
    ensures Scan(p, []) == Call(p, Ok, 0, [], p.next)
  {
  }

  lemma HeldOf(p: Parser)
    requires p.Valid()
    ensures Held(Resume(p.(skip := false))) == Held(p)
  {
  }

  /** r is what t delivers after n characters that turned the bytes `first` into `b`. */
  ghost predicate Joins(r: Call, t: Call, n: nat, b: seq<Byte>, first: seq<Byte>) {
    r.p == t.p && r.status == t.status && r.parsed == n + t.parsed && r.mark == t.mark && first + r.out == b + t.out
  }

  lemma JoinsExit(r: Call, p: Parser, rest: seq<Byte>, n: nat, b: seq<Byte>, first: seq<Byte>)
    requires p.Valid() && !p.load && rest != [] && Joins(r, Scan(p, rest), n, b, first)
    requires StepChar(p, rest[0]).Exit?
    ensures var s := StepChar(p, rest[0]);
      Joins(r, Call(s.p, s.status, n + if s.taken then 1 else 0, [], s.mark), 0, b, first)
  {
    hide StepChar;
  }

  lemma JoinsGo(r: Call, p: Parser, rest: seq<Byte>, n: nat, b: seq<Byte>, first: seq<Byte>)
    requires p.Valid() && !p.load && rest != [] && Joins(r, Scan(p, rest), n, b, first)
    requires StepChar(p, rest[0]).Go? && !StepChar(p, rest[0]).p.load
    ensures var s := StepChar(p, rest[0]);
      && Joins(r, Scan(s.p, rest[1..]), n + 1, b + s.out, first)
      && |b| + |s.out| <= |first| + |r.out|
  {
    hide StepChar;
    var s := StepChar(p, rest[0]);
    assert b + (s.out + Scan(s.p, rest[1..]).out) == (b + s.out) + Scan(s.p, rest[1..]).out;
  }
}
