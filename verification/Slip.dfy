/** Sending and receiving SLIP frames over a serial port, with one transmit and one receive buffer. */
module Slip {
  import opened Bytes
  import opened Serial
  import opened SlipSpec

  datatype Outcome = Payload(p: seq<Byte>) | Fail(code: int)

  function ReadDecode(ev: seq<RxEvent>, room: nat, rxLen: nat): Rx {
    var s := Received(ev);
    Decode(Skip, [], s[..Least(|s|, rxLen)], room)
  }

  /** The result of slip_read: the receiver over the bytes that arrive, as far as the receive buffer reaches. */
  function ReadResult(ev: seq<RxEvent>, room: nat, rxLen: nat): Outcome {
    match ReadDecode(ev, room, rxLen)
    case Frame(p, _) => Payload(p)
    case NoRoom(_) => Fail(-ENOMEM)
    case BadEscape(_) => Fail(-EINVAL)
    case More(_, _) => Fail(if |Received(ev)| >= rxLen then -ENOMEM else Stop(ev))
  }

  /** The end of the read that brings byte k. */
  function ReadEnd(ev: seq<RxEvent>, k: nat, rxLen: nat): nat
    requires Good(ev)
    decreases |ev|
  {
    if k == 0 || ev == [] || ev[0].Failure? then 0
    else
      var n := NextRead(ev, rxLen);
      if k <= n || n == rxLen then n else n + ReadEnd(ev[1..], k - n, rxLen - n)
  }

  lemma StartsEmpty(ev: seq<RxEvent>, room: nat)
    ensures After(ev, 0) == ev && Decode(Skip, [], [], room) == More(Skip, [])
  {
  }

  /** Reads in sequence end at t. */
  ghost predicate ReadsTo(ev: seq<RxEvent>, t: nat, rxLen: nat)
    requires Good(ev)
  {
    && t <= |Received(ev)| && t <= rxLen && Good(After(ev, t))
    && forall k :: k > t ==> ReadEnd(ev, k, rxLen) == t + ReadEnd(After(ev, t), k - t, rxLen - t)
  }

  lemma ReadsNone(ev: seq<RxEvent>, rxLen: nat)
    requires Good(ev)
    ensures ReadsTo(ev, 0, rxLen)
  {
    hide ReadEnd;
    StartsEmpty(ev, 0);
  }

  lemma ReadsOn(ev: seq<RxEvent>, t: nat, n: nat, rxLen: nat)
    requires Good(ev) && ReadsTo(ev, t, rxLen) && n > 0 && n == NextRead(After(ev, t), rxLen - t)
    requires t + n <= |Received(ev)|
    ensures ReadsTo(ev, t + n, rxLen)
    ensures forall k :: t < k <= t + n ==> ReadEnd(ev, k, rxLen) == t + n
  {
    var now := After(ev, t);
    AfterKeeps(ev, t + n);
    AfterAfter(ev, t, n);
    forall k | k > t + n
      ensures ReadEnd(ev, k, rxLen) == t + n + ReadEnd(After(ev, t + n), k - (t + n), rxLen - (t + n))
    {
      assert ReadEnd(ev, k, rxLen) == t + ReadEnd(now, k - t, rxLen - t);
      if n == rxLen - t {
      } else {
        assert After(now, n) == now[1..];
      }
    }
  }

  /** The receiver decides within the first part of its input. */
  lemma DecodePrefix(s: seq<Byte>, n: nat, m: nat, room: nat)
    requires n <= m <= |s| && !Decode(Skip, [], s[..n], room).More?
    ensures Decode(Skip, [], s[..m], room) == Decode(Skip, [], s[..n], room)
  {
    hide Decode;
    DecodeAppend(Skip, [], s[..n], s[n..m], room);
    assert s[..m] == s[..n] + s[n..m];
  }

  /** One read more: what it adds to the bytes and to the decision. */
  lemma ReadStep(ev: seq<RxEvent>, t: nat, n: nat, rxLen: nat, room: nat, st: State, out: seq<Byte>)
    requires Good(ev) && ReadsTo(ev, t, rxLen) && n > 0 && n == NextRead(After(ev, t), rxLen - t)
    requires t + n <= |Received(ev)| && Decode(Skip, [], Received(ev)[..t], room) == More(st, out)
    ensures var s := Received(ev);
      var d := Decode(st, out, s[t..][..n], room);
      && s[..t + n] == s[..t] + s[t..][..n]
      && After(After(ev, t), n) == After(ev, t + n)
      && ReadsTo(ev, t + n, rxLen)
      && Decode(Skip, [], s[..t + n], room) == Later(d, t)
      && (!d.More? ==> ReadDecode(ev, room, rxLen) == Later(d, t) && ReadEnd(ev, t + d.used, rxLen) == t + n)
  {
    hide Decode, Received, After;
    var s := Received(ev);
    var d := Decode(st, out, s[t..][..n], room);
    assert s[..t + n] == s[..t] + s[t..][..n];
    AfterAfter(ev, t, n);
    ReadsOn(ev, t, n, rxLen);
    DecodeAppend(Skip, [], s[..t], s[t..][..n], room);
    if !d.More? {
      DecodePrefix(s, t + n, Least(|s|, rxLen), room);
      DecodeUsed(st, out, s[t..][..n], room);
    }
  }

  /** What a read that has come to its end returns. */
  predicate Ended(d: Rx, r: int, buf: seq<Byte>, room: nat) {
    match d
    case Frame(p, _) => r == |p| <= room && p <= buf
    case NoRoom(_) => r == -ENOMEM
    case BadEscape(_) => r == -EINVAL
    case More(_, _) => false
  }

  lemma DecodeHead(state: State, out: seq<Byte>, s: seq<Byte>, room: nat)
    requires s != []
    ensures var t := Take(state, out, s[0], room);
      Decode(state, out, s, room) == if t.More? then Later(Decode(t.state, t.out, s[1..], room), 1) else t
  {
  }

  lemma DecodeNone(state: State, out: seq<Byte>, room: nat)
    ensures Decode(state, out, [], room) == More(state, out)
  {
  }

  class SlipDev {
    const port: Port
    const tx: array<Byte>
    const rx: array<Byte>
    var state: State

    constructor (port: Port, txLen: nat, rxLen: nat)
      ensures this.port == port && tx.Length == txLen && rx.Length == rxLen && fresh(tx) && fresh(rx)
      ensures tx != rx
    {
      this.port := port;
      tx := new Byte[txLen](_ => 0);
      rx := new Byte[rxLen](_ => 0);
      state := Skip;
    }

    /** One byte of the inner loop. `done` when the call returns, with result r. */
    method TakeByte(buf: array<Byte>, at: nat, b: Byte, room: nat) returns (done: bool, r: int, n: nat)
      requires at <= room <= buf.Length
      modifies this`state, buf
      ensures n <= room
      ensures var t := Take(old(state), old(buf[..at]), b, room);
        if done then Ended(t, r, buf[..], room) else t == More(state, buf[..n])
    {
      n, done, r := at, false, 0;
      ghost var out := buf[..n];
      match state {
        case Skip =>
          if b == END {
            state := Plain;
          }
        case Plain =>
          if b == ESC {
            state := Escaped;
          } else if b == END {
            return true, n, n;
          } else {
            if n + 1 > room {
              return true, -ENOMEM, n;
            }
            buf[n] := b;
            n := n + 1;
            assert buf[..n] == out + [b];
          }
        case Escaped =>
          if b == ESC_END || b == ESC_ESC {
            if n + 1 > room {
              return true, -ENOMEM, n;
            }
            var c := if b == ESC_END then END else ESC;
            buf[n] := c;
            n := n + 1;
            state := Plain;
            assert buf[..n] == out + [c];
          } else {
            return true, -EINVAL, n;
          }
      }
    }

    /** The bytes of one read, one after another. */
    method Scan(buf: array<Byte>, head: nat, tail: nat, at: nat, room: nat) returns (done: bool, r: int, n: nat)
      requires buf != rx && at <= room <= buf.Length && head <= tail <= rx.Length
      modifies this`state, buf
      ensures at <= room && n <= room
      ensures var d := Decode(old(state), old(buf[..at]), rx[head..tail], room);
        if done then Ended(d, r, buf[..], room) else d == More(state, buf[..n])
    {
      hide Decode, Take;
      var i := head;
      n, done, r := at, false, 0;
      ghost var d := Decode(state, buf[..at], rx[head..tail], room);
      while i < tail
        invariant head <= i <= tail && n <= room
        invariant d == Later(Decode(state, buf[..n], rx[i..tail], room), i - head)
      {
        DecodeHead(state, buf[..n], rx[i..tail], room);
        assert rx[i..tail][0] == rx[i] && rx[i..tail][1..] == rx[i + 1..tail];
        done, r, n := TakeByte(buf, n, rx[i], room);
        if done {
          return;
        }
        i := i + 1;
      }
      assert rx[i..tail] == [];
      DecodeNone(state, buf[..n], room);
    }

    /** One read: more of what is received in all, behind the first `tail` bytes of it, or the end. */
    method Pull(tail: nat, ghost ev: seq<RxEvent>) returns (got: int)
      requires Good(ev) && tail < rx.Length && tail <= |Received(ev)|
      requires Good(port.incoming) && port.incoming == After(ev, tail) && rx[..tail] == Received(ev)[..tail]
      modifies port`incoming, rx
      ensures got < 0 ==> |Received(ev)| == tail && got == Stop(ev)
      ensures got >= 0 ==>
        && 0 < got == NextRead(After(ev, tail), rx.Length - tail) && tail + got <= |Received(ev)|
        && rx[..tail + got] == Received(ev)[..tail + got] && rx[tail..tail + got] == Received(ev)[tail..][..got]
        && Good(port.incoming) && port.incoming == After(ev, tail + got)
    {
      hide Received, After, Stop, NextRead;
      ghost var s := Received(ev);
      NextReadFits(port.incoming, rx.Length - tail);
      AfterKeeps(ev, tail);
      got := port.Read(rx, tail, rx.Length - tail);
      if got >= 0 {
        AfterAfter(ev, tail, got);
        AfterKeeps(ev, tail + got);
        assert rx[..tail + got] == rx[..tail] + rx[tail..tail + got];
        assert s[..tail + got] == s[..tail] + s[tail..][..got];
      }
    }

    /** slip_read: for every way the bytes are cut into reads, the result is that of the receiver over them. */
    method SlipRead(buf: array<Byte>, count: nat) returns (r: int)
      requires buf != rx && count <= buf.Length && Good(port.incoming)
      modifies this`state, port`incoming, rx, buf
      ensures match ReadResult(old(port.incoming), count, rx.Length)
        case Payload(p) => r == |p| <= count && buf[..r] == p
        case Fail(code) => r == code < 0
      ensures forall p, k :: ReadDecode(old(port.incoming), count, rx.Length) == Frame(p, k) ==>
        && ReadEnd(old(port.incoming), k, rx.Length) <= |Received(old(port.incoming))|
        && port.incoming == After(old(port.incoming), ReadEnd(old(port.incoming), k, rx.Length))
    {
      hide Decode, Received, After, Stop, ReadEnd, NextRead, ReadsTo;
      ghost var ev := port.incoming;
      ghost var s := Received(ev);
      var tail: nat, n: nat := 0, 0;
      state := Skip;
      assert s[..0] == [] && rx[..0] == [] && buf[..0] == [];
      StartsEmpty(ev, count);
      ReadsNone(ev, rx.Length);
      while tail < rx.Length
        invariant tail <= rx.Length && tail <= |s| && n <= count
        invariant Good(port.incoming) && port.incoming == After(ev, tail)
        invariant rx[..tail] == s[..tail]
        invariant Decode(Skip, [], s[..tail], count) == More(state, buf[..n])
        invariant ReadsTo(ev, tail, rx.Length)
        decreases rx.Length - tail
      {
        ghost var st, out := state, buf[..n];
        var got := Pull(tail, ev);
        if got < 0 {
          assert s[..Least(|s|, rx.Length)] == s[..tail];
          return got;
        }
        ReadStep(ev, tail, got, rx.Length, count, st, out);
        var done;
        done, r, n := Scan(buf, tail, tail + got, n, count);
        if done {
          assert 0 <= r <= buf.Length ==> buf[..][..r] == buf[..r];
          return;
        }
        tail := tail + got;
      }
      assert s[..Least(|s|, rx.Length)] == s[..tail];
      r := -ENOMEM;
    }

    /** The bytes of b go behind the n bytes in the transmit buffer, if they fit. */
    method Append(n: nat, b: seq<Byte>) returns (ok: bool)
      requires n <= tx.Length
      modifies tx
      ensures ok <==> n + |b| <= tx.Length
      ensures ok ==> tx[..n + |b|] == old(tx[..n]) + b
    {
      ok := n + |b| <= tx.Length;
      if ok {
        forall k | 0 <= k < |b| {
          tx[n + k] := b[k];
        }
      }
    }

    /** The transmit buffer is filled with the frame of p; -ENOMEM when it does not fit. */
    method Fill(p: seq<Byte>) returns (ok: bool, n: nat)
      modifies tx
      ensures ok <==> |Encode(p)| <= tx.Length
      ensures ok ==> n == |Encode(p)| && tx[..n] == Encode(p)
    {
      n := 0;
      assert tx[..0] == [] && [] + [END] == [END];
      ok := Append(0, [END]);
      if !ok {
        return;
      }
      n := 1;
      for i := 0 to |p|
        invariant n == 1 + |Stuff(p[..i])| <= tx.Length && tx[..n] == [END] + Stuff(p[..i])
      {
        assert p[..i + 1][..i] == p[..i];
        assert [END] + Stuff(p[..i + 1]) == [END] + Stuff(p[..i]) + Stuffed(p[i]);
        ok := Append(n, Stuffed(p[i]));
        if !ok {
          StuffGrows(p, i + 1);
          return;
        }
        n := n + |Stuffed(p[i])|;
      }
      assert p[..|p|] == p;
      ok := Append(n, [END]);
      n := n + 1;
    }

    /** slip_write: on success exactly the frame has been sent; otherwise a prefix of it. */
    method SlipWrite(p: seq<Byte>) returns (r: int)
      modifies tx, port`accepts, port`sent
      ensures |Encode(p)| > tx.Length ==> r == -ENOMEM && port.sent == old(port.sent)
      ensures |Encode(p)| <= tx.Length ==>
        && (r >= 0 ==> r == |p| && port.sent == old(port.sent) + Encode(p))
        && (r < 0 ==> exists k :: 0 <= k < |Encode(p)| && port.sent == old(port.sent) + Encode(p)[..k])
    {
      hide Encode;
      var ok, n := Fill(p);
      if !ok {
        return -ENOMEM;
      }
      var head := 0;
      ghost var was := port.sent;
      while head < n
        invariant head <= n && tx[..n] == Encode(p) && |Encode(p)| == n
        invariant port.sent == was + Encode(p)[..head]
        decreases |port.accepts|
      {
        var got := port.Write(tx[head..n]);
        if got < 0 {
          return got;
        }
        assert tx[head..n] == Encode(p)[head..];
        assert Encode(p)[..head + got] == Encode(p)[..head] + Encode(p)[head..][..got];
        head := head + got;
      }
      assert Encode(p)[..n] == Encode(p);
      r := |p|;
    }
  }

  lemma {:induction false} StuffGrows(p: seq<Byte>, i: nat)
    requires i <= |p|
    ensures |Stuff(p[..i])| <= |Stuff(p)|
    decreases |p| - i
  {
    if i == |p| {
      assert p[..i] == p;
    } else {
      StuffGrows(p, i + 1);
      assert p[..i + 1][..i] == p[..i];
    }
  }

  /** What slip_write sends, slip_read of the other side returns, under any chunking and behind any END-free
      noise, when both buffers are large enough. */
  lemma SlipRoundTrip(ev: seq<RxEvent>, junk: seq<Byte>, p: seq<Byte>, rest: seq<Byte>, room: nat, rxLen: nat)
    requires Received(ev) == junk + Encode(p) + rest && END !in junk
    requires |p| <= room && |junk| + |Encode(p)| <= rxLen
    ensures ReadResult(ev, room, rxLen) == Payload(p)
    ensures ReadDecode(ev, room, rxLen) == Frame(p, |junk| + |Encode(p)|)
  {
    hide Decode, Encode;
    var s, k := Received(ev), |junk| + |Encode(p)|;
    var n := Least(|s|, rxLen);
    FrameReceived(junk, p, s[..n][k..], room);
    assert s[..n] == junk + Encode(p) + s[..n][k..];
  }

  /** slip_read returns p if and only if the bytes it examines are END-free noise and then exactly one
      frame, the frame of p. */
  lemma ReadIffFrame(ev: seq<RxEvent>, p: seq<Byte>, room: nat, rxLen: nat)
    ensures ReadResult(ev, room, rxLen) == Payload(p) ==> |p| <= room
    ensures ReadResult(ev, room, rxLen) == Payload(p) ==> exists k: nat :: k <= rxLen && EndsFrame(Received(ev), k, p)
    ensures |p| <= room && (exists k: nat :: k <= rxLen && EndsFrame(Received(ev), k, p)) ==>
              ReadResult(ev, room, rxLen) == Payload(p)
  {
    hide Decode, EndsFrame;
    var s := Received(ev);
    var n := Least(|s|, rxLen);
    if ReadResult(ev, room, rxLen) == Payload(p) {
      var k := ReadDecode(ev, room, rxLen).used;
      DecodeUsed(Skip, [], s[..n], room);
      SlipExact(s[..n], k, p, room);
      PrefixEndsFrame(s, n, k, p);
      assert EndsFrame(s, k, p);
    }
    forall k: nat | k <= rxLen && EndsFrame(s, k, p) && |p| <= room
      ensures ReadResult(ev, room, rxLen) == Payload(p)
    {
      PrefixEndsFrame(s, n, k, p);
      SlipExact(s[..n], k, p, room);
    }
  }

  lemma PrefixEndsFrame(s: seq<Byte>, n: nat, k: nat, p: seq<Byte>)
    requires n <= |s|
    ensures EndsFrame(s, k, p) && k <= n ==> EndsFrame(s[..n], k, p)
    ensures EndsFrame(s[..n], k, p) ==> EndsFrame(s, k, p)
    ensures EndsFrame(s, k, p) ==> k <= |s|
  {
    hide FrameAt;
    forall j: nat {
      PrefixFrameAt(s, n, j, k, p);
    }
  }

  lemma PrefixFrameAt(s: seq<Byte>, n: nat, j: nat, k: nat, p: seq<Byte>)
    requires n <= |s|
    ensures k <= n ==> (FrameAt(s, j, k, p) <==> FrameAt(s[..n], j, k, p))
    ensures FrameAt(s[..n], j, k, p) ==> k <= n
    ensures FrameAt(s, j, k, p) ==> k <= |s|
  {
    hide Encode;
    if j <= k <= n {
      assert s[..n][..j] == s[..j] && s[..n][j..k] == s[j..k];
    }
  }

  /** Frames that arrive one to a burst, behind any END-free noise, are received one to a call: when no read crosses the
      end of a frame, the next call starts at the next burst. */
  lemma NoByteLost(burst: seq<RxEvent>, more: seq<RxEvent>, noise: seq<Byte>, p: seq<Byte>, room: nat, rxLen: nat)
    requires Good(burst) && Good(more) && AllChunks(burst) && Received(burst) == noise + Encode(p) && END !in noise
    requires |p| <= room && |noise| + |Encode(p)| <= rxLen
    ensures ReadResult(burst + more, room, rxLen) == Payload(p)
    ensures var k := |noise| + |Encode(p)|;
      && ReadDecode(burst + more, room, rxLen) == Frame(p, k)
      && k <= |Received(burst + more)| && ReadEnd(burst + more, k, rxLen) == k && After(burst + more, k) == more
  {
    hide Encode, Decode, ReadResult;
    BurstThen(burst, more, rxLen);
    SlipRoundTrip(burst + more, noise, p, Received(more), room, rxLen);
  }

  predicate AllChunks(ev: seq<RxEvent>) { forall i :: 0 <= i < |ev| ==> ev[i].Chunk? }

  lemma NoneTaken(ev: seq<RxEvent>, rxLen: nat)
    requires Good(ev)
    ensures After(ev, 0) == ev && ReadEnd(ev, 0, rxLen) == 0
  {
  }

  lemma BurstHead(b: seq<Byte>, tail: seq<RxEvent>, k: nat, rxLen: nat)
    requires Good([Chunk(b)] + tail) && |b| + k <= rxLen && k <= |Received(tail)|
    ensures var ev := [Chunk(b)] + tail;
      && Received(ev) == b + Received(tail)
      && After(ev, |b| + k) == After(tail, k)
      && ReadEnd(ev, |b| + k, rxLen) == |b| + ReadEnd(tail, k, rxLen - |b|)
  {
    var ev := [Chunk(b)] + tail;
    assert ev[1..] == tail && ev[0] == Chunk(b);
  }

  lemma {:induction false} BurstThen(burst: seq<RxEvent>, more: seq<RxEvent>, rxLen: nat)
    requires Good(burst) && Good(more) && AllChunks(burst) && |Received(burst)| <= rxLen
    ensures var ev, k := burst + more, |Received(burst)|;
      Received(ev) == Received(burst) + Received(more) && After(ev, k) == more && ReadEnd(ev, k, rxLen) == k
    decreases |burst|
  {
    hide ReadEnd, After, Received;
    if burst == [] {
      assert burst + more == more;
      NoneTaken(more, rxLen);
      NoneReceived();
      assert [] + Received(more) == Received(more);
    } else {
      var b, rest := burst[0].bytes, burst[1..];
      ReceivedFirst(burst);
      BurstThen(rest, more, rxLen - |b|);
      assert burst + more == [Chunk(b)] + (rest + more);
      BurstHead(b, rest + more, |Received(rest)|, rxLen);
      assert b + (Received(rest) + Received(more)) == b + Received(rest) + Received(more);
    }
  }

  lemma NoneReceived()
    ensures Received([]) == []
  {
  }

  lemma ReceivedFirst(burst: seq<RxEvent>)
    requires burst != [] && burst[0].Chunk?
    ensures Received(burst) == burst[0].bytes + Received(burst[1..])
  {
  }
}
