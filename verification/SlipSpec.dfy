/** The SLIP framing of byte strings (RFC 1055, "PROTOCOL") and the receiver as a state machine over bytes. */
module SlipSpec {
  import opened Bytes

  const END: Byte := 0xC0
  const ESC: Byte := 0xDB
  const ESC_END: Byte := 0xDC
  const ESC_ESC: Byte := 0xDD

  function Stuffed(b: Byte): seq<Byte> {
    if b == END then [ESC, ESC_END] else if b == ESC then [ESC, ESC_ESC] else [b]
  }

  function Stuff(p: seq<Byte>): seq<Byte> {
    if p == [] then [] else Stuff(p[..|p| - 1]) + Stuffed(p[|p| - 1])
  }

  /** A frame: the stuffed payload between two END bytes. */
  function Encode(p: seq<Byte>): (s: seq<Byte>)
    ensures |s| >= 2
  {
    [END] + Stuff(p) + [END]
  }

  datatype State = Skip | Plain | Escaped

  /** What the receiver has made of the bytes so far; `used` counts the bytes up to the deciding one. */
  datatype Rx =
    | More(state: State, out: seq<Byte>)
    | Frame(payload: seq<Byte>, used: nat)
    | NoRoom(used: nat)
    | BadEscape(used: nat)

  function Push(out: seq<Byte>, b: Byte, room: nat): Rx {
    if |out| + 1 > room then NoRoom(1) else More(Plain, out + [b])
  }

  /** One received byte. */
  function Take(state: State, out: seq<Byte>, b: Byte, room: nat): Rx {
    match state
    case Skip => More(if b == END then Plain else Skip, out)
    case Plain =>
      if b == ESC then More(Escaped, out)
      else if b == END then Frame(out, 1)
      else Push(out, b, room)
    case Escaped =>
      if b == ESC_END then Push(out, END, room)
      else if b == ESC_ESC then Push(out, ESC, room)
      else BadEscape(1)
  }

  function Later(r: Rx, n: nat): Rx {
    match r
    case More(_, _) => r
    case Frame(p, u) => Frame(p, u + n)
    case NoRoom(u) => NoRoom(u + n)
    case BadEscape(u) => BadEscape(u + n)
  }

  function Decode(state: State, out: seq<Byte>, s: seq<Byte>, room: nat): Rx
    decreases |s|
  {
    if s == [] then More(state, out)
    else
      match Take(state, out, s[0], room)
      case More(st, o) => Later(Decode(st, o, s[1..], room), 1)
      case r => r
  }

  lemma {:induction false} DecodeAppend(state: State, out: seq<Byte>, a: seq<Byte>, b: seq<Byte>, room: nat)
    ensures var r := Decode(state, out, a, room);
      Decode(state, out, a + b, room) == if r.More? then Later(Decode(r.state, r.out, b, room), |a|) else r
    decreases |a|
  {
    if a == [] {
      assert a + b == b;
    } else {
      assert (a + b)[1..] == a[1..] + b;
      var t := Take(state, out, a[0], room);
      if t.More? {
        DecodeAppend(t.state, t.out, a[1..], b, room);
      }
    }
  }

  lemma DecodeUsed(state: State, out: seq<Byte>, s: seq<Byte>, room: nat)
    ensures var r := Decode(state, out, s, room); !r.More? ==> 1 <= r.used <= |s|
    decreases |s|
  {
  }

  lemma {:induction false} DecodeJunk(junk: seq<Byte>, room: nat)
    requires END !in junk
    ensures Decode(Skip, [], junk, room) == More(Skip, [])
    decreases |junk|
  {
    if junk != [] {
      DecodeJunk(junk[1..], room);
    }
  }

  lemma {:induction false} DecodeStuffed(out: seq<Byte>, b: Byte, room: nat)
    requires |out| < room
    ensures Decode(Plain, out, Stuffed(b), room) == More(Plain, out + [b])
  {
    var s := Stuffed(b);
    assert Decode(Plain, out + [b], [], room) == More(Plain, out + [b]);
    if |s| == 2 {
      assert s[1..][1..] == [];
      assert Decode(Escaped, out, s[1..], room) == More(Plain, out + [b]);
    } else {
      assert s[1..] == [];
    }
  }

  lemma {:induction false} DecodeStuff(p: seq<Byte>, room: nat)
    requires |p| <= room
    ensures Decode(Plain, [], Stuff(p), room) == More(Plain, p)
    decreases |p|
  {
    if p != [] {
      var q := p[..|p| - 1];
      DecodeStuff(q, room);
      DecodeStuffed(q, p[|p| - 1], room);
      DecodeAppend(Plain, [], Stuff(q), Stuffed(p[|p| - 1]), room);
      assert q + [p[|p| - 1]] == p;
    }
  }

  /** A frame behind END-free noise is received whole, whatever follows it. */
  lemma FrameReceived(junk: seq<Byte>, p: seq<Byte>, rest: seq<Byte>, room: nat)
    requires END !in junk && |p| <= room
    ensures Decode(Skip, [], junk + Encode(p) + rest, room) == Frame(p, |junk| + |Encode(p)|)
  {
    DecodeJunk(junk, room);
    DecodeStuff(p, room);
    var tail := [END] + rest;
    assert Decode(Plain, p, tail, room) == Frame(p, 1);
    DecodeAppend(Plain, [], Stuff(p), tail, room);
    assert Encode(p) + rest == [END] + (Stuff(p) + tail);
    assert (Encode(p) + rest)[1..] == Stuff(p) + tail;
    DecodeAppend(Skip, [], junk, Encode(p) + rest, room);
    assert junk + Encode(p) + rest == junk + (Encode(p) + rest);
  }

  lemma Grown(p: seq<Byte>, i: nat, pre: seq<Byte>, c: Byte, tail: seq<Byte>)
    requires i < |p| && pre + [c] == Stuffed(p[i]) && tail == StuffFrom(p, i + 1) + [END]
    ensures pre + ([c] + tail) == StuffFrom(p, i) + [END]
  {
    assert pre + ([c] + tail) == Stuffed(p[i]) + tail;
  }

  function Opened(state: State): seq<Byte> { if state == Escaped then [ESC] else [] }

  lemma TakeGrows(state: State, out: seq<Byte>, b: Byte, room: nat)
    requires state != Skip && Take(state, out, b, room).More?
    ensures var t := Take(state, out, b, room);
      t.state != Skip && (if |t.out| == |out| then t.out == out && state == Plain && t.state == Escaped && b == ESC
         else |out| < room && t.state == Plain && |t.out| == |out| + 1 && out <= t.out && Opened(state) + [b] == Stuffed(t.out[|out|]))
  {
  }

  /** What the receiver has accepted inside a frame is the stuffing of what it has stored. */
  lemma {:induction false} OpenFrame(state: State, out: seq<Byte>, s: seq<Byte>, room: nat) returns (p: seq<Byte>)
    requires state != Skip && |out| <= room
    requires Decode(state, out, s, room).Frame?
    ensures var r := Decode(state, out, s, room);
      && p == r.payload && out <= p && |p| <= room && r.used <= |s|
      && Opened(state) + s[..r.used] == StuffFrom(p, |out|) + [END]
    decreases |s|
  {
    hide StuffFrom, Stuffed;
    var r := Decode(state, out, s, room);
    var t := Take(state, out, s[0], room);
    if t.Frame? {
      p := out;
      assert s[..1] == [END];
      StuffFromEnd(p);
      assert [] + [END] == [END];
    } else {
      OpenStep(state, out, s, room);
      TakeGrows(state, out, s[0], room);
      p := OpenFrame(t.state, t.out, s[1..], room);
      GrownFrame(state, out, s, t.state, t.out, p, r.used);
    }
  }

  lemma OpenStep(state: State, out: seq<Byte>, s: seq<Byte>, room: nat)
    requires s != [] && Take(state, out, s[0], room).More?
    ensures var t := Take(state, out, s[0], room);
      Decode(state, out, s, room) == Later(Decode(t.state, t.out, s[1..], room), 1)
  {
  }

  lemma HeadTail(s: seq<Byte>, used: nat)
    requires 1 <= used <= |s|
    ensures s[..used] == [s[0]] + s[1..][..used - 1]
  {
  }

  lemma GrownFrame(state: State, out: seq<Byte>, s: seq<Byte>, st: State, out': seq<Byte>, p: seq<Byte>, used: nat)
    requires 1 <= used <= |s| && out <= out' <= p
    requires if |out'| == |out| then state == Plain && st == Escaped && s[0] == ESC
             else st == Plain && |out'| == |out| + 1 && Opened(state) + [s[0]] == Stuffed(out'[|out|])
    requires Opened(st) + s[1..][..used - 1] == StuffFrom(p, |out'|) + [END]
    ensures Opened(state) + s[..used] == StuffFrom(p, |out|) + [END]
  {
    hide StuffFrom, Stuffed;
    var tail := s[1..][..used - 1];
    HeadTail(s, used);
    if |out'| > |out| {
      assert p[|out|] == out'[|out|];
      assert [] + tail == tail;
      Grown(p, |out|, Opened(state), s[0], tail);
    } else {
      assert [] + s[..used] == s[..used];
    }
  }

  /** The stuffing of p from position i on. */
  function StuffFrom(p: seq<Byte>, i: nat): seq<Byte>
    requires i <= |p|
    decreases |p| - i
  {
    if i == |p| then [] else Stuffed(p[i]) + StuffFrom(p, i + 1)
  }

  lemma StuffFromEnd(p: seq<Byte>)
    ensures StuffFrom(p, |p|) == []
  {
  }

  lemma StuffFromStep(p: seq<Byte>, i: nat)
    requires i < |p|
    ensures StuffFrom(p, i) == Stuffed(p[i]) + StuffFrom(p, i + 1)
  {
  }

  lemma {:induction false} StuffSplits(p: seq<Byte>, i: nat)
    requires i <= |p|
    ensures Stuff(p) == Stuff(p[..i]) + StuffFrom(p, i)
    decreases |p| - i
  {
    hide Stuffed;
    if i == |p| {
      assert p[..i] == p && Stuff(p) + [] == Stuff(p);
    } else {
      StuffSplits(p, i + 1);
      assert p[..i + 1][..i] == p[..i];
      assert Stuff(p[..i]) + Stuffed(p[i]) + StuffFrom(p, i + 1) == Stuff(p[..i]) + (Stuffed(p[i]) + StuffFrom(p, i + 1));
    }
  }

  lemma {:induction false} FrameIsEncoded(s: seq<Byte>, room: nat) returns (j: nat)
    requires Decode(Skip, [], s, room).Frame?
    ensures var r := Decode(Skip, [], s, room);
      && j <= r.used <= |s| && END !in s[..j] && s[j..r.used] == Encode(r.payload) && |r.payload| <= room
    decreases |s|
  {
    hide Stuff, StuffFrom, Push;
    var r := Decode(Skip, [], s, room);
    if s[0] == END {
      var p := OpenFrame(Plain, [], s[1..], room);
      StuffSplits(p, 0);
      assert Stuff(p) == StuffFrom(p, 0) by { assert p[..0] == [] && Stuff(p[..0]) == [] by { StuffNone(); } }
      assert [] + s[1..][..r.used - 1] == StuffFrom(p, 0) + [END];
      assert s[0..r.used] == [END] + (Stuff(p) + [END]);
      assert [END] + (Stuff(p) + [END]) == Encode(p);
      j := 0;
    } else {
      var k := FrameIsEncoded(s[1..], room);
      j := k + 1;
      OneOn(s, k, r.used);
    }
  }

  lemma OneOn(s: seq<Byte>, k: nat, used: nat)
    requires k < used <= |s|
    ensures s[..k + 1] == [s[0]] + s[1..][..k] && s[k + 1..used] == s[1..][k..used - 1]
  {
  }

  lemma StuffNone()
    ensures Stuff([]) == []
  {
  }

  lemma {:induction false} StuffAppend(a: seq<Byte>, c: seq<Byte>)
    ensures Stuff(a + c) == Stuff(a) + Stuff(c)
    decreases |c|
  {
    hide Stuffed, Stuff;
    if c == [] {
      StuffNone();
      assert a + c == a && Stuff(a) + [] == Stuff(a);
    } else {
      var k := |c| - 1;
      StuffAppend(a, c[..k]);
      assert a + c == (a + c[..k]) + [c[k]] && c == c[..k] + [c[k]];
      StuffMore(a + c[..k], c[k]);
      StuffMore(c[..k], c[k]);
    }
  }

  lemma StuffMore(p: seq<Byte>, b: Byte)
    ensures Stuff(p + [b]) == Stuff(p) + Stuffed(b)
  {
    assert (p + [b])[..|p|] == p;
  }

  lemma StuffOne(b: Byte)
    ensures Stuff([b]) == if b == 0xC0 then [0xDB, 0xDC] else if b == 0xDB then [0xDB, 0xDD] else [b]
  {
    assert [b][..0] == [];
    StuffNone();
  }

  /** What goes over the wire, byte for byte, as RFC 1055 writes it: 300 octal at both ends, 333 334 for a 300 and 333 335
      for a 333 in the payload, and every other byte as it is. */
  lemma WireBytes(a: seq<Byte>, b: Byte, c: seq<Byte>)
    ensures Stuff(a + [b] + c)
         == Stuff(a) + (if b == 0xC0 then [0xDB, 0xDC] else if b == 0xDB then [0xDB, 0xDD] else [b]) + Stuff(c)
    ensures Stuff([]) == [] && Encode(a) == [0xC0] + Stuff(a) + [0xC0]
  {
    hide Stuff, Stuffed;
    StuffAppend(a + [b], c);
    StuffAppend(a, [b]);
    StuffOne(b);
    StuffNone();
  }

  /** Noise up to j, and the frame up to k. */
  ghost predicate FrameAt(s: seq<Byte>, j: nat, k: nat, p: seq<Byte>) {
    j <= k <= |s| && END !in s[..j] && s[j..k] == Encode(p)
  }

  /** The bytes up to k are END-free noise and then exactly one frame. */
  ghost predicate EndsFrame(s: seq<Byte>, k: nat, p: seq<Byte>) {
    exists j: nat :: FrameAt(s, j, k, p)
  }

  lemma ThreeParts(s: seq<Byte>, j: nat, k: nat)
    requires j <= k <= |s|
    ensures s[..j] + s[j..k] + s[k..] == s
  {
    assert s[..j] + s[j..k] == s[..k];
  }

  lemma FrameBehind(s: seq<Byte>, noise: seq<Byte>, p: seq<Byte>, rest: seq<Byte>, room: nat)
    requires s == noise + Encode(p) + rest && END !in noise && |p| <= room
    ensures Decode(Skip, [], s, room) == Frame(p, |noise| + |Encode(p)|)
  {
    hide Decode, Encode;
    FrameReceived(noise, p, rest, room);
  }

  lemma FrameAtReceived(s: seq<Byte>, j: nat, k: nat, p: seq<Byte>, room: nat)
    requires FrameAt(s, j, k, p) && |p| <= room
    ensures Decode(Skip, [], s, room) == Frame(p, k)
  {
    hide Decode, Encode;
    ThreeParts(s, j, k);
    FrameBehind(s, s[..j], p, s[k..], room);
  }

  lemma NoMore(out: seq<Byte>, c: Byte, rest: seq<Byte>, room: nat)
    requires |out| == room
    ensures Decode(Plain, out, Stuffed(c) + rest, room).NoRoom?
  {
    var s := Stuffed(c) + rest;
    if |Stuffed(c)| == 2 {
      assert s[1..] == [Stuffed(c)[1]] + rest;
      assert Decode(Escaped, out, s[1..], room) == NoRoom(1);
    }
  }

  lemma TooLong(p: seq<Byte>, tail: seq<Byte>, room: nat)
    requires |p| > room
    ensures Decode(Plain, [], Stuff(p) + tail, room).NoRoom?
  {
    hide Decode, Stuff, StuffFrom, Stuffed;
    StuffSplits(p, room);
    StuffFromStep(p, room);
    var first, c, rest := Stuff(p[..room]), Stuffed(p[room]), StuffFrom(p, room + 1) + tail;
    assert Stuff(p) + tail == first + (c + rest);
    DecodeStuff(p[..room], room);
    DecodeAppend(Plain, [], first, c + rest, room);
    NoMore(p[..room], p[room], rest, room);
  }

  lemma OpenedBy(s: seq<Byte>, room: nat)
    ensures Decode(Skip, [], [END] + s, room) == Later(Decode(Plain, [], s, room), 1)
  {
    assert ([END] + s)[1..] == s;
  }

  /** A frame whose payload does not fit is refused as soon as its first byte too many is complete. */
  lemma FrameTooLong(junk: seq<Byte>, p: seq<Byte>, rest: seq<Byte>, room: nat)
    requires END !in junk && |p| > room
    ensures Decode(Skip, [], junk + Encode(p) + rest, room).NoRoom?
  {
    hide Decode, Stuff;
    DecodeJunk(junk, room);
    var tail := [END] + rest;
    TooLong(p, tail, room);
    OpenedBy(Stuff(p) + tail, room);
    assert Encode(p) + rest == [END] + (Stuff(p) + tail);
    DecodeAppend(Skip, [], junk, Encode(p) + rest, room);
    assert junk + Encode(p) + rest == junk + (Encode(p) + rest);
  }

  lemma FrameAtTooLong(s: seq<Byte>, j: nat, k: nat, p: seq<Byte>, room: nat)
    requires FrameAt(s, j, k, p) && |p| > room
    ensures Decode(Skip, [], s, room).NoRoom?
  {
    hide Decode, Encode;
    ThreeParts(s, j, k);
    FrameTooLong(s[..j], p, s[k..], room);
  }

  /** SLIP is exact: the receiver returns p after k bytes if and only if those bytes are END-free noise
      followed by the frame of p, and p fits. */
  lemma SlipExact(s: seq<Byte>, k: nat, p: seq<Byte>, room: nat)
    ensures Decode(Skip, [], s, room) == Frame(p, k) <==> EndsFrame(s, k, p) && |p| <= room
  {
    hide Decode, Encode;
    if Decode(Skip, [], s, room) == Frame(p, k) {
      var j := FrameIsEncoded(s, room);
      assert FrameAt(s, j, k, p);
    } else if EndsFrame(s, k, p) && |p| <= room {
      var j: nat :| FrameAt(s, j, k, p);
      FrameAtReceived(s, j, k, p, room);
    }
  }

  /** No two payloads have the same frame, and no frame is a proper prefix of another. */
  lemma FramesPrefixFree(p: seq<Byte>, q: seq<Byte>, rest: seq<Byte>)
    requires Encode(p) + rest == Encode(q)
    ensures p == q && rest == []
  {
    hide Decode, Encode;
    var room := |p| + |q|;
    FrameReceived([], p, rest, room);
    FrameReceived([], q, [], room);
    assert [] + Encode(p) + rest == Encode(q) == [] + Encode(q) + [];
  }

  // ---- Sizes ----

  predicate IsPlain(b: Byte) { b != END && b != ESC }

  lemma {:induction false} StuffFromSize(p: seq<Byte>, i: nat)
    requires i <= |p|
    ensures |p| - i <= |StuffFrom(p, i)| <= 2 * (|p| - i)
    decreases |p| - i
  {
    if i < |p| {
      StuffFromSize(p, i + 1);
    }
  }

  /** A frame needs at most two bytes for each payload byte and its two ENDs; when the first two payload
      bytes need no stuffing, twice the payload is enough. */
  lemma EncodedSize(p: seq<Byte>)
    ensures |p| + 2 <= |Encode(p)| <= 2 * |p| + 2
    ensures |p| >= 2 && IsPlain(p[0]) && IsPlain(p[1]) ==> |Encode(p)| <= 2 * |p|
  {
    StuffSplits(p, 0);
    StuffFromSize(p, 0);
    assert p[..0] == [];
    if |p| >= 2 && IsPlain(p[0]) && IsPlain(p[1]) {
      StuffFromSize(p, 2);
      StuffFromStep(p, 0);
      StuffFromStep(p, 1);
    }
  }
}
