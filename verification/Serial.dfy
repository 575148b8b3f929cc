/** The serial port as the host sees it: what arrives is cut into chunks in any way, and reads may fail. */
module Serial {
  import opened Bytes

  const ETIMEDOUT: int := 110
  const ENOMEM: int := 12
  const EINVAL: int := 22
  const EIO: int := 5
  const ENOTSUP: int := 95

  datatype RxEvent = Chunk(bytes: seq<Byte>) | Failure(code: int)

  /** Reads block until something arrives, so a chunk is not empty and a failure is negative. */
  predicate Good(ev: seq<RxEvent>) {
    forall i :: 0 <= i < |ev| ==> if ev[i].Chunk? then ev[i].bytes != [] else ev[i].code < 0
  }

  /** The bytes that arrive before the first failure. */
  function Received(ev: seq<RxEvent>): seq<Byte>
    decreases |ev|
  {
    if ev == [] || ev[0].Failure? then [] else ev[0].bytes + Received(ev[1..])
  }

  /** The code of the first failure; when nothing more comes the read times out. */
  function Stop(ev: seq<RxEvent>): int
    decreases |ev|
  {
    if ev == [] then -ETIMEDOUT else if ev[0].Failure? then ev[0].code else Stop(ev[1..])
  }

  /** What is still to arrive when n bytes have been taken. */
  function After(ev: seq<RxEvent>, n: nat): seq<RxEvent>
    requires n <= |Received(ev)|
    decreases |ev|
  {
    if n == 0 then ev
    else if n < |ev[0].bytes| then [Chunk(ev[0].bytes[n..])] + ev[1..]
    else After(ev[1..], n - |ev[0].bytes|)
  }

  lemma {:induction false} AfterKeeps(ev: seq<RxEvent>, n: nat)
    requires Good(ev) && n <= |Received(ev)|
    ensures Good(After(ev, n)) && Received(After(ev, n)) == Received(ev)[n..] && Stop(After(ev, n)) == Stop(ev)
    decreases |ev|
  {
    if n > 0 {
      var b := ev[0].bytes;
      if n < |b| {
        var rest := [Chunk(b[n..])] + ev[1..];
        assert rest[1..] == ev[1..];
        assert Received(ev)[n..] == b[n..] + Received(ev[1..]);
      } else {
        AfterKeeps(ev[1..], n - |b|);
      }
    }
  }

  lemma {:induction false} AfterAfter(ev: seq<RxEvent>, m: nat, n: nat)
    requires Good(ev) && m + n <= |Received(ev)|
    ensures n <= |Received(After(ev, m))| && After(After(ev, m), n) == After(ev, m + n)
    decreases |ev|
  {
    AfterKeeps(ev, m);
    if m > 0 {
      var b := ev[0].bytes;
      if m < |b| {
        var rest := [Chunk(b[m..])] + ev[1..];
        assert rest[1..] == ev[1..];
        if 0 < n && m + n < |b| {
          assert b[m..][n..] == b[m + n..];
        }
      } else {
        AfterAfter(ev[1..], m - |b|, n);
      }
    }
  }

  /** How many bytes a read of at most `count` bytes takes; 0 when it fails. */
  function NextRead(ev: seq<RxEvent>, count: nat): (n: nat)
    ensures n <= count
  {
    if ev == [] || ev[0].Failure? then 0 else if |ev[0].bytes| <= count then |ev[0].bytes| else count
  }

  lemma NextReadFits(ev: seq<RxEvent>, count: nat)
    requires Good(ev)
    ensures NextRead(ev, count) <= |Received(ev)|
    ensures count > 0 ==> (NextRead(ev, count) == 0 <==> Received(ev) == [])
  {
  }

  class Port {
    var incoming: seq<RxEvent>
    /** How many bytes each write call takes, perhaps none; negative for an error. */
    var accepts: seq<int>
    ghost var sent: seq<Byte>

    constructor (incoming: seq<RxEvent>, accepts: seq<int>)
      ensures this.incoming == incoming && this.accepts == accepts && sent == []
    {
      this.incoming, this.accepts, sent := incoming, accepts, [];
    }

    method Read(buf: array<Byte>, off: nat, count: nat) returns (r: int)
      requires Good(incoming) && 0 < count && off + count <= buf.Length
      modifies this`incoming, buf
      ensures var n := NextRead(old(incoming), count);
        && n <= |Received(old(incoming))|
        && (if n > 0 then
              && r == n && incoming == After(old(incoming), n)
              && buf[off..off + n] == Received(old(incoming))[..n]
              && buf[..off] == old(buf[..off])
            else r == Stop(old(incoming)) < 0 && buf[..] == old(buf[..]) && Received(old(incoming)) == [])
    {
      if |incoming| == 0 {
        return -ETIMEDOUT;
      }
      match incoming[0] {
        case Failure(code) =>
          incoming := incoming[1..];
          return code;
        case Chunk(b) =>
          r := if |b| <= count then |b| else count;
          forall k | 0 <= k < r {
            buf[off + k] := b[k];
          }
          incoming := if r < |b| then [Chunk(b[r..])] + incoming[1..] else incoming[1..];
      }
    }

    method Write(data: seq<Byte>) returns (r: int)
      requires data != []
      modifies this`accepts, this`sent
      ensures r <= |data|
      ensures sent == old(sent) + (if r > 0 then data[..r] else [])
      ensures r >= 0 ==> |accepts| < |old(accepts)|
    {
      if |accepts| == 0 {
        return -ETIMEDOUT;
      }
      var n := accepts[0];
      accepts := accepts[1..];
      r := if n <= |data| then n else |data|;
      if r > 0 {
        sent := sent + data[..r];
      }
    }
  }
}
