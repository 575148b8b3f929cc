/** The command layer over the SLIP link: what goes out, and what a read brings. */
module Link {
  import opened Bytes
  import opened Protocol
  import opened Serial
  import opened Slip
  import opened SlipSpec
  import Cmd

  /** A request of the host is never refused: it goes out as its frame, or the port fails on the way. */
  method SendFrame(dev: SlipDev, request: seq<Byte>) returns (r: int)
    requires Sendable(request) && dev.tx.Length == 2 * MAX_REQ_RAW_LEN
    modifies dev.tx, dev.port`accepts, dev.port`sent
    ensures r >= 0 ==> r == |request| && dev.port.sent == old(dev.port.sent) + Encode(request)
    ensures r < 0 ==> exists k :: 0 <= k < |Encode(request)| && dev.port.sent == old(dev.port.sent) + Encode(request)[..k]
  {
    hide Encode;
    RequestFits(request);
    r := dev.SlipWrite(request);
  }

  /** A frame that is too long for the buffer. */
  lemma ReadTooLong(ev: seq<RxEvent>, k: nat, f: seq<Byte>, room: nat, rxLen: nat)
    requires k <= rxLen && EndsFrame(Received(ev), k, f) && |f| > room
    ensures ReadResult(ev, room, rxLen) == Fail(-ENOMEM)
  {
    hide Decode, FrameAt, Received;
    var s := Received(ev);
    var n := Least(|s|, rxLen);
    PrefixEndsFrame(s, n, k, f);
    var j: nat :| FrameAt(s[..n], j, k, f);
    FrameAtTooLong(s[..n], j, k, f, room);
  }

  /** A read into a buffer of `room` bytes comes to what the command layer takes for an event: when the frame of f arrives,
      behind any noise and in any chunks, it is the event of f, also when f does not fit; otherwise it is an error. */
  method ReceiveFrame(dev: SlipDev, buf: array<Byte>, room: nat) returns (r: int)
    requires buf != dev.rx && room <= buf.Length && Good(dev.port.incoming)
    modifies dev`state, dev.port`incoming, dev.rx, buf
    ensures forall f, k: nat :: k <= dev.rx.Length && EndsFrame(Received(old(dev.port.incoming)), k, f) ==>
      r == Cmd.ReadCode(Cmd.Got(f, false), room) && (r >= 0 ==> buf[..r] == f)
    ensures r >= 0 ==> r <= room && exists k: nat :: k <= dev.rx.Length && EndsFrame(Received(old(dev.port.incoming)), k, buf[..r])
  {
    hide Decode, EndsFrame, Received, ReadResult;
    ghost var ev := dev.port.incoming;
    r := dev.SlipRead(buf, room);
    if r >= 0 {
      ReadIffFrame(ev, buf[..r], room, dev.rx.Length);
    }
    forall f, k: nat | k <= dev.rx.Length && EndsFrame(Received(ev), k, f)
      ensures r == Cmd.ReadCode(Cmd.Got(f, false), room) && (r >= 0 ==> buf[..r] == f)
    {
      if |f| <= room {
        ReadIffFrame(ev, f, room, dev.rx.Length);
      } else {
        ReadTooLong(ev, k, f, room, dev.rx.Length);
      }
    }
  }
}
