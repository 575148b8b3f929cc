/** The command layer: one request, the frames that come back for it, and what the host makes of them. */
module Cmd {
  import opened Bytes
  import opened Protocol
  import Serial

  /** One result of slip_read: a frame of any size or an error, and whether the deadline of the waiting loop
      has passed by then. */
  datatype Event = Got(frame: seq<Byte>, late: bool) | Error(code: int, late: bool)

  /** What happens between one request and the next: whether the frame can be sent, whether the device gets
      it and carries it out, what the host receives, and what sending further frames returns. Losses of either
      direction and busy answers are choices of the exchange. */
  datatype Exchange = Exchange(sendCode: int, carried: bool, events: seq<Event>, acks: seq<int>)

  /** The rest of the world: how exchange number t goes for a request, given what the device holds. */
  type Script = (nat, Device, seq<Byte>) -> Exchange

  ghost predicate GoodScript(script: Script) {
    forall t, d, r :: GoodEvents(script(t, d, r).events)
  }

  /** What an exchange does to the device. */
  function Reaction(e: Exchange, d: Device, request: seq<Byte>): (r: Device)
    ensures |r.store.bytes| == |d.store.bytes| && |r.ram.bytes| == |d.ram.bytes| && r.medium == d.medium
  {
    if e.sendCode >= 0 && e.carried then Carry(d, request) else d
  }

  /** The value of slip_read into a buffer of `room` bytes. */
  function ReadCode(e: Event, room: nat): int {
    match e
    case Error(code, _) => code
    case Got(f, _) => if |f| > room then -Serial.ENOMEM else |f|
  }

  predicate GoodEvents(ev: seq<Event>) { forall i :: 0 <= i < |ev| ==> ev[i].Error? ==> ev[i].code < 0 }

  // ---- What a command makes of the frames received for it ----

  datatype Reply = Reply(frame: seq<Byte>) | NoReply(code: int)

  predicate Answers(f: seq<Byte>, op: Byte) { |f| >= HEADER_LEN && f[0] == DIR_RES && f[1] == op }

  /** command_recv: the first frame that answers the opcode; empty, short and foreign frames are skipped. */
  function Receive(ev: seq<Event>, op: Byte): (r: Reply)
    requires GoodEvents(ev)
    ensures r.Reply? ==> Answers(r.frame, op) && |r.frame| <= MAX_RES_RAW_LEN
    ensures r.NoReply? ==> r.code < 0
    decreases |ev|
  {
    if ev == [] then NoReply(-Serial.ETIMEDOUT)
    else
      var e := ev[0];
      if ReadCode(e, MAX_RES_RAW_LEN) < 0 then NoReply(ReadCode(e, MAX_RES_RAW_LEN))
      else if Answers(e.frame, op) then Reply(e.frame)
      else if e.late then NoReply(-Serial.ETIMEDOUT)
      else Receive(ev[1..], op)
  }

  function SizeField(f: seq<Byte>): U16
    requires |f| >= HEADER_LEN
  {
    Word(f[3], f[2])
  }

  function ValueField(f: seq<Byte>): U32
    requires |f| >= HEADER_LEN
  {
    FromLittleEndianRange(f[4..8]);
    Pow256Four();
    FromLittleEndian(f[4..8])
  }

  /** The outputs of a command that takes a payload: code, value field, payload copied out, declared size. */
  datatype Result = Result(ret: int, value: U32, data: seq<Byte>, len: U16)

  function ResultOf(ev: seq<Event>, op: Byte, limit: nat): (r: Result)
    requires GoodEvents(ev)
    ensures r.ret <= 0 && |r.data| == Least(r.len, limit)
  {
    match Receive(ev, op)
    case NoReply(code) => Result(code, 0, [], 0)
    case Reply(f) =>
      if SizeField(f) > |f| - HEADER_LEN then Result(-Serial.EIO, ValueField(f), [], 0)
      else Result(0, ValueField(f), f[HEADER_LEN..HEADER_LEN + Least(SizeField(f), limit)], SizeField(f))
  }

  /** The same for a whole exchange, whose request may already fail to go out. */
  function Outcome(e: Exchange, op: Byte, limit: nat): Result
    requires GoodEvents(e.events)
  {
    if e.sendCode < 0 then Result(e.sendCode, 0, [], 0) else ResultOf(e.events, op, limit)
  }

  /** response_status: the ARCS loader puts the error code before the status, everyone else behind it. */
  function Status(errorFirst: bool, data: seq<Byte>, len: U16): int
    requires len >= STATUS_LEN ==> |data| >= STATUS_LEN
  {
    if len < STATUS_LEN then -Serial.EIO
    else
      var error := data[if errorFirst then 0 else 1];
      var status := data[if errorFirst then 1 else 0];
      if (if errorFirst then error != 0 else status != 0) then (if error != 0 then error else -Serial.EIO)
      else 0
  }

  /** check_command: 0, a positive code reported by the device, or a negative error. */
  function CheckOf(e: Exchange, op: Byte, errorFirst: bool): int
    requires GoodEvents(e.events)
  {
    var r := Outcome(e, op, STATUS_LEN);
    if r.ret != 0 then r.ret else Status(errorFirst, r.data, r.len)
  }

  /** One request of the host, and how its exchange went. */
  datatype Dialogue = Dialogue(request: seq<Byte>, exchange: Exchange)
  {
    function Op(): Byte { if |request| > 1 then request[1] else 0 }

    /** What check_command makes of it. */
    function Code(errorFirst: bool): int {
      if GoodEvents(exchange.events) then CheckOf(exchange, Op(), errorFirst) else -Serial.EIO
    }

    /** The value field of a successful answer. */
    function Value(): U32 {
      if GoodEvents(exchange.events) then Outcome(exchange, Op(), STATUS_LEN).value else 0
    }

    /** What a command that returns `size` bytes makes of it. */
    function Data(size: nat, exact: bool, errorFirst: bool): (r: (int, seq<Byte>))
      ensures r.0 == 0 ==> |r.1| == size
    {
      if GoodEvents(exchange.events) then QueryOf(exchange, Op(), size, size, exact, errorFirst) else (-Serial.EIO, [])
    }
  }

  lemma DialogueIs(e: Exchange, op: Byte, chk: U32, body: seq<Byte>, errorFirst: bool)
    requires GoodEvents(e.events)
    ensures var d := Dialogue(Request(op, chk, body), e);
      && d.Op() == op && d.Code(errorFirst) == CheckOf(e, op, errorFirst)
      && d.Value() == Outcome(e, op, STATUS_LEN).value
      && forall size: nat, exact: bool :: d.Data(size, exact, errorFirst) == QueryOf(e, op, size, size, exact, errorFirst)
  {
    hide CheckOf, Outcome, QueryOf;
    assert Request(op, chk, body)[1] == op;
  }

  /** A command that returns `size` bytes behind the status, into a buffer for `limit`: an answer of another
      length is an error, unless a longer one is allowed. */
  function QueryOf(e: Exchange, op: Byte, size: nat, limit: nat, exact: bool, errorFirst: bool): (r: (int, seq<Byte>))
    requires GoodEvents(e.events) && size <= limit
    ensures r.0 == 0 ==> |r.1| == size
  {
    var r := Outcome(e, op, STATUS_LEN + limit);
    if r.ret != 0 then (r.ret, [])
    else if Status(errorFirst, r.data, r.len) != 0 then (Status(errorFirst, r.data, r.len), [])
    else if (if exact then r.len != STATUS_LEN + size else r.len < STATUS_LEN + size) then (-Serial.EIO, [])
    else (0, r.data[STATUS_LEN..STATUS_LEN + size])
  }

  /** Frame f answers at position i: everything before it is a frame that fits, is not for this opcode, and
      comes in time. */
  ghost predicate AnsweredAt(ev: seq<Event>, i: nat, op: Byte, f: seq<Byte>) {
    && i < |ev| && ev[i].Got? && ev[i].frame == f && |f| <= MAX_RES_RAW_LEN && Answers(f, op)
    && forall j :: 0 <= j < i ==>
         ev[j].Got? && |ev[j].frame| <= MAX_RES_RAW_LEN && !Answers(ev[j].frame, op) && !ev[j].late
  }

  /** A command takes f for its answer if and only if f is the first fitting answer before the deadline. */
  lemma {:induction false} ReceiveIffAnswered(ev: seq<Event>, op: Byte, f: seq<Byte>)
    requires GoodEvents(ev)
    ensures Receive(ev, op) == Reply(f) ==> exists i: nat :: AnsweredAt(ev, i, op, f)
    ensures (exists i: nat :: AnsweredAt(ev, i, op, f)) ==> Receive(ev, op) == Reply(f)
    decreases |ev|
  {
    if ev != [] {
      ReceiveIffAnswered(ev[1..], op, f);
      forall i: nat | AnsweredAt(ev, i, op, f) ensures Receive(ev, op) == Reply(f) {
        if i > 0 {
          assert ev[0].Got? && !Answers(ev[0].frame, op);
          assert AnsweredAt(ev[1..], i - 1, op, f);
        }
      }
      if Receive(ev, op) == Reply(f) {
        if Answers(ev[0].frame, op) {
          assert AnsweredAt(ev, 0, op, f);
        } else {
          var k: nat :| AnsweredAt(ev[1..], k, op, f);
          forall j | 0 <= j < k + 1
            ensures ev[j].Got? && |ev[j].frame| <= MAX_RES_RAW_LEN && !Answers(ev[j].frame, op) && !ev[j].late
          {
            if j > 0 {
              assert ev[j] == ev[1..][j - 1];
            }
          }
          assert AnsweredAt(ev, k + 1, op, f);
        }
      }
    }
  }

  /** Success means an answer to this opcode that declares no more payload than it carries and whose
      status says so. */
  lemma SuccessIsAnswered(e: Exchange, op: Byte, errorFirst: bool)
    requires GoodEvents(e.events)
    ensures CheckOf(e, op, errorFirst) == 0 <==>
      && e.sendCode >= 0
      && Receive(e.events, op).Reply?
      && var f := Receive(e.events, op).frame;
      && STATUS_LEN <= SizeField(f) <= |f| - HEADER_LEN
      && f[8] == 0
  {
    hide Receive;
  }

  // ---- Replies as the loader lays them out ----

  /** Direction, opcode, payload length and value with the low-order byte first, payload. */
  function ReplyFrame(op: Byte, value: U32, payload: seq<Byte>): (f: seq<Byte>)
    ensures |f| == 8 + |payload|
  {
    [1, op] + LittleEndian(|payload|, 2) + LittleEndian(value, 4) + payload
  }

  /** The exchange brings this reply, perhaps with bytes behind it that it does not declare. */
  ghost predicate Brings(e: Exchange, op: Byte, value: U32, payload: seq<Byte>) {
    && e.sendCode >= 0
    && exists i: nat, more: seq<Byte> :: AnsweredAt(e.events, i, op, ReplyFrame(op, value, payload) + more)
  }

  /** The host reads each field where the loader puts it. */
  lemma ReplyFields(op: Byte, value: U32, payload: seq<Byte>, more: seq<Byte>)
    requires |payload| < 0x1_0000
    ensures var f := ReplyFrame(op, value, payload) + more;
      && Answers(f, op) && SizeField(f) == |payload| && ValueField(f) == value
      && f[HEADER_LEN..HEADER_LEN + |payload|] == payload
  {
    hide FromLittleEndian;
    var f := ReplyFrame(op, value, payload) + more;
    Pow256Four();
    LittleEndianRoundTrip(value, 4);
    assert f[4..8] == LittleEndian(value, 4);
    var n := LittleEndian(|payload|, 2);
    LittleEndianTwo(|payload|);
    assert f[2] == n[0] && f[3] == n[1];
  }

  /** A frame with a header is the reply of its fields if it carries what it declares. */
  lemma FrameIsReply(f: seq<Byte>, op: Byte)
    requires Answers(f, op) && SizeField(f) <= |f| - HEADER_LEN
    ensures var n := SizeField(f) as int;
      f == ReplyFrame(op, ValueField(f), f[HEADER_LEN..HEADER_LEN + n]) + f[HEADER_LEN + n..]
  {
    hide FromLittleEndian, LittleEndian, ReplyFrame, SizeField, ValueField;
    var n := SizeField(f) as int;
    FrameHeader(f);
    FrameParts(f, op, n);
    ReplyIs(op, ValueField(f), f[8..8 + n]);
  }

  lemma FrameHeader(f: seq<Byte>)
    requires |f| >= HEADER_LEN
    ensures LittleEndian(SizeField(f), 2) == f[2..4] && LittleEndian(ValueField(f), 4) == f[4..8]
  {
    hide FromLittleEndian, LittleEndian;
    LittleEndianTwo(SizeField(f));
    BytesBack(f[4..8]);
  }

  lemma FrameParts(f: seq<Byte>, op: Byte, n: nat)
    requires Answers(f, op) && 8 + n <= |f|
    ensures f == ([1, op] + f[2..4] + f[4..8] + f[8..8 + n]) + f[8 + n..]
  {
  }

  lemma ReplyIs(op: Byte, value: U32, payload: seq<Byte>)
    ensures ReplyFrame(op, value, payload) == [1, op] + LittleEndian(|payload|, 2) + LittleEndian(value, 4) + payload
  {
    hide LittleEndian;
  }

  /** A reply is taken as it was laid out: its value, its declared length, and as much of the payload as fits. */
  lemma ReplyRoundTrip(e: Exchange, op: Byte, value: U32, payload: seq<Byte>, limit: nat)
    requires GoodEvents(e.events) && |payload| < 0x1_0000 && Brings(e, op, value, payload)
    ensures Outcome(e, op, limit) == Result(0, value, payload[..Least(|payload|, limit)], |payload|)
  {
    hide Receive, ReplyFrame, SizeField, ValueField;
    var i: nat, more: seq<Byte> :| AnsweredAt(e.events, i, op, ReplyFrame(op, value, payload) + more);
    var f := ReplyFrame(op, value, payload) + more;
    ReceiveIffAnswered(e.events, op, f);
    ReplyFields(op, value, payload, more);
    var n := Least(|payload|, limit);
    assert f[HEADER_LEN..HEADER_LEN + n] == f[HEADER_LEN..HEADER_LEN + |payload|][..n];
  }

  /** What the two leading payload bytes say: the ARCS loader leads with the error code, and it alone counts; everyone
      else leads with the status, and the error code says which failure it was. */
  function StatusBytes(errorFirst: bool, payload: seq<Byte>): int {
    if |payload| < 2 then -Serial.EIO
    else if errorFirst || payload[0] == 0 then payload[0]
    else if payload[1] == 0 then -Serial.EIO
    else payload[1]
  }

  lemma StatusRoundTrip(e: Exchange, op: Byte, value: U32, payload: seq<Byte>, errorFirst: bool)
    requires GoodEvents(e.events) && |payload| < 0x1_0000 && Brings(e, op, value, payload)
    ensures CheckOf(e, op, errorFirst) == StatusBytes(errorFirst, payload)
  {
    hide Brings, Outcome;
    ReplyRoundTrip(e, op, value, payload, STATUS_LEN);
  }

  lemma QueryRoundTrip(e: Exchange, op: Byte, value: U32, payload: seq<Byte>, size: nat, limit: nat, exact: bool,
      errorFirst: bool)
    requires GoodEvents(e.events) && |payload| < 0x1_0000 && Brings(e, op, value, payload) && size <= limit
    ensures QueryOf(e, op, size, limit, exact, errorFirst) ==
      if StatusBytes(errorFirst, payload) != 0 then (StatusBytes(errorFirst, payload), [])
      else if |payload| < 2 + size || (exact && |payload| > 2 + size) then (-Serial.EIO, [])
      else (0, payload[2..2 + size])
  {
    hide Brings, Outcome;
    ReplyRoundTrip(e, op, value, payload, STATUS_LEN + limit);
    if |payload| >= 2 + size {
      assert payload[..Least(|payload|, STATUS_LEN + limit)][2..2 + size] == payload[2..2 + size];
    }
  }

  /** A command succeeds exactly when it gets a reply whose payload is at least a status and leads with 0. */
  lemma SuccessIsReply(e: Exchange, op: Byte, errorFirst: bool)
    requires GoodEvents(e.events)
    ensures CheckOf(e, op, errorFirst) == 0 <==> exists value: U32, payload: seq<Byte> ::
      2 <= |payload| < 0x1_0000 && payload[0] == 0 && Brings(e, op, value, payload)
  {
    hide Brings, Receive, SizeField, ValueField, CheckOf;
    if CheckOf(e, op, errorFirst) == 0 {
      SuccessIsAnswered(e, op, errorFirst);
      var f := Receive(e.events, op).frame;
      var n := SizeField(f) as int;
      var payload := f[HEADER_LEN..HEADER_LEN + n];
      ReceiveIffAnswered(e.events, op, f);
      var i: nat :| AnsweredAt(e.events, i, op, f);
      FrameIsReply(f, op);
      ReplyBrought(e, i, op, ValueField(f), payload, f[HEADER_LEN + n..]);
      assert payload[0] == f[8];
    }
    forall value: U32, payload: seq<Byte> |
      2 <= |payload| < 0x1_0000 && payload[0] == 0 && Brings(e, op, value, payload)
      ensures CheckOf(e, op, errorFirst) == 0
    {
      StatusRoundTrip(e, op, value, payload, errorFirst);
    }
  }

  lemma ReplyBrought(e: Exchange, i: nat, op: Byte, value: U32, payload: seq<Byte>, more: seq<Byte>)
    requires e.sendCode >= 0 && AnsweredAt(e.events, i, op, ReplyFrame(op, value, payload) + more)
    ensures Brings(e, op, value, payload)
  {
  }

  // ---- The environment ----

  class Wire {
    const script: Script
    /** What serial_set_speed returns for a speed, and what the n-th toggling of the reset line returns. */
    const speeds: nat -> int
    const resets: nat -> int
    /** How many more probes fit into a wait that begins with exchange t. */
    const patience: nat -> nat
    var t: nat
    var toggles: nat
    var inbox: seq<Event>
    var acks: seq<int>
    var device: Device
    var speed: nat
    /** Every request so far, and how it went. */
    ghost var log: seq<Dialogue>
    ghost var acked: seq<seq<Byte>>
    /** Whether host and device ran at the same speed at every request so far. */
    ghost var inStep: bool

    ghost predicate Valid()
      reads this
    {
      GoodEvents(inbox) && GoodScript(script)
    }

    constructor (script: Script, speeds: nat -> int, resets: nat -> int, patience: nat -> nat, device: Device)
      requires GoodScript(script)
      ensures Valid() && this.script == script && this.speeds == speeds && this.resets == resets
      ensures this.patience == patience
      ensures t == 0 && this.device == device && log == [] && inStep
    {
      this.script, this.speeds, this.resets, this.patience, this.device := script, speeds, resets, patience, device;
      t, toggles, inbox, acks, speed, log, acked, inStep := 0, 0, [], [], 0, [], [], true;
    }

    /** The exchange that a request opens now. */
    function Next(request: seq<Byte>): Exchange
      reads this
    {
      script(t, device, request)
    }

    /** The request has been added to the log. */
    twostate predicate Spoke(request: seq<Byte>)
      reads this
    {
      log == old(log) + [Dialogue(request, old(Next(request)))]
    }

    /** What has been added to the log. */
    twostate function Talk(): seq<Dialogue>
      requires old(log) <= log
      reads this
    {
      log[|old(log)|..]
    }

    /** One request has gone out, and the device has reacted to it. */
    twostate predicate Exchanged(request: seq<Byte>)
      reads this
    {
      && Valid() && t == old(t) + 1 && toggles == old(toggles)
      && Spoke(request) && speed == old(speed)
      && inStep == (old(inStep) && old(speed) == old(device.speed))
      && device == Reaction(old(Next(request)), old(device), request)
    }

    ghost predicate InStep()
      reads this
    {
      inStep && speed == device.speed
    }

    /** What any number of exchanges without a change of speed leaves: the log grows, and a host in step with
        the device stays in step. */
    twostate predicate Went()
      reads this
    {
      && Valid() && old(t) <= t && toggles == old(toggles) && old(log) <= log
      && device.medium == old(device.medium)
      && speed == old(speed) && (old(InStep()) ==> InStep()) && (inStep ==> old(inStep))
    }

    /** serial_discard_input: what an earlier exchange left behind is flushed. */
    method Discard()
      modifies this`inbox
      ensures inbox == []
    {
      inbox := [];
    }

    /** slip_write of a request that opens the next exchange. */
    method Send(request: seq<Byte>) returns (r: int)
      requires Valid() && Sendable(request)
      modifies this
      ensures Exchanged(request) && acked == []
      ensures var e := old(Next(request));
        inbox == e.events && acks == e.acks && r == if e.sendCode < 0 then e.sendCode else |request|
    {
      hide Carry;
      var e := script(t, device, request);
      inStep := inStep && speed == device.speed;
      device := Reaction(e, device, request);
      t, inbox, acks := t + 1, e.events, e.acks;
      log, acked := log + [Dialogue(request, e)], [];
      r := if e.sendCode < 0 then e.sendCode else |request|;
    }

    /** slip_write of a frame that belongs to the exchange under way. */
    method Ack(frame: seq<Byte>) returns (r: int)
      modifies this`acks, this`acked
      ensures acked == old(acked) + [frame]
      ensures r == if old(acks) == [] then 0 else old(acks)[0]
      ensures acks == if old(acks) == [] then [] else old(acks)[1..]
    {
      r := if |acks| == 0 then 0 else acks[0];
      acks := if |acks| == 0 then [] else acks[1..];
      acked := acked + [frame];
    }

    /** slip_read into the first bytes of a buffer; the bytes behind the frame keep their old contents. */
    method Get(buf: array<Byte>, room: nat) returns (r: int, late: bool)
      requires Valid() && room <= buf.Length
      modifies this`inbox, buf
      ensures Valid()
      ensures if old(inbox) == [] then r == -Serial.ETIMEDOUT && inbox == []
        else
          var e := old(inbox)[0];
          && r == ReadCode(e, room) && late == e.late && inbox == old(inbox)[1..]
          && (r >= 0 ==> buf[..r] == e.frame)
    {
      if |inbox| == 0 {
        return -Serial.ETIMEDOUT, true;
      }
      var e := inbox[0];
      inbox := inbox[1..];
      r, late := ReadCode(e, room), e.late;
      if r >= 0 {
        forall k | 0 <= k < r {
          buf[k] := e.frame[k];
        }
      }
    }

    /** serial_set_speed */
    method SetSpeed(baud: nat) returns (r: int)
      modifies this`speed
      ensures r == speeds(baud) && speed == if r == 0 then baud else old(speed)
    {
      r := speeds(baud);
      if r == 0 {
        speed := baud;
      }
    }

    /** do_reset: the chip starts its ROM, which talks at the initial speed; nothing happens when the line
        cannot be driven. */
    method Reset() returns (r: int)
      modifies this`toggles, this`device
      ensures toggles == old(toggles) + 1 && r == resets(old(toggles))
      ensures device == if r == 0 then old(device).(speed := BAUD_RATE_INIT) else old(device)
    {
      r := resets(toggles);
      toggles := toggles + 1;
      if r == 0 {
        device := device.(speed := BAUD_RATE_INIT);
      }
    }
  }

  // ---- The host ----

  datatype Chip = Castor | Venus | Arcs | VenusA

  class Host {
    const wire: Wire
    const req: array<Byte>
    const res: array<Byte>
    const chip: Chip
    var loaderRunning: bool
    var readStream: bool
    var layoutQueried: bool

    ghost function Repr(): set<object> { {this, wire, req, res} }

    ghost predicate Valid()
      reads this, wire
    {
      && req.Length == MAX_REQ_RAW_LEN && res.Length == MAX_RES_RAW_LEN && req != res
      && wire.Valid()
    }

    predicate ErrorFirst()
      reads this
    {
      loaderRunning && chip == Arcs
    }

    constructor (wire: Wire, chip: Chip)
      requires wire.Valid()
      ensures Valid() && this.wire == wire && this.chip == chip && fresh(req) && fresh(res)
      ensures !loaderRunning && !readStream && !layoutQueried
    {
      this.wire, this.chip := wire, chip;
      loaderRunning, readStream, layoutQueried := false, false, false;
      req := new Byte[MAX_REQ_RAW_LEN](_ => 0);
      res := new Byte[MAX_RES_RAW_LEN](_ => 0);
      new;
      DistinctBuffers();
    }

    lemma DistinctBuffers()
      requires req.Length == MAX_REQ_RAW_LEN && res.Length == MAX_RES_RAW_LEN
      ensures req != res
    {
    }

    /** command_recv */
    method CommandRecv(op: Byte) returns (r: int)
      requires Valid()
      modifies wire`inbox, res
      ensures Valid()
      ensures match Receive(old(wire.inbox), op)
        case NoReply(code) => r == code < 0
        case Reply(f) => r == |f| <= res.Length && res[..r] == f
    {
      ghost var ev := wire.inbox;
      while true
        invariant Valid() && Receive(wire.inbox, op) == Receive(ev, op)
        decreases |wire.inbox|
      {
        ghost var now := wire.inbox;
        var late;
        r, late := wire.Get(res, MAX_RES_RAW_LEN);
        if r < 0 {
          return;
        }
        assert res[..r] == now[0].frame;
        if r >= HEADER_LEN && res[0] == DIR_RES && res[1] == op {
          return;
        }
        if late {
          return -Serial.ETIMEDOUT;
        }
      }
    }

    /** The header goes in front of the body. */
    method PutHeader(op: Byte, len: nat, chk: U32, ghost body: seq<Byte>)
      requires Valid() && HEADER_LEN + len <= MAX_REQ_RAW_LEN && |body| == len
      requires req[HEADER_LEN..HEADER_LEN + len] == body
      modifies req
      ensures req[..HEADER_LEN + len] == Request(op, chk, body)
    {
      hide LittleEndian;
      var header := [DIR_REQ, op] + LittleEndian(len, 2) + LittleEndian(chk, 4);
      forall k | 0 <= k < HEADER_LEN {
        req[k] := header[k];
      }
      assert req[..HEADER_LEN] == header && req[HEADER_LEN..HEADER_LEN + len] == body;
      assert req[..HEADER_LEN + len] == req[..HEADER_LEN] + req[HEADER_LEN..HEADER_LEN + len];
    }

    lemma Sends(op: Byte, chk: U32, body: seq<Byte>)
      requires IsOpcode(op) && HEADER_LEN + |body| <= MAX_REQ_RAW_LEN
      ensures Sendable(Request(op, chk, body))
    {
    }

    /** The request in req, of which the body has been filled in, is sent as the next exchange. */
    method SendRequest(op: Byte, len: nat, chk: U32, ghost body: seq<Byte>) returns (r: int)
      requires Valid() && IsOpcode(op) && HEADER_LEN + len <= MAX_REQ_RAW_LEN && |body| == len
      requires req[HEADER_LEN..HEADER_LEN + len] == body
      modifies wire, req
      ensures Valid() && wire.Exchanged(Request(op, chk, body)) && wire.acked == []
      ensures var e := old(wire.Next(Request(op, chk, body)));
        wire.inbox == e.events && wire.acks == e.acks && (r < 0 <==> e.sendCode < 0) && (r < 0 ==> r == e.sendCode)
    {
      hide Carry, Request;
      PutHeader(op, len, chk, body);
      Sends(op, chk, body);
      wire.Discard();
      r := wire.Send(req[..HEADER_LEN + len]);
    }

    /** The fields of the response in the buffer. */
    method ReadHeader(n: nat) returns (size: U16, value: U32)
      requires HEADER_LEN <= n <= res.Length
      ensures size == SizeField(res[..n]) && value == ValueField(res[..n])
    {
      ghost var f := res[..n];
      assert res[4..8] == f[4..8];
      ValueIs(f);
      size, value := Word(res[3], res[2]), FromLittleEndian(res[4..8]);
    }

    /** The memcpy of a payload out of the receive buffer. */
    method CopyOut(out: array<Byte>, n: nat, ghost f: seq<Byte>)
      requires n <= out.Length && HEADER_LEN + n <= |f| <= res.Length && f == res[..|f|] && out != res
      modifies out
      ensures out[..n] == f[HEADER_LEN..HEADER_LEN + n]
    {
      ghost var payload := f[HEADER_LEN..HEADER_LEN + n];
      assert forall k :: 0 <= k < n ==> payload[k] == res[HEADER_LEN + k];
      forall k | 0 <= k < n {
        out[k] := res[HEADER_LEN + k];
      }
    }

    /** command: the result depends on the frames of this exchange alone, whatever the buffers held before. */
    method Command(op: Byte, len: nat, chk: U32, ghost body: seq<Byte>, out: array<Byte>, limit: nat)
      returns (ret: int, value: U32, outLen: U16)
      requires Valid() && IsOpcode(op) && HEADER_LEN + len <= MAX_REQ_RAW_LEN && |body| == len
      requires req[HEADER_LEN..HEADER_LEN + len] == body
      requires out != req && out != res && limit <= out.Length
      modifies wire, req, res, out
      ensures Valid() && wire.inbox == [] && wire.Exchanged(Request(op, chk, body))
      ensures var r := Outcome(old(wire.Next(Request(op, chk, body))), op, limit);
        ret == r.ret && (ret == 0 ==> value == r.value && outLen == r.len && out[..|r.data|] == r.data)
    {
      hide Receive, Carry, Reaction, Request, SizeField, ValueField;
      value, outLen := 0, 0;
      ret := SendRequest(op, len, chk, body);
      if ret >= 0 {
        ret := CommandRecv(op);
        if ret >= 0 {
          ghost var f := res[..ret];
          var size;
          size, value := ReadHeader(ret);
          if size > ret - HEADER_LEN {
            ret := -Serial.EIO;
          } else {
            var n := Least(size, limit);
            CopyOut(out, n, f);
            outLen := size;
            ret := 0;
          }
        }
      }
      wire.Discard();
    }

    /** response_status on the first two bytes of a reply. */
    method ResponseStatus(data: array<Byte>, len: U16) returns (ret: int)
      requires len >= STATUS_LEN ==> data.Length >= STATUS_LEN
      ensures ret == 0 <==> len >= STATUS_LEN && data[0] == 0
      ensures ret == Status(ErrorFirst(), data[..], len)
    {
      if len < STATUS_LEN {
        return -Serial.EIO;
      }
      var errorFirst := ErrorFirst();
      var error := data[if errorFirst then 0 else 1];
      var status := data[if errorFirst then 1 else 0];
      if if errorFirst then error != 0 else status != 0 {
        return if error != 0 then error else -Serial.EIO;
      }
      return 0;
    }

    /** check_command */
    method CheckCommand(op: Byte, len: nat, chk: U32, ghost body: seq<Byte>) returns (ret: int, value: U32)
      requires Valid() && IsOpcode(op) && HEADER_LEN + len <= MAX_REQ_RAW_LEN && |body| == len
      requires req[HEADER_LEN..HEADER_LEN + len] == body
      modifies wire, req, res
      ensures Valid() && wire.inbox == [] && wire.Exchanged(Request(op, chk, body))
      ensures ret == CheckOf(old(wire.Next(Request(op, chk, body))), op, ErrorFirst())
      ensures ret == 0 ==> value == Outcome(old(wire.Next(Request(op, chk, body))), op, STATUS_LEN).value
    {
      hide ResultOf, Carry, Reaction, Request;
      var out := new Byte[STATUS_LEN];
      var outLen;
      ret, value, outLen := Command(op, len, chk, body, out, STATUS_LEN);
      if ret == 0 {
        ghost var r := Outcome(old(wire.Next(Request(op, chk, body))), op, STATUS_LEN);
        if outLen >= STATUS_LEN {
          assert out[..] == out[..STATUS_LEN] == r.data;
        }
        ret := ResponseStatus(out, outLen);
      }
    }

    /** A request body is laid out behind the header. */
    method PutBody(body: seq<Byte>)
      requires Valid() && HEADER_LEN + |body| <= MAX_REQ_RAW_LEN
      modifies req
      ensures Valid() && req[HEADER_LEN..HEADER_LEN + |body|] == body
    {
      forall k | 0 <= k < |body| {
        req[HEADER_LEN + k] := body[k];
      }
    }

    /** A command whose body carries no data: begin, end, erase, lock and the like. */
    method Simple(op: Byte, body: seq<Byte>) returns (ret: int, value: U32)
      requires Valid() && IsOpcode(op) && |body| <= 16
      modifies wire, req, res
      ensures Valid() && wire.inbox == [] && wire.Exchanged(Request(op, 0, body))
      ensures ret == CheckOf(old(wire.Next(Request(op, 0, body))), op, ErrorFirst())
      ensures ret == 0 ==> value == Outcome(old(wire.Next(Request(op, 0, body))), op, STATUS_LEN).value
    {
      hide CheckOf, Outcome, Carry, Reaction, Request;
      PutBody(body);
      ret, value := CheckCommand(op, |body|, 0, body);
    }

    /** cmd_sync: any answer will do. */
    method Sync() returns (ret: int)
      requires Valid()
      modifies wire, req, res
      ensures Valid() && wire.inbox == [] && wire.Exchanged(Request(CMD_SYNC, 0, SyncBody()))
      ensures ret == SyncOf(old(wire.Next(Request(CMD_SYNC, 0, SyncBody()))))
    {
      hide Carry, Reaction, Request, SyncBody, Receive;
      var body := SyncBody();
      PutBody(body);
      ret := SendRequest(CMD_SYNC, |body|, 0, body);
      if ret >= 0 {
        ret := CommandRecv(CMD_SYNC);
        if ret >= 0 {
          ret := 0;
        }
      }
      wire.Discard();
    }

    /** The loop of checksum(). */
    method ComputeChecksum(data: seq<Byte>) returns (state: Byte)
      ensures state == Checksum(data)
    {
      state := 0xEF;
      for i := 0 to |data|
        invariant state == Checksum(data[..i])
      {
        assert data[..i + 1][..i] == data[..i];
        state := ((state as bv8) ^ (data[i] as bv8)) as Byte;
      }
      assert data[..|data|] == data;
    }

    /** cmd_flash_block, cmd_nand_block, cmd_mem_block and cmd_emmc_block */
    method Block(op: Byte, data: seq<Byte>, seqNo: U32) returns (ret: int)
      requires Valid() && IsOpcode(op) && |data| <= FLASH_BLOCK_SIZE
      modifies wire, req, res
      ensures Valid() && wire.inbox == []
      ensures wire.Exchanged(BlockRequest(op, data, seqNo))
      ensures ret == CheckOf(old(wire.Next(BlockRequest(op, data, seqNo))), op, ErrorFirst())
    {
      hide CheckOf, Outcome, Carry, Reaction, Request, Checksum;
      var body := BlockBody(seqNo, data);
      PutBody(body);
      var chk := ComputeChecksum(data);
      var value;
      ret, value := CheckCommand(op, |body|, chk, body);
    }

    /** The commands that return data behind the status: chip id, flash layout, digests, blocks of memory. */
    method Query(op: Byte, body: seq<Byte>, size: nat, limit: nat, exact: bool) returns (ret: int, data: seq<Byte>)
      requires Valid() && IsOpcode(op) && |body| <= 16 && size <= limit <= FLASH_BLOCK_SIZE
      modifies wire, req, res
      ensures Valid() && wire.inbox == [] && wire.Exchanged(Request(op, 0, body))
      ensures (ret, data) == QueryOf(old(wire.Next(Request(op, 0, body))), op, size, limit, exact, ErrorFirst())
    {
      hide ResultOf, Carry, Reaction, Request;
      data := [];
      PutBody(body);
      var out := new Byte[STATUS_LEN + limit];
      var value, outLen;
      ret, value, outLen := Command(op, |body|, 0, body, out, STATUS_LEN + limit);
      if ret != 0 {
        return;
      }
      ghost var r := Outcome(old(wire.Next(Request(op, 0, body))), op, STATUS_LEN + limit);
      ghost var n := |r.data|;
      assert out[..n] == r.data;
      StatusReads(ErrorFirst(), r.data, out[..], outLen);
      ret := ResponseStatus(out, outLen);
      if ret != 0 {
        return;
      }
      if if exact then outLen != STATUS_LEN + size else outLen < STATUS_LEN + size {
        return -Serial.EIO, [];
      }
      data := out[STATUS_LEN..STATUS_LEN + size];
      assert data == r.data[STATUS_LEN..STATUS_LEN + size];
    }

    /** cmd_read_flash (at most 64 bytes) and cmd_read_emmc (at most 4096). */
    method ReadBlock(op: Byte, addr: U32, size: U32, limit: nat) returns (ret: int, data: seq<Byte>)
      requires Valid() && IsOpcode(op) && limit <= FLASH_BLOCK_SIZE
      modifies wire, req, res
      ensures Valid()
      ensures size == 0 || size > limit ==> (ret, data) == (-Serial.EINVAL, []) && unchanged(wire)
      ensures 0 < size <= limit ==>
        && wire.inbox == [] && wire.Exchanged(Request(op, 0, RangeBody(addr, size)))
        && (ret, data) == QueryOf(old(wire.Next(Request(op, 0, RangeBody(addr, size)))), op, size, limit, true, ErrorFirst())
    {
      hide QueryOf, Reaction, Request;
      if size == 0 || size > limit {
        return -Serial.EINVAL, [];
      }
      ret, data := Query(op, RangeBody(addr, size), size, limit, true);
    }
  }

  /** The result of a probe. */
  function SyncOf(e: Exchange): int
    requires GoodEvents(e.events)
  {
    if e.sendCode < 0 then e.sendCode
    else match Receive(e.events, CMD_SYNC) case NoReply(code) => code case Reply(_) => 0
  }

  function SyncBody(): (b: seq<Byte>)
    ensures |b| == 36
  {
    [0x07, 0x07, 0x12, 0x20] + seq(32, _ => 0x55)
  }

  function BlockRequest(op: Byte, data: seq<Byte>, seqNo: U32): seq<Byte> {
    Request(op, Checksum(data), BlockBody(seqNo, data))
  }

  lemma StatusReads(errorFirst: bool, data: seq<Byte>, more: seq<Byte>, len: U16)
    requires data <= more && (len >= STATUS_LEN ==> |data| >= STATUS_LEN)
    ensures Status(errorFirst, data, len) == Status(errorFirst, more, len)
  {
  }

  lemma ValueIs(f: seq<Byte>)
    requires |f| >= HEADER_LEN
    ensures FromLittleEndian(f[4..8]) < 0x1_0000_0000
  {
    FromLittleEndianRange(f[4..8]);
    Pow256Four();
  }
}
