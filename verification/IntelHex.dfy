/** The resumable Intel HEX parser: one character at a time, with exits in the middle of a file. */
module IntelHex {
  import opened Bytes

  const LINE_LEN := 0x25
  const DATA_LEN := LINE_LEN - 5

  const CR: Byte := 13
  const LF: Byte := 10
  const COLON: Byte := 58

  datatype Status = Ok | Eof | Unaligned | LineOverrun | ChecksumFail

  /** The static variables of the parser. */
  datatype Parser = Parser(line: seq<Byte>, next: U32, low: bool, idx: Byte, processed: bool,
                           load: bool, version: U16, skip: bool)
  {
    predicate Valid() {
      && |line| == LINE_LEN
      && (load ==> line[0] <= DATA_LEN)
    }

    function Count(): Byte requires Valid() { line[0] }

    /** The little-endian view of the address field; after the byte swap it is the record's address. */
    function Address(): U16 requires Valid() { Word(line[2], line[1]) }

    function Data(): seq<Byte>
      requires Valid() && line[0] <= DATA_LEN
    {
      line[4..4 + line[0]]
    }
  }

  const FRESH: Parser := Parser(Zeros(LINE_LEN), 0, false, 0, false, false, 0, false)

  /** ctoh: bit 4 of the character tells a decimal digit from a letter. */
  function Ctoh(c: Byte): Byte {
    if c / 0x10 % 2 == 1 then c % 0x10 else c % 0x10 + 9
  }

  function OrBit(a: int, b: int, w: int): int
    requires w > 0
  {
    if a / w % 2 == 1 || b / w % 2 == 1 then w else 0
  }

  /** b | n for a value n of four bits. */
  function OrNibble(b: Byte, n: int): (r: Byte)
    requires 0 <= n < 16
    ensures b % 16 == 0 ==> r == b + n
  {
    b / 16 * 16 + OrBit(b, n, 8) + OrBit(b, n, 4) + OrBit(b, n, 2) + OrBit(b, n, 1)
  }

  predicate Bit(x: int, w: int)
    requires w > 0
  {
    x / w % 2 == 1
  }

  /** OrNibble is the bitwise or of the four low bits, whatever the byte held, and keeps the others. */
  lemma OrNibbleBits(b: Byte, n: int)
    requires 0 <= n < 16
    ensures var r := OrNibble(b, n);
      && r / 16 == b / 16
      && (Bit(r, 1) <==> Bit(b, 1) || Bit(n, 1)) && (Bit(r, 2) <==> Bit(b, 2) || Bit(n, 2))
      && (Bit(r, 4) <==> Bit(b, 4) || Bit(n, 4)) && (Bit(r, 8) <==> Bit(b, 8) || Bit(n, 8))
  {
    hide OrBit;
    var b3, b2, b1, b0 := OrBit(b, n, 8), OrBit(b, n, 4), OrBit(b, n, 2), OrBit(b, n, 1);
    OrBitIs(b, n, 8);
    OrBitIs(b, n, 4);
    OrBitIs(b, n, 2);
    OrBitIs(b, n, 1);
    BitsOf(b / 16, b3, b2, b1, b0);
  }

  lemma OrBitIs(a: int, b: int, w: int)
    requires w > 0
    ensures OrBit(a, b, w) == if Bit(a, w) || Bit(b, w) then w else 0
  {
  }

  lemma BitsOf(h: int, b3: int, b2: int, b1: int, b0: int)
    requires b3 in {0, 8} && b2 in {0, 4} && b1 in {0, 2} && b0 in {0, 1}
    ensures var r := h * 16 + b3 + b2 + b1 + b0;
      && r / 16 == h && (Bit(r, 8) <==> b3 == 8) && (Bit(r, 4) <==> b2 == 4) && (Bit(r, 2) <==> b1 == 2)
      && (Bit(r, 1) <==> b0 == 1)
  {
    var r := h * 16 + b3 + b2 + b1 + b0;
    var d3, d2, d1 := if b3 == 8 then 1 else 0, if b2 == 4 then 1 else 0, if b1 == 2 then 1 else 0;
    BitIs(r, 8, h, d3, b2 + b1 + b0);
    BitIs(r, 4, 2 * h + d3, d2, b1 + b0);
    BitIs(r, 2, 4 * h + 2 * d3 + d2, d1, b0);
    BitIs(r, 1, 8 * h + 4 * d3 + 2 * d2 + d1, b0, 0);
  }

  /** The bit of weight w, with what is above and below it. */
  lemma BitIs(r: int, w: int, above: int, bit: int, below: int)
    requires w in {1, 2, 4, 8} && bit in {0, 1} && 0 <= below < w && r == w * (2 * above + bit) + below
    ensures (Bit(r, w) <==> bit == 1) && (w == 8 ==> r / 16 == above)
  {
    assert r / w == 2 * above + bit;
  }

  function Sum(s: seq<Byte>): int {
    if s == [] then 0 else Sum(s[..|s| - 1]) + s[|s| - 1]
  }

  function Upper(a: U32): U32 { a / 0x1_0000 * 0x1_0000 }

  /** What one character does: the scan goes on, or the call returns. `mark` is the value that the
      returned buffer address counts back from; `taken` says whether the character was consumed. */
  datatype Step =
    | Go(p: Parser, out: seq<Byte>)
    | Exit(p: Parser, status: Status, taken: bool, mark: U32)

  function Swapped(line: seq<Byte>): (r: seq<Byte>)
    requires |line| == LINE_LEN
    ensures |r| == LINE_LEN
  {
    line[1 := line[2]][2 := line[1]]
  }

  /** Acts on a complete record that has not been processed yet. */
  function Dispatch(p: Parser): (s: Step)
    requires p.Valid() && p.Count() <= DATA_LEN
    ensures s.p.Valid()
  {
    match p.line[3]
    case 0x0A => Go(p.(version := Word(p.line[4], p.line[5]), low := false), [])
    case 1 => Exit(p, Eof, false, p.next)
    case 2 => Exit(p.(next := Word(p.line[4], p.line[5]) as int * 0x10), Unaligned, false, p.next)
    case 4 => Exit(p.(next := Word(p.line[4], p.line[5]) as int * 0x1_0000), Unaligned, false, p.next)
    case t =>
      if t != 0 && t != 0x0D then Go(p.(low := false), [])
      else if p.version != 0 then Exit(p.(skip := true), Ok, false, p.next)
      else if Upper(p.next) + p.Address() != p.next then
        Exit(p.(load := true), Unaligned, true, p.next)
      else Go(p.(load := false, low := false, next := Wrap(p.next + p.Count() as int)), p.Data())
  }

  function StepChar(p: Parser, c: Byte): (s: Step)
    requires p.Valid() && !p.load
    ensures s.p.Valid()
  {
    if c == CR || c == LF then Go(p, [])
    else if c == COLON then Go(p.(line := Zeros(LINE_LEN), low := false, idx := 0, processed := false), [])
    else if !p.low then
      Go(p.(line := Put(p, Ctoh(c) * 0x10 % 0x100), low := true), [])
    else Complete(Latch(p, c))
  }

  /** The second digit of a byte goes into its low nibble, and the index moves on. */
  function Latch(p: Parser, c: Byte): (q: Parser)
    requires p.Valid() && !p.load
    ensures q.Valid()
  {
    p.(line := Put(p, OrNibble(if p.idx < LINE_LEN then p.line[p.idx] else 0, Ctoh(c) % 0x10)),
       idx := (p.idx + 1) % 0x100)
  }

  /** line.buf[idx] = b, when idx is inside the line buffer. */
  function Put(p: Parser, b: Byte): (line: seq<Byte>)
    requires p.Valid()
    ensures |line| == LINE_LEN
  {
    if p.idx < LINE_LEN then p.line[p.idx := b] else p.line
  }

  /** A byte of the line is complete; when it is the last one the record takes effect. */
  function Complete(q: Parser): (s: Step)
    requires q.Valid() && !q.load
    ensures s.p.Valid()
  {
    if q.Count() > DATA_LEN then Exit(q, LineOverrun, false, q.next)
    else if q.idx < q.Count() + 5 then Go(q.(low := false), [])
    else if Sum(q.line[..q.Count() + 5]) % 0x100 != 0 then Exit(q, ChecksumFail, false, q.next)
    else if q.processed then Go(q.(low := false), [])
    else Dispatch(q.(processed := true, line := Swapped(q.line)))
  }

  /** The result of one call: new state, status, characters consumed, bytes delivered. */
  datatype Call = Call(p: Parser, status: Status, parsed: nat, out: seq<Byte>, mark: U32)
  {
    function Addr(): U32 { Wrap(mark - |out|) }

    function Prepend(b: seq<Byte>): Call { this.(out := b + out) }
  }

  function Scan(p: Parser, s: seq<Byte>): (r: Call)
    requires p.Valid() && !p.load
    ensures r.p.Valid() && r.parsed <= |s|
    decreases |s|
  {
    if s == [] then Call(p, Ok, 0, [], p.next)
    else
      match StepChar(p, s[0])
      case Exit(q, status, taken, mark) => Call(q, status, if taken then 1 else 0, [], mark)
      case Go(q, out) =>
        var r := Scan(q, s[1..]);
        Call(r.p, r.status, r.parsed + 1, out + r.out, r.mark)
  }

  /** The record left over by an unaligned exit enters the buffer first. */
  function Resume(p: Parser): (q: Parser)
    requires p.Valid()
    ensures q.Valid() && !q.load
  {
    if p.load then p.(load := false, next := Wrap(Upper(p.next) + p.Address() + p.Count())) else p
  }

  function Pending(p: Parser): seq<Byte>
    requires p.Valid()
  {
    if p.load then p.Data() else []
  }

  function ParseBlob(p: Parser, s: seq<Byte>): (r: Call)
    requires p.Valid() && (p.skip ==> |s| > 0)
    ensures r.p.Valid() && r.parsed <= |s|
  {
    if p.skip && s[0] != COLON then Call(p, Ok, 0, [], p.next)
    else
      Scan(Resume(p.(skip := false)), s).Prepend(Pending(p))
  }
}
