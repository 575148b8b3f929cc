/** The frames of the serial protocol: requests as the host builds them and as the device reads them. */
module Protocol {
  import opened Bytes
  import opened FlashMemory
  import SlipSpec

  const CMD_FLASH_BEGIN: Byte := 0x02
  const CMD_FLASH_DATA: Byte := 0x03
  const CMD_FLASH_END: Byte := 0x04
  const CMD_MEM_BEGIN: Byte := 0x05
  const CMD_MEM_END: Byte := 0x06
  const CMD_MEM_DATA: Byte := 0x07
  const CMD_SYNC: Byte := 0x08
  const CMD_READ_FLASH: Byte := 0x0E
  const CMD_CHANGE_BAUDRATE: Byte := 0x0F
  const CMD_SPI_FLASH_MD5: Byte := 0x13
  const CMD_NAND_INIT: Byte := 0x20
  const CMD_NAND_BEGIN: Byte := 0x21
  const CMD_NAND_DATA: Byte := 0x22
  const CMD_NAND_END: Byte := 0x23
  const CMD_NAND_MD5: Byte := 0x24
  const CMD_SET_SYS_CLK: Byte := 0x31
  const CMD_EMMC_READ_CARD_INFO: Byte := 0x41
  const CMD_EMMC_BEGIN: Byte := 0x42
  const CMD_EMMC_DATA: Byte := 0x43
  const CMD_EMMC_END: Byte := 0x44
  const CMD_EMMC_MD5: Byte := 0x45
  const CMD_EMMC_READ_DATA: Byte := 0x46
  const CMD_EMMC_ERASE_DATA: Byte := 0x47
  const CMD_FLASH_ERASE_CHIP: Byte := 0xD0
  const CMD_FLASH_ERASE_REGION: Byte := 0xD1
  const CMD_READ_FLASH_STREAM: Byte := 0xD2
  const CMD_FLASH_LOCK: Byte := 0xD4
  const CMD_FLASH_UNLOCK: Byte := 0xD5
  const CMD_GET_FLASH_PROTECTION: Byte := 0xD6
  const CMD_READ_FLASH_ID: Byte := 0xF3
  const CMD_READ_CHIP_ID: Byte := 0xF4
  const CMD_SET_FLASH_INDEX: Byte := 0xF5
  const CMD_GET_FLASH_LAYOUT: Byte := 0xF6

  const DIR_REQ: Byte := 0
  const DIR_RES: Byte := 1

  const HEADER_LEN: nat := 8
  const STATUS_LEN: nat := 2
  const FLASH_BLOCK_SIZE: nat := 4096
  const MAX_REQ_RAW_LEN: nat := 8 + 16 + 4096
  const MAX_RES_RAW_LEN: nat := 8 + 2 + 4096
  const MD5_LEN: nat := 16

  function FromLittleEndian(b: seq<Byte>): nat {
    if b == [] then 0 else b[0] + 0x100 * FromLittleEndian(b[1..])
  }

  lemma {:induction false} LittleEndianRoundTrip(v: nat, n: nat)
    requires v < Pow256(n)
    ensures FromLittleEndian(LittleEndian(v, n)) == v
  {
    if n > 0 {
      LittleEndianRoundTrip(v / 0x100, n - 1);
    }
  }

  lemma {:induction false} FromLittleEndianRange(b: seq<Byte>)
    ensures FromLittleEndian(b) < Pow256(|b|)
  {
    if b != [] {
      FromLittleEndianRange(b[1..]);
    }
  }

  /** Two bytes, the low-order one first. */
  lemma LittleEndianTwo(v: nat)
    ensures LittleEndian(v, 2) == [v % 0x100, v / 0x100 % 0x100]
  {
    assert LittleEndian(v / 0x100, 1) == [v / 0x100 % 0x100] + LittleEndian(v / 0x100 / 0x100, 0);
  }

  lemma {:induction false} BytesBack(b: seq<Byte>)
    ensures LittleEndian(FromLittleEndian(b), |b|) == b
  {
    if b != [] {
      BytesBack(b[1..]);
      assert FromLittleEndian(b) % 0x100 == b[0] && FromLittleEndian(b) / 0x100 == FromLittleEndian(b[1..]);
    }
  }

  lemma Pow256Two()
    ensures Pow256(2) == 0x1_0000
  {
  }

  /** checksum(): the bytes of the data folded into 0xEF by exclusive or. */
  function Checksum(data: seq<Byte>): Byte {
    if data == [] then 0xEF
    else ((Checksum(data[..|data| - 1]) as bv8) ^ (data[|data| - 1] as bv8)) as Byte
  }

  /** The sum of no bytes, and of one. */
  lemma ChecksumOf()
    ensures Checksum([]) == 0xEF && Checksum([0x12]) == 0xFD
  {
    var one: seq<Byte> := [0x12];
    assert one[..0] == [];
  }

  /** A request frame: direction, opcode, body length, checksum, body. */
  function Request(op: Byte, chk: U32, body: seq<Byte>): (r: seq<Byte>)
    ensures |r| == HEADER_LEN + |body|
  {
    [DIR_REQ, op] + LittleEndian(|body|, 2) + LittleEndian(chk, 4) + body
  }

  datatype Parsed = Parsed(op: Byte, chk: U32, body: seq<Byte>) | Malformed

  /** The device's reading of a request frame. */
  function ParseRequest(r: seq<Byte>): Parsed {
    if |r| < HEADER_LEN || r[0] != DIR_REQ || FromLittleEndian(r[2..4]) != |r| - HEADER_LEN then Malformed
    else
      FromLittleEndianRange(r[4..8]);
      Pow256Four();
      Parsed(r[1], FromLittleEndian(r[4..8]), r[8..])
  }

  lemma RequestRoundTrip(op: Byte, chk: U32, body: seq<Byte>)
    requires |body| < 0x1_0000
    ensures ParseRequest(Request(op, chk, body)) == Parsed(op, chk, body)
  {
    var r := Request(op, chk, body);
    Pow256Two();
    Pow256Four();
    LittleEndianRoundTrip(|body|, 2);
    LittleEndianRoundTrip(chk, 4);
    assert r[2..4] == LittleEndian(|body|, 2) && r[4..8] == LittleEndian(chk, 4) && r[8..] == body;
  }

  /** The opcodes of the protocol. */
  predicate IsOpcode(op: Byte) {
    || op in {CMD_FLASH_BEGIN, CMD_FLASH_DATA, CMD_FLASH_END, CMD_MEM_BEGIN, CMD_MEM_END, CMD_MEM_DATA, CMD_SYNC}
    || op in {CMD_READ_FLASH, CMD_CHANGE_BAUDRATE, CMD_SPI_FLASH_MD5, CMD_SET_SYS_CLK, CMD_READ_FLASH_STREAM}
    || op in {CMD_NAND_INIT, CMD_NAND_BEGIN, CMD_NAND_DATA, CMD_NAND_END, CMD_NAND_MD5}
    || op in {CMD_EMMC_READ_CARD_INFO, CMD_EMMC_BEGIN, CMD_EMMC_DATA, CMD_EMMC_END, CMD_EMMC_MD5}
    || op in {CMD_EMMC_READ_DATA, CMD_EMMC_ERASE_DATA}
    || op in {CMD_FLASH_ERASE_CHIP, CMD_FLASH_ERASE_REGION, CMD_FLASH_LOCK, CMD_FLASH_UNLOCK, CMD_GET_FLASH_PROTECTION}
    || op in {CMD_READ_FLASH_ID, CMD_READ_CHIP_ID, CMD_SET_FLASH_INDEX, CMD_GET_FLASH_LAYOUT}
  }

  /** What the host sends: requests of the protocol that fit the request buffer. */
  predicate Sendable(r: seq<Byte>) {
    HEADER_LEN <= |r| <= MAX_REQ_RAW_LEN && r[0] == DIR_REQ && IsOpcode(r[1])
  }

  /** The transmit buffer is twice the largest request, although a frame may need two bytes more than twice
      its payload: the direction and every opcode go out unstuffed. */
  lemma RequestFits(r: seq<Byte>)
    requires Sendable(r)
    ensures |SlipSpec.Encode(r)| <= 2 * MAX_REQ_RAW_LEN
  {
    SlipSpec.EncodedSize(r);
  }

  /** Likewise for a reply of full size; a raw frame of one data block leaves room to spare. */
  lemma ReplyFits(p: seq<Byte>)
    requires |p| <= MAX_RES_RAW_LEN
    requires (|p| >= 2 && p[0] == DIR_RES && IsOpcode(p[1])) || |p| <= FLASH_BLOCK_SIZE
    ensures |SlipSpec.Encode(p)| <= 2 * MAX_RES_RAW_LEN
  {
    SlipSpec.EncodedSize(p);
  }

  /** The body of a data block: length, sequence number, two reserved words, data. */
  function BlockBody(seqNo: U32, data: seq<Byte>): seq<Byte> {
    LittleEndian(|data|, 4) + LittleEndian(seqNo, 4) + LittleEndian(0, 8) + data
  }

  /** The body of a begin command. */
  function BeginBody(size: U32, blocks: U32, blockSize: U32, offset: U32): (b: seq<Byte>)
    ensures |b| == 16
  {
    LittleEndian(size, 4) + LittleEndian(blocks, 4) + LittleEndian(blockSize, 4) + LittleEndian(offset, 4)
  }

  function RangeBody(addr: U32, size: U32): (b: seq<Byte>)
    ensures |b| == 8
  {
    LittleEndian(addr, 4) + LittleEndian(size, 4)
  }

  // ---- The device ----

  const BAUD_RATE_INIT: nat := 115200
  const OPTION_REBOOT: U32 := 0
  const OPTION_JUMP: U32 := 1
  const OPTION_RUN: U32 := 2

  /** A memory that is burned, with the start address and the block size that the last begin command announced. */
  datatype Bank = Bank(bytes: Flash, base: int, unit: int)

  /** The storage being burned and what writing does to it, the RAM, and the speed of the serial port. */
  datatype Device = Device(store: Bank, medium: Medium, ram: Bank, speed: nat)

  predicate IsBegin(op: Byte) { op in {CMD_FLASH_BEGIN, CMD_NAND_BEGIN, CMD_MEM_BEGIN, CMD_EMMC_BEGIN} }
  predicate IsData(op: Byte) { op in {CMD_FLASH_DATA, CMD_NAND_DATA, CMD_MEM_DATA, CMD_EMMC_DATA} }
  predicate IsErase(op: Byte) { op in {CMD_FLASH_ERASE_REGION, CMD_EMMC_ERASE_DATA} }

  /** Opcodes that leave the device as it is. */
  predicate IsHarmless(op: Byte) {
    !IsBegin(op) && !IsData(op) && !IsErase(op)
    && op !in {CMD_FLASH_ERASE_CHIP, CMD_CHANGE_BAUDRATE, CMD_MEM_END}
  }

  /** The memory that a begin or data command is for. */
  function BankOf(d: Device, inRam: bool): Bank { if inRam then d.ram else d.store }

  function WithBank(d: Device, inRam: bool, b: Bank): Device { if inRam then d.(ram := b) else d.(store := b) }

  predicate InRam(op: Byte) { op == CMD_MEM_BEGIN || op == CMD_MEM_DATA }

  function Announced(b: Bank, base: int, unit: int): Bank { b.(base := base, unit := unit) }

  function MediumOf(d: Device, inRam: bool): Medium { if inRam then Rewritable else d.medium }

  function Stored(m: Medium, b: Bank, seqNo: int, data: seq<Byte>): Bank {
    b.(bytes := Put(m, b.bytes, b.base + b.unit * seqNo, data))
  }

  /** A device on which block number seqNo has been stored. */
  function WithBlock(d: Device, inRam: bool, seqNo: int, data: seq<Byte>): Device {
    WithBank(d, inRam, Stored(MediumOf(d, inRam), BankOf(d, inRam), seqNo, data))
  }

  function Erased(b: Bank, addr: int, size: int): Bank { b.(bytes := Erase(b.bytes, addr, size)) }

  /** What carrying out a request does to the device: a block is stored under its sequence number. */
  function Carry(d: Device, request: seq<Byte>): (r: Device)
    ensures |r.store.bytes| == |d.store.bytes| && |r.ram.bytes| == |d.ram.bytes| && r.medium == d.medium
  {
    match ParseRequest(request)
    case Malformed => d
    case Parsed(op, chk, b) =>
      if IsBegin(op) && |b| >= 16 then
        WithBank(d, InRam(op), Announced(BankOf(d, InRam(op)), FromLittleEndian(b[12..16]), FromLittleEndian(b[8..12])))
      else if IsData(op) && |b| >= 16 && |b| - 16 == FromLittleEndian(b[..4]) && chk == Checksum(b[16..]) then
        WithBlock(d, InRam(op), FromLittleEndian(b[4..8]), b[16..])
      else if IsErase(op) && |b| >= 8 then
        d.(store := Erased(d.store, FromLittleEndian(b[..4]), FromLittleEndian(b[4..8])))
      else if op == CMD_FLASH_ERASE_CHIP then
        d.(store := Erased(d.store, 0, |d.store.bytes|))
      else if op == CMD_CHANGE_BAUDRATE && |b| >= 8 then
        d.(speed := FromLittleEndian(b[..4]))
      else if op == CMD_MEM_END && |b| >= 8 && FromLittleEndian(b[..4]) == OPTION_REBOOT then
        d.(speed := BAUD_RATE_INIT)
      else d
  }

  lemma Fields(a: U32, b: U32)
    ensures var r := RangeBody(a, b);
      FromLittleEndian(r[..4]) == a && FromLittleEndian(r[4..8]) == b
  {
    hide LittleEndian, FromLittleEndian;
    Pow256Four();
    LittleEndianRoundTrip(a, 4);
    LittleEndianRoundTrip(b, 4);
    var r := RangeBody(a, b);
    assert r[..4] == LittleEndian(a, 4) && r[4..8] == LittleEndian(b, 4);
  }

  /** What a device finds in a request for a range: the opcode, the address and the size, and perhaps more behind them. */
  predicate AsksRange(request: seq<Byte>, op: Byte, addr: U32, size: U32) {
    match ParseRequest(request)
    case Malformed => false
    case Parsed(o, _, b) =>
      o == op && |b| >= 8 && FromLittleEndian(b[..4]) == addr && FromLittleEndian(b[4..8]) == size
  }

  lemma RangeAsked(op: Byte, addr: U32, size: U32, more: seq<Byte>)
    requires |more| <= 8
    ensures AsksRange(Request(op, 0, RangeBody(addr, size) + more), op, addr, size)
  {
    hide LittleEndian, FromLittleEndian, ParseRequest, Request;
    var b := RangeBody(addr, size) + more;
    RequestRoundTrip(op, 0, b);
    Fields(addr, size);
    assert b[..4] == RangeBody(addr, size)[..4] && b[4..8] == RangeBody(addr, size)[4..8];
  }

  /** The same in a request for a stream, which also says the size of a block and how many may be on their way. */
  predicate AsksStream(request: seq<Byte>, op: Byte, addr: U32, size: U32) {
    && AsksRange(request, op, addr, size)
    && var b := ParseRequest(request).body;
    |b| == 16 && FromLittleEndian(b[8..12]) == 4096 && FromLittleEndian(b[12..16]) == 64
  }

  lemma StreamAsked(op: Byte, addr: U32, size: U32)
    ensures AsksStream(Request(op, 0, BeginBody(addr, size, 4096, 64)), op, addr, size)
  {
    hide LittleEndian, FromLittleEndian, ParseRequest, Request;
    var b := BeginBody(addr, size, 4096, 64);
    assert b == RangeBody(addr, size) + RangeBody(4096, 64);
    RangeAsked(op, addr, size, RangeBody(4096, 64));
    RequestRoundTrip(op, 0, b);
    Fields(4096, 64);
    assert b[8..12] == RangeBody(4096, 64)[..4] && b[12..16] == RangeBody(4096, 64)[4..8];
  }

  /** The fields of a begin command, in the order of the loader: total size, number of blocks, block size, address. */
  lemma BeginFields(size: U32, blocks: U32, blockSize: U32, offset: U32)
    ensures var b := BeginBody(size, blocks, blockSize, offset);
      && FromLittleEndian(b[..4]) == size && FromLittleEndian(b[4..8]) == blocks
      && FromLittleEndian(b[8..12]) == blockSize && FromLittleEndian(b[12..16]) == offset
  {
    hide LittleEndian, FromLittleEndian;
    var b := BeginBody(size, blocks, blockSize, offset);
    var low, high := RangeBody(size, blocks), RangeBody(blockSize, offset);
    assert b == low + high;
    Fields(size, blocks);
    Fields(blockSize, offset);
    assert b[..4] == low[..4] && b[4..8] == low[4..8] && b[8..12] == high[..4] && b[12..16] == high[4..8];
  }

  /** An erase command as it goes over the wire, byte for byte. */
  lemma EraseFrame()
    ensures Request(CMD_FLASH_ERASE_REGION, 0, RangeBody(0x1234_5000, 0x1_0000))
         == [0, 0xD1, 8, 0, 0, 0, 0, 0, 0x00, 0x50, 0x34, 0x12, 0x00, 0x00, 0x01, 0x00]
  {
    hide LittleEndian;
    FourBytes(0, [0, 0, 0, 0]);
    FourBytes(0x1234_5000, [0x00, 0x50, 0x34, 0x12]);
    FourBytes(0x1_0000, [0x00, 0x00, 0x01, 0x00]);
    LittleEndianTwo(8);
  }

  /** Four bytes, the low-order one first. */
  lemma FourBytes(v: U32, b: seq<Byte>)
    requires |b| == 4 && v == b[0] as int + 0x100 * b[1] as int + 0x1_0000 * b[2] as int + 0x100_0000 * b[3] as int
    ensures LittleEndian(v, 4) == b
  {
    hide FromLittleEndian, LittleEndian;
    assert b[1..][1..] == b[2..] && b[2..][1..] == b[3..] && b[3..][1..] == [];
    LowFirst(b);
    LowFirst(b[1..]);
    LowFirst(b[2..]);
    LowFirst(b[3..]);
    BytesBack(b);
  }

  lemma LowFirst(b: seq<Byte>)
    requires b != []
    ensures FromLittleEndian(b) == b[0] + 0x100 * FromLittleEndian(b[1..]) && FromLittleEndian([]) == 0
  {
  }

  lemma CarryBegin(d: Device, op: Byte, size: U32, blocks: U32, blockSize: U32, offset: U32)
    requires IsBegin(op)
    ensures Carry(d, Request(op, 0, BeginBody(size, blocks, blockSize, offset)))
         == WithBank(d, InRam(op), Announced(BankOf(d, InRam(op)), offset, blockSize))
  {
    hide LittleEndian, FromLittleEndian, ParseRequest, Request;
    var b := BeginBody(size, blocks, blockSize, offset);
    RequestRoundTrip(op, 0, b);
    Pow256Four();
    LittleEndianRoundTrip(offset, 4);
    LittleEndianRoundTrip(blockSize, 4);
    assert b[12..16] == LittleEndian(offset, 4) && b[8..12] == LittleEndian(blockSize, 4);
  }

  lemma CarryBlock(d: Device, op: Byte, seqNo: U32, data: seq<Byte>)
    requires IsData(op) && |data| <= FLASH_BLOCK_SIZE
    ensures Carry(d, Request(op, Checksum(data), BlockBody(seqNo, data))) == WithBlock(d, InRam(op), seqNo, data)
  {
    hide Checksum, Put, LittleEndian, FromLittleEndian, ParseRequest, BlockBody, Request, WithBlock;
    BlockFields(seqNo, data);
    RequestRoundTrip(op, Checksum(data), BlockBody(seqNo, data));
  }

  lemma BlockFields(seqNo: U32, data: seq<Byte>)
    requires |data| <= FLASH_BLOCK_SIZE
    ensures var b := BlockBody(seqNo, data);
      && |b| == 16 + |data| && b[16..] == data
      && FromLittleEndian(b[..4]) == |data| && FromLittleEndian(b[4..8]) == seqNo
  {
    hide LittleEndian, FromLittleEndian;
    var b := BlockBody(seqNo, data);
    Pow256Four();
    LittleEndianRoundTrip(|data|, 4);
    LittleEndianRoundTrip(seqNo, 4);
    assert b[..4] == LittleEndian(|data|, 4) && b[4..8] == LittleEndian(seqNo, 4);
  }

  lemma CarryErase(d: Device, op: Byte, addr: U32, size: U32)
    requires IsErase(op)
    ensures Carry(d, Request(op, 0, RangeBody(addr, size))) == d.(store := Erased(d.store, addr, size))
  {
    hide LittleEndian, FromLittleEndian, ParseRequest, Request, Erased;
    RequestRoundTrip(op, 0, RangeBody(addr, size));
    Fields(addr, size);
  }

  lemma CarryEraseChip(d: Device)
    ensures Carry(d, Request(CMD_FLASH_ERASE_CHIP, 0, [])) == d.(store := Erased(d.store, 0, |d.store.bytes|))
  {
    hide ParseRequest, Request, Erased;
    RequestRoundTrip(CMD_FLASH_ERASE_CHIP, 0, []);
  }

  lemma CarryBaud(d: Device, baud: U32, oldBaud: U32)
    ensures Carry(d, Request(CMD_CHANGE_BAUDRATE, 0, RangeBody(baud, oldBaud))) == d.(speed := baud)
  {
    hide LittleEndian, FromLittleEndian, ParseRequest, Request;
    RequestRoundTrip(CMD_CHANGE_BAUDRATE, 0, RangeBody(baud, oldBaud));
    Fields(baud, oldBaud);
  }

  lemma CarryMemEnd(d: Device, option: U32, address: U32)
    ensures Carry(d, Request(CMD_MEM_END, 0, RangeBody(option, address)))
         == if option == OPTION_REBOOT then d.(speed := BAUD_RATE_INIT) else d
  {
    hide LittleEndian, FromLittleEndian, ParseRequest, Request;
    RequestRoundTrip(CMD_MEM_END, 0, RangeBody(option, address));
    Fields(option, address);
  }

  /** No other request changes the device. */
  lemma CarryNothing(d: Device, op: Byte, chk: U32, body: seq<Byte>)
    requires |body| < 0x1_0000 && IsHarmless(op)
    ensures Carry(d, Request(op, chk, body)) == d
  {
    hide ParseRequest, Request;
    RequestRoundTrip(op, chk, body);
  }
}
