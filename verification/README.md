# cskburn: a model of the burn path, and what is proved about it

cskburn writes firmware from a host onto CSK chips over a serial port. This project models the five parts that
decide whether the right bytes end up on the flash, and proves that they do:

* **HEX to partitions.** The resumable, character-driven Intel HEX parser (`IntelHex`, `HexParser`), its driver, the
  translation of addresses, and the assembly of partitions with gap fill and sector separation (`ReadPartsHex`,
  `Partitions`, and `Capacity` for what the buffers cannot hold). `HexStream` joins the calls of the parser into one
  stream of (address, byte) cells, `HexFormat` gives a file the meaning of the Intel Hexadecimal Object File Format
  Specification and compares the two, and `HexErrors` says which files are refused.
* **SLIP and commands.** The codec over a serial port that delivers its bytes in any chunks (`SlipSpec`, `Serial`,
  `Slip`; RFC 1055), the request and response layer above it (`Protocol`, `Cmd`), and the two joined (`Link`).
* **The transfer protocol.** Connecting, loading the RAM loader and switching the speed (`Handshake` for what is said, stage
  by stage and attempt by attempt, and `Enter`), stop-and-wait writing with retries (`Core`), erasing and queries (`Api`), and
  reading back in blocks or as an acknowledged stream (`Reading`).
* **The burn session.** Detection, validation, reading, erasing, writing, comparing, locking, and the clean-up on every
  exit (`Bounds`, `SessionPlan`, `SerialBurn`).
* **Digests.** MD5 against RFC 1321 (`Md5Spec`, `Md5Length`, `Md5`, hooked into `MemIo`), with the digest of "abc" from its
  test suite computed step by step (`Md5Vector`), and the table-driven CRC-64 against the bit-at-a-time register (`Crc64`).

`FlashMemory` and `FlashImage` say what erasing and writing do to a flash, `Utils` and `Bytes` hold the 32-bit
arithmetic, `EndToEnd` composes everything: the text of a HEX file in, the flash out, and `LostByte` is the file of which
a byte does not arrive.

## How the environment is modelled

`Cmd.Wire` is everything outside the host. Its `script` is an arbitrary function: for the number of the exchange, the
state of the device and the request it chooses whether the request goes out, whether the device carries it out, which
frames come back and in what order, which reads fail, and when the deadline passes. Theorems hold for every script.
`Cmd.Wire.log` keeps every request with its exchange, and the contracts of the library calls say what a call adds to it and
how its code comes from the answers. A session is stated on that log: `SessionPlan.Recorded` makes the log the requests of
the calls of the session, one call after the other (`SessionPlan.Told`), and nothing else. What the session knows is stated on
that log as well: size and layout are those that a step has told (`SessionPlan.Found`), and a layout that a step has told is the
one that counts (`SessionPlan.Minded`).

What a write does to the storage depends on its `FlashMemory.Medium`: it replaces bytes, it programs them (a bitwise and),
or it erases the sectors of the block first and then programs them. Results hold for all three.

Where a theorem needs a device that means what it says, it names that as a hypothesis:

* `Core.Honest` / `Enter.HonestDevice`: success is reported only for a request that was carried out. Replies have an
  opcode but no sequence number, so this includes that an answer that comes after its time-out is flushed by the two
  discards around each command.
* `Api.Digests`, `Reading.ShowsBlocks`, `Reading.ShowsStream`: digests and data are those of the memory, for the range that
  the device finds in a request (`Protocol.AsksRange`, `Protocol.AsksStream`), whoever built it.
* `SessionPlan.ErasesItself`: the flash of a chip that is sent no erase before a write, CSK4 and CSK6, erases on its own.
* `Enter.Steady`: a nonzero reset delay, a device that is at 115200 before the first command, and a host port that can be
  set to 115200.
* `Slip.NoByteLost`: a chunk does not reach beyond the end of a frame, because `slip_read` drops what follows it.

Clocks are the `late` flag of an event and the `patience` of a wait. A write to a file may take fewer bytes than it was
given, and a file may fail to open.

## Where the code deviates from what it is for

* The parser keeps the upper half of the address in the address it expects next. `HexFormat.HexRoundTrip` proves that it
  gives a file the meaning of the Intel format if and only if `PagesAgree` holds: each data record lies in the page that
  the record before it ended in, or follows an address record, and a type-02 segment is a multiple of 0x1000 and its
  records do not wrap. Encoded ascending images satisfy it.
* Bytes get lost without an error when a run of the image does not fit the buffer of a partition: `memreader_feed` takes
  what fits, and `append_part` does not look at how much that was. A run is defined on the image alone
  (`Partitions.Runs`): bytes of which each lies at most at the end of the sector behind the one before it.
  `Capacity.CarriesIffRunsFit` proves that partitions assembled without an error carry the image if and only if every run
  spans at most the capacity. `LostByte.LastByteLost` is the input: one byte at the start of each sector of the flash of a
  Venus, an ARCS or a VenusA up to 32 MiB, and the byte at 32 MiB neither gets into a partition nor onto the flash
  (`LostByte.GridText` spells such a file).
* A HEX file that ends inside a record is read without an error, and that record is dropped. Only the status Eof tells that
  the file is complete, and the loop treats it like the other one: `HexFormat.CutTextDelivers`,
  `EndToEnd.CutTextReachesFlash`.
* A line that ends before its declared bytes are all there is dropped without an error wherever it stands, also in the
  middle of a file: `HexErrors.PartialLine`. Complete records with a wrong checksum, and lines that declare more than 32
  bytes, are refused: `HexErrors.FailsIff`.
* `align_up` gives 0 for an address above 0xFFFFF000 (`Utils.AlignUpExactly`, `Utils.SectorUp`). For an alignment that is
  no power of two `align_up` and `align_down` do not align: `Utils.AlignUpIff`, `Utils.AlignDownIff`.
* A sector-aligned erase stays inside its physical flash for every accepted range if and only if flashes consist of whole
  sectors: `Bounds.WholeSectorsIff`. In a session with such flashes no erase leaves the flash it begins in.
* With a reset delay of 0 there are no resets between attempts. Then host and an honest device are in step throughout if and
  only if each attempt that is followed by another one has left the device at the initial speed (`Handshake.CameBack`, in the
  contract of `Enter.SerialConnect`); that is why the reset between attempts is needed.
* The frame of a full request needs up to 2n + 2 bytes and the buffer has 2n: `Protocol.RequestFits` holds because the
  direction byte and every opcode go out as they are.

## Model

| member | source | states |
|---|---|---|
| IntelHex.OrNibbleBits | cskburn/src/intelhex/intelhex.c:169-171 | the second nibble is combined bit by bit with the low bits of what the byte holds, for every byte, and the high bits stay |
| HexParser.HexParser.Reset | cskburn/src/intelhex/intelhex.c:101-112 | the static state becomes that of a fresh parser, wherever the last file stopped |
| HexParser.HexParser.ValidateChecksum | cskburn/src/intelhex/intelhex.c:81-91 | the eight-bit loop accepts a record if and only if its bytes sum up to 0 modulo 256 |
| HexParser.HexParser.Process | cskburn/src/intelhex/intelhex.c:185-286 | the in-place byte swap and dispatch on the static state do what the step function says for each record type |
| HexParser.HexParser.ByteDone | cskburn/src/intelhex/intelhex.c:173-288 | on the static variables, a completed byte is refused, ignored, or makes the record take effect, as in the step function, whose refusals HexErrors.FailsIff characterises |
| HexParser.HexParser.StartLine | cskburn/src/intelhex/intelhex.c:159-164 | a colon clears the line buffer and the record flags and nothing else |
| HexParser.HexParser.HighNibble | cskburn/src/intelhex/intelhex.c:289-295 | the first nibble goes into the upper half of the byte, only inside the buffer |
| HexParser.HexParser.LowNibble | cskburn/src/intelhex/intelhex.c:168-172 | the second nibble completes it, and the eight-bit index wraps |
| HexParser.HexParser.Char | cskburn/src/intelhex/intelhex.c:150-297 | one character on the static variables refines the step function, exits included |
| HexParser.HexParser.ScanChars | cskburn/src/intelhex/intelhex.c:149-300 | the loop delivers behind the bytes already in the buffer and never writes outside it |
| HexParser.HexParser.Parse | cskburn/src/intelhex/intelhex.c:114-311 | a whole call on static state and output buffer equals the functional call: state, status, counts, address, bytes, and 0xFF behind them |
| HexStream.RepresentedNibble | cskburn/src/intelhex/intelhex.c:243-281 | the last nibble of an address record, presented again to the next call, has no effect |
| HexStream.ScanMark | cskburn/src/intelhex/intelhex.c:306-309 | the bytes of a call are consecutive and end where the next write is expected |
| HexStream.ScanDelivers | cskburn/src/intelhex/intelhex.c:114-311 | a call delivers exactly the cells of the characters it consumes, one character after the other |
| HexStream.Progress | cskburn/src/intelhex/intelhex.c:159-187 | a call that asks to be resumed has consumed nothing if and only if its first character completes an address record, and then the next call consumes one |
| HexStream.ScanBudget | cskburn/src/intelhex/intelhex.c:219-228 | twice the bytes delivered never exceeds the characters consumed since the reset |
| HexStream.BlobDelivers | cskburn/src/intelhex/intelhex.c:123-147 | the same for a call that starts with a left-over record, and a resumed call comes closer to the end |
| HexStream.Feed | cskburn/src/read_parts_hex.c:75-133 | the loop of calls over one text terminates and never ends in the middle of a resumption |
| HexStream.FeedIsWhole | cskburn/src/read_parts_hex.c:75-133 | all calls with all resumptions deliver what one pass over the text delivers |
| HexStream.PassAllAppend | cskburn/src/intelhex/intelhex.c:149-300 | passing two texts in turn is passing their concatenation |
| HexStream.CutIndependence | cskburn/src/intelhex/intelhex.c:114-147 | cutting a text at any characters into any number of pieces changes neither cells nor final state nor status |
| HexFormat.LineEndsIgnored | cskburn/src/intelhex/intelhex.c:153-156 | carriage returns and line feeds anywhere make no difference |
| HexFormat.RecordPass | cskburn/src/intelhex/intelhex.c:159-297 | a spelled record, in digits of either case, delivers its cells and moves the expected address as its type says |
| HexFormat.RecordsPass | cskburn/src/intelhex/intelhex.c:149-311 | a spelled list of records and a beginning of one more deliver the cells of the list up to its EOF record; the status is Eof if and only if there is one |
| HexFormat.DriverDelivers | cskburn/src/read_parts_hex.c:70-133 | so does the driver with all its exits and resumptions, without an error |
| HexFormat.PartLoads | cskburn/src/intelhex/intelhex.c:298-305 | the digits of a record before its last one deliver nothing |
| HexFormat.CutTextDelivers | cskburn/src/read_parts_hex.c:85-98 | a file that is cut off inside a record is read without an error up to that record, and the status is Eof if and only if an EOF record is among the complete ones |
| HexFormat.MeaningIffPagesAgree | cskburn/src/intelhex/intelhex.c:203-228 | parser and Intel format agree on a list of records if and only if its pages agree |
| HexFormat.HexRoundTrip | cskburn/src/intelhex/intelhex.c:137-281 | the same for the driver on any text that spells the records: an if-and-only-if over all files of record types 0 to 5 |
| HexFormat.EncodedPagesAgree | cskburn/src/intelhex/intelhex.c:263-281 | ascending rows with a type-04 record at each page change satisfy the condition, and mean the image |
| HexFormat.ImageRoundTrip | cskburn/src/intelhex/intelhex.c:137-281 | encode an ascending image, in any digit case and with any line ends, and parse it: the cells are exactly the image |
| HexErrors.LinePass | cskburn/src/intelhex/intelhex.c:159-297 | one line of any bytes, up to 254 of them: it goes on exactly when it is not complete or is a sound record other than EOF and than data for another board, and otherwise ends with the status of what is wrong or over |
| HexErrors.TakesEffect | cskburn/src/intelhex/intelhex.c:184-288 | a sound record ends the file, belongs to another board, or leaves a line in which further digits do nothing |
| HexErrors.PartialLine | cskburn/src/intelhex/intelhex.c:159-180 | a line whose declared bytes are not all there has no effect, wherever it stands |
| HexErrors.FailsIff | cskburn/src/intelhex/intelhex.c:173-183 | for any lines of digits, sound or not, with any line ends, and through all resumptions: the status is that of a wrong checksum if and only if the first line on which reading ends is a complete record whose bytes do not sum up to 0 modulo 256, that of an over-long line if and only if it declares more than 32 bytes, and Eof if and only if it is a sound EOF record |
| HexErrors.PlainReached | cskburn/src/intelhex/intelhex.c:195-201 | in a file that sets no board version, reading reaches a line if and only if no line before it is over-long, has a wrong checksum, or is an EOF record |
| HexErrors.OneDigitOff | cskburn/src/intelhex/intelhex.c:181-183 | a file of one byte, written out: with its checksum it is read to the end, and with one that is one more it is refused |
| Utils.MaskClears | cskburn/src/utils.c:142-142 | masking with the bits from k on, taken bit by bit, clears the k low bits |
| Utils.AlignUpIff | cskburn/src/utils.c:138-143 | it is so for all addresses if and only if the alignment is a power of two; otherwise address 1 already fails |
| Utils.AlignDownIff | cskburn/src/utils.c:145-150 | likewise for align_down, over all nonzero alignments |
| Utils.SectorUp | cskburn/src/utils.c:138-143 | align_up to a sector in closed form, with the exact bound from which it gives 0 |
| MemIo.MemReader.Feed | libio/src/memio.c:39-53 | the contents grow by what fits, the return value is what was added |
| MemIo.MemReader.FillWith | libio/src/memio.c:55-69 | the same for a filling byte |
| MemIo.MemReader.Read | libio/src/memio.c:71-84 | the next bytes of the contents, short only at the end, and the hook has seen exactly these |
| MemIo.MemReader.InstallVerify | cskburn/src/verify.c:14-21 | a hook that has seen nothing |
| MemIo.MemReader.FinishVerify | cskburn/src/verify.c:23-31 | the RFC 1321 digest of everything read since the hook was installed |
| ReadPartsHex.PartTable.CloseGap | cskburn/src/read_parts_hex.c:152-159 | the gap fill on readers and addresses refines its specification on partitions |
| ReadPartsHex.PartTable.Append | cskburn/src/read_parts_hex.c:145-196 | append_part on the table of readers equals its specification: which partition grows, which starts, and what is refused |
| ReadPartsHex.TranslateIs | cskburn/src/read_parts_hex.c:19-31 | an address is translated if and only if a region covers it, and then it counts from the start of the first region that does |
| ReadPartsHex.TakeChunk | cskburn/src/read_parts_hex.c:78-132 | the bytes of a call: the address is checked before the status of the parser |
| ReadPartsHex.ReadIsAssemble | cskburn/src/read_parts_hex.c:75-133 | when no call fails the loop assembles exactly the chunks of the parser |
| ReadPartsHex.FailureEndsRead | cskburn/src/read_parts_hex.c:127-131 | when a call fails, reading the file fails, with the code of a parse error unless a chunk has been refused |
| ReadPartsHex.AppendKeeps | cskburn/src/read_parts_hex.c:145-196 | wherever a chunk lies, when it is accepted its bytes are in the last partition at their address, as many as the buffer takes, and what the partitions held before they still hold |
| ReadPartsHex.AssembleKeeps | cskburn/src/read_parts_hex.c:75-133 | in whatever order chunks come, when they are accepted each of them is in a partition, at its translated address |
| ReadPartsHex.BlobBudget | cskburn/src/read_parts_hex.c:111-112 | bytes held and characters left never exceed the text, so no call overruns the buffer |
| ReadPartsHex.ReadPartsHex | cskburn/src/read_parts_hex.c:33-143 | the whole loop on parser, buffer and table terminates, stays inside a buffer of half the text, and yields the specified partitions |
| Partitions.PlaceSound | cskburn/src/read_parts_hex.c:152-195 | one chunk at or above the end that fits the partition which takes it keeps partitions ascending, separated by sectors, and in step with the image, and grows or starts exactly the right one; it is refused if and only if that would be one too many |
| Partitions.AssembleSound | cskburn/src/read_parts_hex.c:75-133 | so do all chunks of an ascending stream in one region whose runs fit; they are refused if and only if there are too many runs, and otherwise the partitions are the runs |
| Partitions.PartitionsCarryImage | cskburn/src/read_parts_hex.c:145-196 | from the beginning: reading succeeds if and only if the image does not have too many runs, and then the partitions are exactly its runs, share no sector, and hold exactly the image and 0xFF in sectors that the image touches |
| Capacity.FillsUp | libio/src/memio.c:39-53 | a chunk that goes beyond the buffer fills it up, and the code is that of success |
| Capacity.CutOff | cskburn/src/read_parts_hex.c:152-195 | of a chunk that does not fit, a byte is in no partition, and none can reach it any more |
| Capacity.SkippedForGood | cskburn/src/read_parts_hex.c:145-196 | no later chunk brings such a byte back |
| Capacity.AssembleLoses | cskburn/src/read_parts_hex.c:75-133 | when an aligned run does not fit, a byte of the image is in no partition, although reading succeeds |
| Capacity.CarriesIffRunsFit | cskburn/src/read_parts_hex.c:152-195 | partitions that were assembled without an error from aligned runs carry the image if and only if every run spans at most the capacity |
| FlashImage.BurnImprints | cskburn/src/main.c:1531-1549 | erasing and writing one partition that shares no sector adds it to what is on the flash |
| FlashImage.BurnAllImprints | cskburn/src/main.c:1531-1549 | burning separated aligned partitions leaves their layout, 0xFF in the rest of their sectors, and everything else untouched |
| FlashImage.ImprintOfImage | cskburn/src/main.c:1531-1549 | the layout of the partitions and the image leave the same flash behind |
| FlashMemory.PutErased | cskburn/src/main.c:1531-1549 | after its sectors have been erased, data gets onto any medium, also one on which writing only clears bits |
| FlashMemory.PutSelfErasing | cskburn/src/main.c:189-206 | a medium that erases on its own needs no erase |
| FlashMemory.PutTwice | libcskburn_serial/src/core.c:443-460 | writing the same bytes again changes nothing, on any medium |
| FlashMemory.PutNext | libcskburn_serial/src/core.c:534-576 | writing piece by piece is writing the whole, on a self-erasing medium for pieces of whole sectors |
| Md5.Md5Context.Process | third/mbedtls/library/md5.c:82-215 | the 64 unrolled steps with their rewritten auxiliary functions are the compression of RFC 1321, section 3.4 |
| Md5.Md5Context.Round1 | third/mbedtls/library/md5.c:122-139 | the sixteen assignments of round 1 are sixteen steps of the standard |
| Md5.Md5Context.Round2 | third/mbedtls/library/md5.c:143-160 | likewise for round 2, whose function is written with fewer operations |
| Md5.Md5Context.Round3 | third/mbedtls/library/md5.c:164-181 | likewise for round 3 |
| Md5.Md5Context.Round4 | third/mbedtls/library/md5.c:185-202 | likewise for round 4 |
| Md5.Md5Context.constructor | third/mbedtls/library/md5.c:68-79 | a context that has absorbed nothing |
| Md5.Md5Context.Store | third/mbedtls/library/md5.c:244-264 | bytes copied into the buffer change nothing else in it |
| Md5.Md5Context.TopUp | third/mbedtls/library/md5.c:242-251 | a block completed from buffer and input moves the state by that block |
| Md5.Md5Context.Drain | third/mbedtls/library/md5.c:253-260 | the loop moves the state by the whole blocks of the input |
| Md5.Md5Context.Keep | third/mbedtls/library/md5.c:262-265 | the rest of the input stays in the buffer |
| Md5.Md5Context.Absorb | third/mbedtls/library/md5.c:242-265 | topping up the buffer, draining whole blocks and keeping the rest moves the state by the blocks of buffer and input |
| Md5.Md5Context.Count | third/mbedtls/library/md5.c:236-240 | the two 32-bit words with their carry count the bytes modulo 2^64 |
| Md5.Md5Context.Update | third/mbedtls/library/md5.c:222-268 | the context has absorbed the input after what it had absorbed, for any split of a message into calls |
| Md5.Md5Context.PadBuffer | third/mbedtls/library/md5.c:283-301 | 0x80 and zeros behind the rest, with one more compression when the length does not fit |
| Md5.Md5Context.PutLength | third/mbedtls/library/md5.c:303-311 | the length field is the bit count modulo 2^64, from the two words |
| Md5.Md5Context.Finish | third/mbedtls/library/md5.c:273-325 | the output is the RFC 1321 digest of everything absorbed, in both padding cases |
| Md5.HoldsMore | third/mbedtls/library/md5.c:222-268 | partial buffer and state after an update are those of the longer message |
| Md5.PaddedOne | third/mbedtls/library/md5.c:287-291 | with room in the block, one compression completes the padding of section 3.1 and 3.2 |
| Md5.PaddedTwo | third/mbedtls/library/md5.c:292-301 | without room, two compressions do |
| Md5Length.LengthCounts | third/mbedtls/library/md5.c:233-240 | the low six bits of the low word are the length modulo 64 |
| Md5Length.BitLength | third/mbedtls/library/md5.c:306-308 | the shifted words are the halves of eight times the length |
| Md5Spec.FoldAppend | third/mbedtls/library/md5.c:253-260 | compressing a concatenation of whole blocks is compressing one part after the other |
| Md5Vector.AbcDigest | third/mbedtls/library/md5.c:376-389 | the digest of "abc" is that of the test suite of RFC 1321, through padding, all 64 steps and the order of the bytes |
| Crc64.TableEntries | libcskburn_usb/src/crc64.c:5-262 | each of the 256 entries is eight steps of the reflected register with polynomial 0x95ac9329ac4bc9b5 |
| Crc64.BitsXor | libcskburn_usb/src/crc64.c:271-271 | the register is linear |
| Crc64.LookUp | libcskburn_usb/src/crc64.c:270-271 | one look-up is eight single-bit steps, for every register and byte |
| Crc64.Crc64 | libcskburn_usb/src/crc64.c:264-275 | the table loop equals the bit-at-a-time CRC for every initial value and byte string |
| Crc64.CrcAppend | libcskburn_usb/src/crc64.c:264-275 | the CRC of a concatenation continues from the CRC of its first part |
| Crc64.CrcDetectsByteChange | libcskburn_usb/src/crc64.c:264-275 | changing any one byte changes the CRC |
| Crc64.CheckValue | libcskburn_usb/src/crc64.c:264-275 | the CRC of the digits 1 to 9 is the check value of this polynomial |
| Serial.Port.Read | libslip/src/slip.c:83-93 | a read takes a nonempty part of one chunk, or fails |
| Serial.Port.Write | libslip/src/slip.c:168-178 | a write takes a prefix of what it is given, perhaps nothing, or fails |
| SlipSpec.FrameReceived | libslip/src/slip.c:95-127 | END-free noise and an encoded payload that fits make the decoder return the payload |
| SlipSpec.FrameIsEncoded | libslip/src/slip.c:95-127 | conversely what the decoder returns was encoded behind END-free noise |
| SlipSpec.SlipExact | libslip/src/slip.c:67-131 | the decoder returns p if and only if the bytes examined are END-free noise and exactly the encoding of p |
| SlipSpec.FramesPrefixFree | libslip/src/slip.c:145-164 | no encoding is a proper prefix of another, and the encoding is injective |
| SlipSpec.FrameTooLong | libslip/src/slip.c:110-125 | a frame whose payload does not fit is refused, behind any END-free noise |
| SlipSpec.EncodedSize | libslip/src/slip.c:145-164 | the size of a frame, with what unstuffed bytes save |
| SlipSpec.WireBytes | libslip/src/slip.c:145-164 | the bytes on the wire, written out: C0 at both ends, DB DC for C0, DB DD for DB, and any other byte as it is, at every position of the payload |
| Slip.SlipDev.SlipRead | libslip/src/slip.c:67-131 | the loop over two buffers, fed by any chunks, returns what decoding the received bytes gives, and never leaves its buffers |
| Slip.SlipDev.Pull | libslip/src/slip.c:83-93 | one read puts the next received bytes behind those already there, or everything has been received |
| Slip.SlipDev.Scan | libslip/src/slip.c:95-127 | the inner loop over the bytes that have arrived decodes them on top of what was decoded before, and ends as the decoder does |
| Slip.SlipDev.TakeByte | libslip/src/slip.c:95-127 | one byte of the loop: state and buffer move as the decoder moves, and it ends with the payload, -ENOMEM or -EINVAL |
| Slip.SlipDev.Fill | libslip/src/slip.c:145-164 | the transmit buffer holds the encoding, or it does not fit |
| Slip.SlipDev.SlipWrite | libslip/src/slip.c:133-182 | 0 or more means that exactly the encoding was sent; otherwise it did not fit or a prefix was sent |
| Slip.SlipRoundTrip | libslip/src/slip.c:67-182 | what one side writes the other reads, behind any END-free noise and in any chunks |
| Slip.ReadIffFrame | libslip/src/slip.c:67-131 | under any chunking the read returns p if and only if the bytes examined are noise and the encoding of p |
| Slip.NoByteLost | libslip/src/slip.c:105-107 | when no chunk reaches beyond the end of the frame, the next read starts behind it, also behind END-free noise |
| Link.SendFrame | libcskburn_serial/src/cmd.c:148-153 | no request of the host is ever refused by the transmit buffer: exactly its frame goes out, or the port fails on the way |
| Link.ReadTooLong | libslip/src/slip.c:110-125 | under any chunking, a frame that does not fit the buffer gives -ENOMEM |
| Link.ReceiveFrame | libcskburn_serial/src/cmd.c:166-176 | what the command layer takes for one event is what slip_read makes of the bytes of a port: the frame that arrives, behind any noise and in any chunks, or -ENOMEM when it does not fit |
| Protocol.RequestRoundTrip | libcskburn_serial/src/cmd.c:205-211 | the device reads back opcode, checksum and body from the frame the host builds |
| Protocol.BeginFields | libcskburn_serial/src/cmd.c:566-579 | the four fields of a begin command are read back in the order of the loader |
| Protocol.RangeAsked | libcskburn_serial/src/cmd.c:632-642 | a device finds opcode, address and size in every request for a range |
| Protocol.StreamAsked | libcskburn_serial/src/cmd.c:909-913 | a device finds address, size, a block size of 4096 and a window of 64 in a request for a stream |
| Protocol.EraseFrame | libcskburn_serial/src/cmd.c:632-642 | one erase command, byte for byte |
| Protocol.RequestFits | libcskburn_serial/src/cmd.h:37-40 | every request the host can send, with every opcode and the worst body, encodes into the transmit buffer |
| Protocol.ReplyFits | libcskburn_serial/src/cmd.h:42-46 | every full-size reply and every raw data frame fits the receive buffer |
| Protocol.CarryBegin | libcskburn_serial/src/cmd.c:566-579 | a begin request announces exactly its address and block size |
| Protocol.CarryBlock | libcskburn_serial/src/cmd.c:581-608 | a block request stores exactly its data under its sequence number, as the medium writes it |
| Protocol.CarryErase | libcskburn_serial/src/cmd.c:632-642 | an erase request erases exactly its range |
| Protocol.CarryEraseChip | libcskburn_serial/src/cmd.c:622-630 | a chip erase erases everything |
| Protocol.CarryBaud | libcskburn_serial/src/cmd.c:1012-1023 | a speed request changes the speed and nothing else |
| Protocol.CarryMemEnd | libcskburn_serial/src/cmd.c:554-564 | starting the loader brings back the initial speed, other ends change nothing |
| Protocol.CarryNothing | libcskburn_serial/src/cmd.c:310-391 | no other request changes the device |
| Cmd.Receive | libcskburn_serial/src/cmd.c:155-189 | whatever arrives, an accepted frame answers the opcode and fits; otherwise the code is negative |
| Cmd.ReceiveIffAnswered | libcskburn_serial/src/cmd.c:165-188 | a frame is taken for the answer if and only if it is the first fitting answer before the deadline |
| Cmd.SuccessIsAnswered | libcskburn_serial/src/cmd.c:263-288 | a command succeeds if and only if an answer to its opcode carries what it declares and a zero status |
| Cmd.ReplyFields | libcskburn_serial/src/cmd.c:228-257 | the host reads each field of a reply where the loader puts it, the low-order byte first, whatever follows the payload |
| Cmd.ReplyRoundTrip | libcskburn_serial/src/cmd.c:191-261 | a reply, laid out by the loader and brought by any exchange, is taken as it is: value, declared length, and as much of the payload as fits |
| Cmd.StatusRoundTrip | libcskburn_serial/src/cmd.c:263-288 | the code of a command from the two leading payload bytes: the ARCS loader leads with an error code, which alone counts, everyone else with a status and then the reason |
| Cmd.QueryRoundTrip | libcskburn_serial/src/cmd.c:695-733 | what a query makes of a reply: the code, the bytes behind the status, or a refusal for another length |
| Cmd.SuccessIsReply | libcskburn_serial/src/cmd.c:191-288 | a command succeeds if and only if its exchange brings a reply whose payload is at least a status and leads with 0 |
| Cmd.QueryOf | libcskburn_serial/src/cmd.c:695-733 | success comes with exactly the bytes asked for; short, long and failed answers are errors |
| Cmd.Wire.Send | libcskburn_serial/src/cmd.c:148-153 | a request that fits opens an exchange with whatever the environment makes of it, and both enter the log |
| Cmd.Wire.Ack | libcskburn_serial/src/cmd.c:983-987 | a frame inside an exchange goes out, or fails |
| Cmd.Wire.Get | libcskburn_serial/src/cmd.c:166-176 | a frame lands in the first bytes of the buffer; a longer one, a time-out or an error leaves a negative code |
| Cmd.Wire.Discard | libcskburn_serial/src/cmd.c:197-198 | what is left of an earlier exchange is gone |
| Cmd.Wire.SetSpeed | libcskburn_serial/src/cmd.c:1028-1034 | the port has the new speed if and only if it could be set |
| Cmd.Wire.Reset | libcskburn_serial/src/core.c:97-167 | a reset that reaches the chip brings it back to the initial speed and leaves its memories alone |
| Cmd.Host.SendRequest | libcskburn_serial/src/cmd.c:197-217 | the frame in the request buffer is header and body exactly |
| Cmd.Host.CommandRecv | libcskburn_serial/src/cmd.c:155-189 | the loop over the receive buffer finds the answer of the specification, whatever the buffer held before |
| Cmd.Host.Command | libcskburn_serial/src/cmd.c:191-261 | code, value, length and payload are those of the frames of this exchange alone, so no stale byte reaches a result, and by Cmd.ReplyRoundTrip those that the loader has laid out; one request goes out |
| Cmd.Host.ResponseStatus | libcskburn_serial/src/cmd.c:263-278 | success if and only if two bytes have come and the first is 0; otherwise the error and status by the order of the loader |
| Cmd.Host.CheckCommand | libcskburn_serial/src/cmd.c:280-288 | the same for a command without payload, with the value field |
| Cmd.Host.ComputeChecksum | libcskburn_serial/src/cmd.c:290-298 | the loop folds the data into 0xEF by exclusive or |
| Cmd.Host.Sync | libcskburn_serial/src/cmd.c:310-320 | a probe succeeds for any answer to its opcode |
| Cmd.Host.Simple | libcskburn_serial/src/cmd.c:520-533 | begin, end and erase commands: one request with exactly this body |
| Cmd.Host.Block | libcskburn_serial/src/cmd.c:581-608 | a block command: one request with checksum, length, sequence number and data |
| Cmd.Host.Query | libcskburn_serial/src/cmd.c:663-693 | commands that return data: exactly the bytes of the answer |
| Cmd.Host.ReadBlock | libcskburn_serial/src/cmd.c:695-733 | sizes that the command cannot have are refused before anything is sent |
| Core.AttemptsStore | libcskburn_serial/src/core.c:442-493 | for every loss of requests and replies and on every medium the block is stored or the memory untouched, and it is stored when the attempts succeed |
| Core.AttemptsRepeat | libcskburn_serial/src/core.c:442-493 | what the attempts leave in the log: the same request every time, each but the last with an answer that calls for another, at most as often as the tries allow, and the last answer is the code |
| Core.FlashBlockSucceeds | libcskburn_serial/src/core.c:286-460 | a block of flash or loader succeeds if and only if one of the first n answers is good and those before it are time-outs or codes of the device |
| Core.NandBlockSucceeds | libcskburn_serial/src/core.c:462-478 | a block of NAND, if and only if one of the first n answers is good and those before it are codes of the device |
| Core.EmmcBlockSucceeds | libcskburn_serial/src/core.c:480-493 | a block of an eMMC, if and only if one of the first n answers is good and those before it are time-outs or the code 10 |
| Core.LostRepliesForgiven | libcskburn_serial/src/core.c:443-605 | a write to flash or eMMC in which nothing goes wrong but lost replies of blocks, never three in a row, succeeds |
| Core.BeginAnnounces | libcskburn_serial/src/core.c:500-533 | a device finds in the begin request the size, the number of blocks of 4096 that hold it, and the address |
| Core.TryFlashBlock | libcskburn_serial/src/core.c:443-460 | code, requests, answers and device of the specification; on the wire the same request up to three times, again after a time-out or a positive code and after nothing else |
| Core.TryNandBlock | libcskburn_serial/src/core.c:462-478 | the same, again after a positive code and after nothing else |
| Core.TryEmmcBlock | libcskburn_serial/src/core.c:480-493 | the same, again after a time-out or the code 10 and after nothing else |
| Core.TryLoaderBlock | libcskburn_serial/src/core.c:286-301 | as many tries as the chip allows, again after a time-out or a positive code and after nothing else |
| Core.BeginCommand | libcskburn_serial/src/core.c:506-530 | exactly one begin request, whose answer is the code; an honest device has announced address and block size and stored nothing |
| Core.PutBlock | libcskburn_serial/src/core.c:548-568 | a block of any target, by the rule of that target, with every request it sends |
| Core.Fetch | libcskburn_serial/src/core.c:536-546 | the bytes of block i are the next ones of the reader, and the hook sees them |
| Core.WriteBody | libcskburn_serial/src/core.c:534-599 | what follows the begin request: the blocks in order, and the end request |
| Core.End | libcskburn_serial/src/core.c:579-599 | exactly one end request, whose answer is the code; it changes nothing |
| Core.WriteBlock | libcskburn_serial/src/core.c:536-571 | one turn of the loop: the bytes come from the reader once, the requests are those of this block, and at any exit the device holds a prefix |
| Core.WriteBlocks | libcskburn_serial/src/core.c:534-576 | the loop: every block once and in order, the last one short, on the wire as on the device |
| Core.SerialWrite | libcskburn_serial/src/core.c:495-605 | at any exit the device holds a prefix of the bytes from the address on, as its medium writes them, and is untouched elsewhere; with 0 it holds all of them, the hook has seen each byte once and in order, and on the wire are the begin request, each block in order until its answer was good, and the end request; any other code is that of the last answer, or of a short file, which a reader at its beginning never is |
| Api.SerialErase | libcskburn_serial/src/core.c:752-787 | empty ranges and ranges beyond 2^32 are refused before anything is sent, otherwise one erase request decides; with 0 exactly the range reads 0xFF |
| Api.SerialEraseAll | libcskburn_serial/src/core.c:721-750 | one chip erase decides, and with 0 the whole memory reads 0xFF; other targets are refused |
| Api.SerialLock | libcskburn_serial/src/core.c:789-797 | the lock command goes out exactly where it is supported, and its answer is the code |
| Api.SerialUnlock | libcskburn_serial/src/core.c:799-807 | likewise for unlocking |
| Api.GetFlashProtection | libcskburn_serial/src/core.c:809-831 | code and state are those of the answer: -ENOTSUP for 0xFF, any other code as it is, -EIO for a value above 2; without protection nothing is sent |
| Api.SetFlashIndex | libcskburn_serial/src/core.c:967-974 | exactly one index command where supported, and its answer is the code; nothing and -ENOTSUP elsewhere |
| Api.FetchDigest | libcskburn_serial/src/cmd.c:663-693 | one digest request, whose answer is the result; with a device that computes its digests, the digest of exactly the range |
| Api.SerialVerify | libcskburn_serial/src/core.c:833-874 | the same, refused for targets without digests before anything is sent |
| Api.ReadChipId | libcskburn_serial/src/core.c:876-885 | code and the eight bytes are those of the answer, and the device is as it was |
| Api.GetFlashInfo | libcskburn_serial/src/core.c:887-909 | code and size are those of the answer: the power of two that the id declares, from 2 to 2^31, or -ERR_FLASH_NOT_DETECTED for an id that no flash has |
| Api.CapacityOfId | libcskburn_serial/src/core.c:897-907 | the third byte of a flash id is the binary logarithm of the capacity, from 1 to 31; any other id is that of no flash |
| Api.GetFlashLayout | libcskburn_serial/src/core.c:911-941 | the code is 0 exactly for a reply with one or two nonempty flashes that fill the total, and the layout is that of the reply; -EIO for any other reply, and the code of the device when there is none |
| Api.MapRoundTrip | libcskburn_serial/include/cskburn_serial.h:64-72 | the host reads each field of the layout where the loader puts it |
| Api.FirstFields | libcskburn_serial/src/cmd.c:394-433 | the first two words of what a NAND flash or an eMMC tells about itself are read where they lie |
| Api.InitNand | libcskburn_serial/src/core.c:943-952 | the code is that of the answer, and the capacity the 32-bit product of its two words |
| Api.GetEmmcInfo | libcskburn_serial/src/core.c:954-965 | the code is that of the answer, and the capacity the product of sector count and sector size; -ENOTSUP without eMMC, and nothing is sent |
| Reading.ReadLegacy | libcskburn_serial/src/core.c:607-677 | at any exit a prefix of the range has been written to the file, with 0 all of it; the requests are those of its blocks in order and the digest when it is asked for, up to the answer that fails, and that answer is the code |
| Reading.CopyBlock | libcskburn_serial/src/core.c:617-654 | one block: what is written continues the range, also when the file takes less |
| Reading.CopyNext | libcskburn_serial/src/core.c:617-654 | one turn of the loop: the next block of the range is asked for and continues the file, or the loop stops with the code of the answer, of the file, or of a target without blocks |
| Reading.BlockEnded | libcskburn_serial/src/core.c:624-647 | whether the blocks go on or stop, from the answer and from what the file has taken |
| Reading.CopyBlocks | libcskburn_serial/src/core.c:616-654 | the loop over the blocks, with addresses that wrap at 2^32 |
| Reading.AckPhase | libcskburn_serial/src/cmd.c:924-961 | waiting for the acknowledgement of a stream, total on every list of frames |
| Reading.DataPhase | libcskburn_serial/src/cmd.c:963-992 | the data of a stream never exceeds what is missing |
| Reading.DataPhaseCompletes | libcskburn_serial/src/cmd.c:963-992 | success means that the first frames sum up to exactly the size, not before the last of them, and are the data |
| Reading.CompleteSucceeds | libcskburn_serial/src/cmd.c:963-992 | and such frames make it succeed |
| Reading.CountsRise | libcskburn_serial/src/cmd.c:981-987 | acknowledged counts are the running totals: strictly increasing, at most the size, and the size at the end |
| Reading.AcksDecode | libcskburn_serial/src/cmd.c:983-987 | each acknowledgement of a stream is read back as its running total |
| Reading.RecvAck | libcskburn_serial/src/cmd.c:924-961 | the loop over the receive buffer is the acknowledgement phase |
| Reading.RecvData | libcskburn_serial/src/cmd.c:963-992 | the loop writes the data, acknowledges the running totals, and stops at a short write with a prefix |
| Reading.RecvLast | libcskburn_serial/src/cmd.c:994-1007 | the frame behind the data has 16 bytes or is an error |
| Reading.ReadFlashStream | libcskburn_serial/src/cmd.c:892-1010 | the three phases in order, whatever arrives, for the request in which a device finds this address and size (Protocol.StreamAsked) |
| Reading.StreamSucceedsIff | libcskburn_serial/src/cmd.c:892-1010 | a stream succeeds if and only if it is acknowledged, frames sum up to exactly the size, and the very next frame has 16 bytes |
| Reading.ReadStream | libcskburn_serial/src/core.c:679-698 | one request; with 0 exactly the range has been written, the counts went up to the size, and the digest is the frame behind the data; any other code is that of the stream, of that frame, or of the file |
| Reading.SerialRead | libcskburn_serial/src/core.c:700-719 | block reads and streams agree: with 0 exactly the range has been written, at any exit a prefix of it; the layout is asked for when it has not been yet, the stream is used if and only if the device offers one, and code and digest are those of the answers |
| Reading.ReadRange | libcskburn_serial/src/core.c:714-718 | the stream is used if and only if the device offers it |
| Reading.ReadDigest | libcskburn_serial/src/core.c:679-698 | the digest of a read that succeeds is the last thing the device has sent, whichever way it was read |
| Handshake.RanNext | libcskburn_serial/src/core.c:349-437 | one stage more: when it passes, the stages so far have run, and when it fails, the whole plan has ended with its error |
| Handshake.RanJoin | libcskburn_serial/src/core.c:339-439 | what follows stages that have all passed gives the code of the whole |
| Handshake.LinksJoin | libcskburn_serial/src/core.c:339-439 | log and speed of the device go on from stage to stage: a speed request that was carried out sets the speed, and starting the loader sets it back |
| Handshake.PassedWell | libcskburn_serial/src/core.c:349-437 | the last answer of a stage that passes is good, and the port could be set to a new speed |
| Handshake.ConnectedWell | cskburn/src/main.c:1122-1161 | a connection that succeeds: every attempt before the last has failed, and in the last one the ROM has answered and every stage has passed in order, with every block of the loader |
| Handshake.RetryNext | cskburn/src/main.c:1122-1161 | one attempt more: it calls for another one, or it is the last and gives the code |
| Handshake.PacedNext | cskburn/src/main.c:1122-1161 | one attempt more keeps host and device in step with a reset before it, and without one if and only if every attempt before it has come back to the initial speed |
| Handshake.ConnectedOps | cskburn/src/main.c:1098-1168 | a connection sends no request that touches the storage |
| Handshake.ProbedAfterChange | libcskburn_serial/src/core.c:349-437 | every change of speed and the start of the loader are followed by probes |
| Handshake.LoadStagesAre | libcskburn_serial/src/core.c:341-365 | when the ROM changes its speed, and to which: the wanted one, but no more than 3 MBd |
| Enter.TrySync | libcskburn_serial/src/core.c:270-284 | probes time out until the last one, whose result is the code, and a time-out is returned only when there is no time left; the device is as it was |
| Enter.ChangeBaud | libcskburn_serial/src/cmd.c:1012-1035 | one request; the device has the new speed if and only if it carried it out, the host if and only if the code is 0 |
| Enter.ProbeStage | libcskburn_serial/src/core.c:358-362 | probes as a stage: what they say, and that they change nothing |
| Enter.SpeedStage | libcskburn_serial/src/core.c:350-356 | a change from the initial speed as a stage |
| Enter.BlockStage | libcskburn_serial/src/core.c:376-388 | a block of the loader, up to three times on VenusA and once elsewhere, lands behind the ones before it |
| Enter.LoadBlocks | libcskburn_serial/src/core.c:373-391 | the loop: every block of the loader in order, until one fails |
| Enter.BeginStage | libcskburn_serial/src/core.c:367-371 | the begin command of the loader, whose answer is the code |
| Enter.StartLoader | libcskburn_serial/src/core.c:393-396 | starting the loader brings the device, and not the host, to the initial speed, when the device carries it out |
| Enter.SpeedUp | libcskburn_serial/src/core.c:349-363 | the ROM changes its speed and answers at the new one; a refused speed, a port that cannot be set and lost probes have their own errors |
| Enter.LoadImage | libcskburn_serial/src/core.c:364-396 | begin, blocks and end in order with the code of the first failure; with 0 the loader is in RAM byte for byte and talks at the initial speed; the storage is untouched |
| Enter.Load | libcskburn_serial/src/core.c:339-407 | exactly the stages with the ROM, and their code; speeding the ROM up and slowing down again keeps host and device in step |
| Enter.ClockStage | libcskburn_serial/src/core.c:415-422 | the clock setting as a stage |
| Enter.Greet | libcskburn_serial/src/core.c:409-422 | the loader answers, and its clock is set on the chips that need it unless the loader is a custom one |
| Enter.Settle | libcskburn_serial/src/core.c:409-439 | exactly the stages with the loader, and their code; the loader switches to the requested speed, in step with the host |
| Enter.Connect | libcskburn_serial/src/core.c:303-322 | code, speeds and requests of a connection: after a reset, or from the initial speed, every probe is at equal speeds |
| Enter.Enter | libcskburn_serial/src/core.c:324-440 | code and requests of the two-stage handshake are those of its stages; every command is at equal speeds, on every exit; with 0 both run at the requested speed and the loader is in RAM |
| Enter.TryOnce | cskburn/src/main.c:1123-1161 | one turn of the retry loop: a reset when one is due, probes, and the handshake, with the code of the first that fails |
| Enter.SerialConnect | cskburn/src/main.c:1098-1168 | the attempts, each after the first with its reset, until one succeeds, cannot be repaired by another, or is the last; with 0 the loader is in RAM; every command of every attempt is at equal speeds with a nonzero reset delay, and without resets if and only if every attempt before the last has come back to the initial speed |
| Bounds.ValidateFlashBounds | cskburn/src/main.c:457-479 | accepts exactly the nonempty ranges below the capacity and 2^32, with the code of each refusal |
| Bounds.ValidateFlashLayoutArea | cskburn/src/main.c:481-503 | the loop accepts exactly the ranges inside one physical flash, and nothing else is out of bounds |
| Bounds.EraseStaysInside | cskburn/src/main.c:1532-1535 | the rounded-up erase of an accepted aligned range stays inside its flash and below 2^32, so the guard of the erase does not fire |
| Bounds.WholeSectorsIff | cskburn/src/main.c:1532-1535 | every accepted range is erased inside one flash if and only if flashes consist of whole sectors, over all layouts the library lets pass |
| Bounds.IdWholeSectors | libcskburn_serial/src/core.c:903-907 | a capacity from a flash id is whole sectors if and only if its code is at least 12 |
| Bounds.EraseAreasAt | cskburn/src/main.c:1503-1511 | after erasing areas in turn a byte that one of them covers reads 0xFF, and any other is as before |
| SessionPlan.ToldMild | cskburn/src/main.c:1170-1629 | only calls that erase, write or connect send a request that begins a write, carries data or erases, and only the selection of a flash sends an index |
| SessionPlan.ChipTable | libcskburn_serial/src/core.c:38-78 | what each chip and its loader can do |
| SessionPlan.QuietFlat | cskburn/src/main.c:1170-1629 | what calls that change nothing say on the wire changes nothing |
| SessionPlan.LockOnWire | cskburn/src/main.c:1576-1622 | a lock behind the last erase or write is a lock request behind the last request that changes the flash |
| SessionPlan.IndexOnWire | cskburn/src/main.c:1583-1622 | so is the automatic selection of flashes |
| SessionPlan.PartErasedInside | cskburn/src/main.c:1532-1535 | with whole sectors, the rounded-up erase of an accepted partition lies inside one flash |
| SessionPlan.WrittenIsBurned | cskburn/src/main.c:1531-1549 | erased on command or on its own, a partition that has been written is burned, on any medium |
| SessionPlan.WriteOutBurns | cskburn/src/main.c:1531-1549 | writing all partitions in order onto such a flash is burning them, on any medium |
| SessionPlan.FoundGrows | cskburn/src/main.c:1225-1315 | what a step has told about size and layout stays told |
| SessionPlan.TwoMinded | cskburn/src/main.c:1241-1282 | two flashes that the device has told are known to the session |
| SessionPlan.LockIs | cskburn/src/main.c:1463-1481 | the flash counts as locked if and only if the answer to the query before unlocking says so |
| SessionPlan.FreedByProbe | cskburn/src/main.c:1463-1481 | asking a flash that does not say that it is locked settles the lock |
| SessionPlan.FreedByUnlock | cskburn/src/main.c:1474-1480 | unlocking settles it, whatever the flash has said before |
| SessionPlan.GuardedOnWire | cskburn/src/main.c:1463-1549 | on the wire, no request changes a flash that has a lock before one has unlocked it, or an answer has said anything but that it is locked |
| SessionPlan.UntouchedOnWire | cskburn/src/main.c:1463-1481 | a session that leaves the protection alone sends no unlock request |
| SessionPlan.QuietPlan | cskburn/src/main.c:1463-1549 | a session that goes well without erasing or writing had nothing to erase or write |
| SessionPlan.BlamesNew | cskburn/src/main.c:1204-1606 | the first step that is not good gives the code |
| SessionPlan.BlamesGrows | cskburn/src/main.c:1607-1622 | and no later step changes that |
| SessionPlan.FirstStep | cskburn/src/main.c:1336-1417 | checking one range after the other finds the first that is not acceptable |
| SerialBurn.Session.DetectFlash | cskburn/src/main.c:1230-1292 | detection changes nothing; a layout that the device tells is adopted, and otherwise the size is that of its flash id |
| SerialBurn.Session.AdoptMap | cskburn/src/main.c:1241-1282 | a layout that the library has let pass never fails the second check, and is adopted whole, with the flags for two flashes |
| SerialBurn.Session.Detect | cskburn/src/main.c:1225-1315 | the queries of each target, in order, and nothing else; size and layout are those that the device has told, and an empty card is a failure |
| SerialBurn.Session.Prepare | cskburn/src/main.c:1209-1334 | chip id, detection, unlocking and protection state, each exactly when asked for; size and layout are those that the device has told, and with --unlock the lock is settled |
| SerialBurn.Session.Protections | cskburn/src/main.c:1317-1334 | unlocking and protection state as the command line asks; with --unlock the lock is settled |
| SerialBurn.Session.CheckArea | cskburn/src/main.c:1337-1345 | the two range checks accept exactly the allowed ranges, with the code of each refusal |
| SerialBurn.Session.ValidateErases | cskburn/src/main.c:1348-1370 | accepts exactly aligned allowed ranges |
| SerialBurn.Session.ValidateParts | cskburn/src/main.c:1384-1412 | accepts exactly partitions aligned for their target in allowed ranges |
| SerialBurn.Session.Validate | cskburn/src/main.c:1336-1417 | passes if and only if every read, erase, digest and partition range is acceptable, and otherwise returns the code of the first that is not |
| SerialBurn.Session.ReadFile | cskburn/src/main.c:1419-1461 | with 0 the file holds exactly the range; it is refused if and only if it cannot be opened, and with --verify-all it fails if and only if the digest that the device sends differs from that of the file |
| SerialBurn.Session.ReadBack | cskburn/src/main.c:1419-1461 | so do all files, of which each was opened, and nothing has been changed |
| SerialBurn.Session.Admit | cskburn/src/main.c:1209-1461 | until every range is accepted, for the size and the layout that the device has told, and every file is read, nothing has been erased or written; a refusal means a range or a file |
| SerialBurn.Session.AutoUnlock | cskburn/src/main.c:1463-1481 | before anything is erased or written on a flash, it has been unlocked or asked about its lock, and unlocked if it said that it is locked; when nothing is to be erased or written, neither; the one tolerated failure is left in the code only when an erase or write will follow |
| SerialBurn.Session.EraseDual | cskburn/src/main.c:1485-1495 | erasing two flashes one by one erases exactly [0, total) |
| SerialBurn.Session.EraseList | cskburn/src/main.c:1503-1511 | the areas of the command line in order, each inside one flash |
| SerialBurn.Session.Erases | cskburn/src/main.c:1483-1512 | the flash after the erase phase, and no tolerated code survives an erase |
| SerialBurn.Session.VerifyAreas | cskburn/src/main.c:1514-1527 | each digest is asked for, and nothing is changed |
| SerialBurn.Session.Clear | cskburn/src/main.c:1463-1527 | unlocking on demand, erasing and digests, in that order |
| SerialBurn.Session.EraseFor | cskburn/src/main.c:1532-1539 | the erase of an accepted partition is always sent, and covers its sectors |
| SerialBurn.Session.Compare | cskburn/src/main.c:1551-1573 | 0 if and only if the device has sent the digest of the bytes read from the image |
| SerialBurn.Session.WriteOne | cskburn/src/main.c:1531-1549 | with 0 the rounded-up range has been erased where the chip needs it, and then the partition written, on any memory and medium |
| SerialBurn.Session.BurnOne | cskburn/src/main.c:1531-1574 | the same with the comparison of digests; with --verify-all the digest of the flash agrees with the image even if the device does not answer for its blocks |
| SerialBurn.Session.BurnParts | cskburn/src/main.c:1531-1574 | with 0 all partitions have been written in order and nothing else, on any target; the address to jump to goes with the last image for the RAM |
| SerialBurn.Session.Alter | cskburn/src/main.c:1463-1574 | the memory afterwards is the wiped memory with all partitions written, for all targets, chips and media; every erase stays inside one flash of whole sectors; what the device has told is still what counts |
| SerialBurn.Session.Change | cskburn/src/main.c:1463-1590 | the same up to the regular end, with lock and flash index |
| SerialBurn.Session.Restore | cskburn/src/main.c:1576-1590 | lock and flash index at the regular end: their requests are on the wire, and nothing that changes the flash follows; a failure gives the code |
| SerialBurn.Session.CleanLock | cskburn/src/main.c:1609-1615 | a lock that is missing is made up for, and after a success there is none |
| SerialBurn.Session.CleanIndex | cskburn/src/main.c:1616-1622 | so is the automatic selection |
| SerialBurn.Session.CleanUp | cskburn/src/main.c:1607-1622 | after any exit a lock request follows the last request that changes the flash, and so does the automatic selection, which is the only one; a failure here never replaces the code of what failed before |
| SerialBurn.Session.Order | cskburn/src/main.c:1170-1629 | on every exit: the requests are those of the calls, flashes are only selected automatically, no erase leaves its flash, and a flash is damaged only after its lock has been settled, in the calls and on the wire |
| SerialBurn.Session.Finish | cskburn/src/main.c:1592-1625 | one reset after a success, unless there is something to jump to or it is not wanted, and one after any failure, behind the clean-up |
| SerialBurn.Session.Work | cskburn/src/main.c:1209-1605 | all phases in order, every call with its requests on the wire, for the size and the layout that the device has told |
| SerialBurn.Session.Proceed | cskburn/src/main.c:1207-1627 | the same with resets and clean-up |
| SerialBurn.Session.Run | cskburn/src/main.c:1170-1629 | 0 if and only if every range is acceptable, every file could be opened, and no call failed but what may fail, where the codes come from the answers on the wire, from the connection on, and digests that are compared agree; any other code is that of the first call that failed, the first range that is not acceptable, or a file; with 0 exactly the calls of the plan, with their requests, in order; nothing is altered unless all is accepted for the size and the layout that the device has told, and a layout that it has told counts; lock and index requests close the log on every exit, the latter whenever the device has told two flashes; no erase leaves its flash; a flash is erased or written only after it has been unlocked, or asked and unlocked if it said that it is locked, and only --unlock unlocks where there is nothing to erase or write; equal speeds throughout; the resets; what the files hold; and the memory afterwards, for all targets, chips and media |
| EndToEnd.ImageAscends | cskburn/src/intelhex/intelhex.c:137-281 | the cells of ascending rows ascend |
| EndToEnd.TextBecomesRuns | cskburn/src/read_parts_hex.c:55-196 | a text whose runs fit the buffers is read if and only if there are not too many of them, and then each run is a partition and together they carry the cells |
| EndToEnd.CellsReachFlash | cskburn/src/main.c:1531-1549 | a text with suitable runs, a condition on its cells alone, is read, and burning its partitions puts exactly its cells onto the flash |
| EndToEnd.ImageReachesFlash | cskburn/src/read_parts_hex.c:55-196 | encode an image with suitable runs, parse, assemble and burn: reading succeeds, and the flash holds the image, 0xFF in gaps and sector tails, and is unchanged elsewhere |
| EndToEnd.MeaningReachesFlash | cskburn/src/read_parts_hex.c:55-196 | the same for any ascending records whose pages agree with the Intel format |
| EndToEnd.CutTextReachesFlash | cskburn/src/read_parts_hex.c:85-98 | a file that is cut off inside a record is read without an error, and the flash holds the complete records |
| EndToEnd.BurnHex | cskburn/src/main.c:917-940 | the program on a HEX file: reading it, then the session, over any lossy link, for all chips and media; a file with a wrong checksum or an over-long line is refused before anything is sent; with 0 the flash is the wiped flash with the image on it, when the runs of the image fit the buffers, for the size and the layout that the device has told |
| LostByte.GridAssembles | cskburn/src/read_parts_hex.c:145-196 | one byte at the start of each sector up to 32 MiB: the partition fills up, and the last byte is dropped with the code of success |
| LostByte.LastByteLost | cskburn/src/read_parts_hex.c:152-165 | any HEX file of these bytes is read without an error, the byte at 32 MiB is in no partition, and burning the partitions does not touch it |

## Left out

- Protocol.Carry: does not model wear or write protection, and of a self-erasing flash only that it erases the sectors of each block before it writes them.
- Api.InitNand: bad blocks and the geometry of NAND flashes are not modelled.
- Cmd.Wire.Reset: the toggling of DTR and RTS in do_reset, with its delays and strategies, is one step that either fails or brings the chip into its ROM.
- HexErrors.FailsIff: lines of more than 254 bytes, in which the eight-bit index of the line buffer wraps, are not covered.
- Partitions.AssembleSound: cells that ascend, as in every file that a linker writes; of cells that do not, `ReadPartsHex.AssembleKeeps` states that each chunk is in a partition.
- Partitions.PartitionsCarryImage: likewise.
- SerialBurn.Session.BurnOne: the digest hook is installed right before the partition is burned, not in the validation loop; nothing reads the partition in between.
- Cmd.Host.CommandRecv: the wait-forever time-out (-1) is left out, and a per-device time-out only changes when an event is late.
- Enter.SerialConnect: `--wait`, which retries without end, is left out.
- Md5.Md5Context.Update: a single call with 2^32 bytes or more, which the two counter words do not count, is excluded by a precondition.
- Slip.SlipDev.SlipRead: the byte that the `for` step at libslip/src/slip.c:95 fetches behind the last one is not read in the model.
- EndToEnd.BurnHex: one HEX file per run; what the flash holds is stated for images whose runs fit the buffers, and what is lost otherwise by `Capacity.CarriesIffRunsFit`.
- ReadPartsHex.ReadPartsHex: one file per call; the loop over files, which moves on to the next partition only when the last call on a file has delivered bytes, is not modelled, nor are Universal HEX blocks for another board beyond being skipped as in the code, with both board ids 0.
- The USB path (burner.c, bootrom.c, the USB core.c) except its CRC: its slice loops repeat the block argument.
- Opening and closing ports and files, allocation failures, progress output, logging, error strings, option parsing.
- read_parts_bin: partitions from binary files enter the session like any other partition, but reading the files is not modelled.
- The digest hook of a file writer: the digest of a file is taken of what has been written to it.
- The contents of the loader images, the NAND pin configuration and the VenusA clock settings: opaque bytes.
- Reading logs after the session.
