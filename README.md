# Sensirion embedded-common: the SHDLC and I2C word codecs in Dafny

This project models the protocol core of Sensirion's `embedded-common` driver layer and proves
properties of it. The core is the code that sits between a sensor driver and the platform's
transport HAL:

- **SHDLC** (shdlc/sensirion_shdlc.c), Sensirion's UART framing. A frame is the start flag 0x7E,
  then address, command (state in a response) and length, then the payload, then an 8-bit
  one's-complement sum, then the stop flag 0x7E. Every byte between the flags is byte-stuffed:
  0x11, 0x13, 0x7D and 0x7E travel as 0x7D followed by the byte with bit 5 flipped. This is the
  octet stuffing of section 4.2 of RFC 1662, applied to that reserved set. Two API generations
  are modelled:
  - the one-shot transceiver `sensirion_shdlc_tx` / `_rx` / `_xcv`, on stack scratch buffers;
  - the cursor-based `struct sensirion_shdlc_buffer` with `begin_frame`, the `add_*_to_frame`
    family, `finish_frame` and `tx_frame`, plus `rx_inplace`, which unstuffs a response into
    the same array it is reading from.
- **The I2C word codec** (i2c/sensirion_i2c.c). A command is two big-endian bytes. Every 16-bit
  data word travels as its two bytes followed by their CRC-8: polynomial 0x31, initial value
  0xFF, MSB first, no reflection and no final XOR. The file holds `write_cmd`, `read_data`,
  `write_delay_read_cmd`, `general_call_reset`, `generate_crc` and `check_crc`.
- **The legacy common codec** (sensirion_common.c). It is an alternative build of the same I2C
  wire format, with `uint16_t` argument words and a `STATUS_FAIL` error code. It also holds the
  big-endian byte-to-integer helpers.

The modules follow the program's structure:

| module | file | what it holds |
|---|---|---|
| `Bytes` | bytes.dfy | `uint8`/`uint16`/`uint32`, the byte sum, the big-endian splits and the two's-complement casts |
| `Hal` | hal.dfy | one `HalCall` per transport call (UART tx/rx, I2C write/read, sleep) |
| `Crc8` | crc8.dfy | the CRC-8 as a specification function, and its error-detection lemmas |
| `WordFrame` | word_frame.dfy | the CRC-tagged word layout shared by both I2C generations, and its decoder |
| `SensirionI2c` | sensirion_i2c.dfy | i2c/sensirion_i2c.c, as loops over buffers |
| `SensirionCommon` | sensirion_common.dfy | sensirion_common.c, as loops over buffers |
| `ShdlcWire` | shdlc_wire.dfy | the SHDLC wire format and both receivers' outcomes as specification functions |
| `Shdlc` | sensirion_shdlc.dfy | checksum, stuff_data, tx, rx and xcv, as loops over arrays |
| `ShdlcFrame` | shdlc_buffer.dfy | the `sensirion_shdlc_buffer` class: the frame builder and `rx_inplace` |

The code is imperative where the C code is. Loops become `while` loops with invariants. The
frame buffer record is a class whose methods update `offset`, `checksum` and the `data` array in
place. Each method is proved against a specification function, and the protocol's promises are
lemmas about those functions:

- stuffing and unstuffing are inverse;
- 0x7E occurs only at the two ends of a frame;
- the checksum identity: sum plus checksum is 0xFF;
- a well-formed response is accepted and decoded back to its header and payload;
- a word framed by the writer is read back by the reader;
- CRC-8 detects every single-byte change.

The HAL is not modelled. Each operation takes the HAL's answers (return code, received bytes) as
parameters and returns the list of HAL calls it made. This is how "no HAL call happens" on an
early rejection is stated and proved.

## Model

| member | source | states |
|---|---|---|
| Bytes.BigEndian16 | shdlc/sensirion_shdlc.c:269-276 | the two bytes `add_uint16_t_to_frame` adds, high byte first, recombine to the value |
| Bytes.BigEndian32 | shdlc/sensirion_shdlc.c:250-261 | the four bytes `add_uint32_t_to_frame` adds, most significant first, recombine to the value |
| Bytes.FromInt16 | shdlc/sensirion_shdlc.c:278-282 | the `(uint16_t)` cast of an `int16_t` agrees with it modulo 2^16 and is below 0x8000 exactly for non-negative values |
| Bytes.FromInt32 | shdlc/sensirion_shdlc.c:263-267 | the `(uint32_t)` cast of an `int32_t` agrees with it modulo 2^32 and is below 2^31 exactly for non-negative values |
| Crc8.CrcVectors | i2c/sensirion_i2c.c:42-58 | the CRC of the empty span is the initial value 0xFF; BE EF, 80 00 and 66 66 give 0x92, 0xA2 and 0x93, the values the repository's tests expect |
| Crc8.ShiftInjective | i2c/sensirion_i2c.c:50-55 | one bit round of the CRC register is injective |
| Crc8.AbsorbInjective | i2c/sensirion_i2c.c:48-56 | absorbing the same bytes from two different registers never gives the same CRC |
| Crc8.AbsorbHead | i2c/sensirion_i2c.c:48-49 | a byte is XORed into the register before its eight rounds |
| Crc8.AbsorbDetectsByteChange | i2c/sensirion_i2c.c:48-56 | changing any one absorbed byte changes the register at the end |
| Crc8.CrcDetectsByteChange | i2c/sensirion_i2c.c:42-58 | changing any single byte of a span changes its CRC-8 |
| WordFrame.Split16 | i2c/sensirion_i2c.c:79-80 | a command is sent high byte first, and the two bytes recombine to it |
| WordFrame.GoodWords | i2c/sensirion_i2c.c:110-119 | the number of leading words whose CRC matches fits in the received buffer |
| WordFrame.GoodPayload | i2c/sensirion_i2c.c:117-118 | the bytes copied before the first bad word are two per good word |
| WordFrame.WordsUpTo | i2c/sensirion_i2c.c:82-89 | the first k written words take three bytes each |
| WordFrame.Payload | i2c/sensirion_i2c.c:117-118 | the data bytes of the first k received words are two per word |
| WordFrame.WordsLength | i2c/sensirion_i2c.c:82-89 | an even byte count n goes on the wire as 3·n/2 bytes |
| WordFrame.WordsSnoc | i2c/sensirion_i2c.c:82-89 | one more data word appends its two bytes and their CRC |
| WordFrame.WordsUpToIsWords | i2c/sensirion_i2c.c:82-89 | the loop's progress after k words is the wire form of the first 2k data bytes |
| WordFrame.PayloadCons | i2c/sensirion_i2c.c:110-119 | the payload of k+1 words is the first word's two bytes, then the payload of the rest |
| WordFrame.GoodUpToTail | i2c/sensirion_i2c.c:110-116 | if the first k+1 words are good, then the k words after the first are good |
| WordFrame.GoodPrefix | i2c/sensirion_i2c.c:110-119 | when the first k words are good and word k is bad or missing, exactly k words are accepted and their payload is what was copied |
| WordFrame.WordsRoundTrip | i2c/sensirion_i2c.c:82-119 | reading back the words the writer framed accepts every word and returns the original data bytes |
| WordFrame.WordsHead | i2c/sensirion_i2c.c:83-88 | the first wire word is the first two data bytes and their CRC |
| WordFrame.WordsAt | i2c/sensirion_i2c.c:82-89 | wire word w holds data bytes 2w and 2w+1 and their CRC |
| WordFrame.PayloadOfWords | i2c/sensirion_i2c.c:110-119 | stripping the CRCs from the first k framed words gives the first 2k data bytes |
| WordFrame.PayloadAgrees | i2c/sensirion_i2c.c:117-118 | the payload of k words depends only on the first 3k received bytes |
| WordFrame.CorruptedByteDetected | i2c/sensirion_i2c.c:110-116 | corrupting a data byte of word k stops the reader after exactly k words, having copied only the bytes before it |
| WordFrame.FrameDone | i2c/sensirion_i2c.c:79-89 | after all words, the buffer is the command followed by the framed data |
| WordFrame.Stopped | i2c/sensirion_i2c.c:110-119 | when the CRC loop stops, the caller's array holds the accepted payload and its old bytes after that |
| WordFrame.WordCheck | i2c/sensirion_i2c.c:60-65 | a word passes exactly when the CRC of its two bytes equals its third byte |
| WordFrame.CommandFrameVectors | i2c/sensirion_i2c.c:79-89 | command 0x280E with BE EF, and command 0x260F with 80 00 66 66, give the byte strings of the repository's tests |
| SensirionI2c.GeneralCallReset | i2c/sensirion_i2c.c:37-40 | exactly one HAL write of the byte 0x06 to address 0, whose result is returned |
| SensirionI2c.GenerateCrc | i2c/sensirion_i2c.c:42-58 | the nested loop computes the CRC-8 of the span |
| SensirionI2c.CheckCrc | i2c/sensirion_i2c.c:60-65 | NO_ERROR exactly when the CRC of the span equals the checksum, else CRC_ERROR |
| SensirionI2c.WriteCmd | i2c/sensirion_i2c.c:67-91 | an odd byte count gives BYTE_NUM_ERROR with no HAL call; otherwise exactly one HAL write of the command and the CRC-tagged words, whose result is returned |
| SensirionI2c.PackWords | i2c/sensirion_i2c.c:79-89 | the loop fills 2 + 3·words bytes: the command, then every data word with its CRC |
| SensirionI2c.PutWord | i2c/sensirion_i2c.c:83-88 | one word's two bytes and their CRC are stored at the cursor, and the bytes before it are kept |
| SensirionI2c.ReadSizeIsWireLength | i2c/sensirion_i2c.c:97-98 | the byte count `read_data` requests for n data bytes is exactly the length of the wire form `write_cmd` gives n data bytes, so a peer framing its words the same way fills the request |
| SensirionI2c.ReadData | i2c/sensirion_i2c.c:93-122 | an odd count gives BYTE_NUM_ERROR with no HAL call; otherwise exactly one read of 3·n/2 bytes (`ReadDataCalls`); a HAL error is returned verbatim with the array unchanged; otherwise the array holds the accepted payload, and the result is CRC_ERROR at the first bad word |
| SensirionI2c.CopyCheckedWords | i2c/sensirion_i2c.c:110-121 | the CRC loop returns NO_ERROR exactly when every word is good, and copies the data bytes of the words before the first bad one |
| SensirionI2c.WriteDelayReadCmd | i2c/sensirion_i2c.c:124-143 | a write error is returned with no sleep and no read; otherwise it sleeps only for a non-zero delay, then reads, and returns the read's result |
| SensirionI2c.WriteCmdVector | i2c/sensirion_i2c.c:79-90 | command 0x280E with data BE EF sends 28 0E BE EF 92 |
| SensirionI2c.ReadBackAccepts | i2c/sensirion_i2c.c:82-121 | the reader accepts what the writer framed and recovers the original data |
| SensirionCommon.BytesToUint16Value | sensirion_common.c:41-43 | the first two bytes are read big-endian: b0·256 + b1 |
| SensirionCommon.BytesToUint32Value | sensirion_common.c:45-48 | the first four bytes are read big-endian: b0·2^24 + b1·2^16 + b2·2^8 + b3 |
| SensirionCommon.Uint32Bytes | sensirion_common.c:45-48 | each of the four input bytes can be recovered from the result |
| SensirionCommon.Uint16RoundTrip | sensirion_common.c:41-43 | reading back a value split high byte first gives the value |
| SensirionCommon.Uint16Split | sensirion_common.c:41-43 | splitting a value read from two bytes gives those two bytes |
| SensirionCommon.WordBytes | sensirion_common.c:134-137 | the argument words become two bytes each, high byte first |
| SensirionCommon.WordBytesAt | sensirion_common.c:135-136 | bytes 2i and 2i+1 are the high and low byte of word i |
| SensirionCommon.WordBytesDecode | sensirion_common.c:41-43 | reading bytes 2i and 2i+1 back gives word i |
| SensirionCommon.GeneralCallReset | sensirion_common.c:85-88 | exactly one write of the byte 0x06 to address 0, whose result is returned |
| SensirionCommon.CommonGenerateCrc | sensirion_common.c:60-76 | the legacy loop computes the same CRC-8 as i2c/sensirion_i2c.c |
| SensirionCommon.CommonCheckCrc | sensirion_common.c:78-83 | NO_ERROR exactly when the CRC matches, else STATUS_FAIL |
| SensirionCommon.ReadWordsAsBytes | sensirion_common.c:90-116 | exactly one read of 3·num_words bytes; a HAL error is returned verbatim with the array unchanged; otherwise the array holds the accepted payload, and the result is STATUS_FAIL at the first bad word |
| SensirionCommon.CheckedWordsToBytes | sensirion_common.c:103-115 | the CRC loop returns NO_ERROR exactly when every word is good, and copies the data bytes of the words before the first bad one |
| SensirionCommon.WriteCmdWithArgs | sensirion_common.c:122-143 | exactly one write of the command and every argument word's two bytes with their CRC, whose result is returned |
| SensirionCommon.PackArgWords | sensirion_common.c:130-141 | the loop fills 2 + 3·num_words bytes: the command, then every word's bytes with its CRC |
| SensirionCommon.PutArgWord | sensirion_common.c:135-140 | one word's high byte, low byte and CRC are stored at the cursor, and the bytes before it are kept |
| SensirionCommon.WriteCmd | sensirion_common.c:118-120 | exactly the two command bytes are written |
| SensirionCommon.DelayedReadCmd | sensirion_common.c:145-159 | a write error is returned with no sleep and no read; otherwise it sleeps only for a non-zero delay, then reads, and returns the read's result |
| SensirionCommon.ArgsReadBack | sensirion_common.c:90-143 | words written by `write_cmd_with_args` are accepted by `read_words_as_bytes`, and each one decodes back to itself |
| SensirionCommon.WriteCmdWithArgsVector | sensirion_common.c:122-143 | command 0x260F with words 0x8000 and 0x6666 sends 26 0F 80 00 A2 66 66 93 |
| ShdlcWire.CheckUnstuff | shdlc/sensirion_shdlc.c:85-87 | a byte that opens the stuffed form of some byte announces an escape exactly when that stuffed form is two bytes long, so a byte travelling as itself is never taken for an escape |
| ShdlcWire.StuffByteFacts | shdlc/sensirion_shdlc.c:89-102 | `unstuff_byte` inverts the bit-5 flip of every reserved byte; an escaped byte is never 0x7D, and no stuffed byte is 0x7E, 0x11 or 0x13 |
| ShdlcWire.NonCanonicalEscape | shdlc/sensirion_shdlc.c:89-102 | after 0x7D, the byte 0x41 is kept by `unstuff_byte` but flipped (line 331) to 0x61 by `unstuff_next_byte` |
| ShdlcWire.StuffedAppend | shdlc/sensirion_shdlc.c:64-81 | stuffing works byte by byte, so it distributes over concatenation |
| ShdlcWire.StuffedLength | shdlc/sensirion_shdlc.c:59-83 | the stuffed length is n plus the number of reserved bytes, so at most 2n |
| ShdlcWire.StuffedClean | shdlc/sensirion_shdlc.c:64-81 | stuffed output never contains 0x7E, 0x11 or 0x13 |
| ShdlcWire.ChecksumCheck | shdlc/sensirion_shdlc.c:49-57 | a received checksum equals the computed one exactly when the byte sum of the fields plus the checksum is 0xFF modulo 256, the test `rx_inplace` makes at line 372 |
| ShdlcWire.HeaderSumFold | shdlc/sensirion_shdlc.c:195-196 | passing in the header bytes already summed into one `uint8_t` gives the same checksum |
| ShdlcWire.MosiFrame | shdlc/sensirion_shdlc.c:118-133 | a request frame is 6 to 2 + 2·(4 + n) bytes long, within the 520-byte transmit buffer |
| ShdlcWire.MisoFrame | shdlc/sensirion_shdlc.c:45 | a response frame is 7 to 2 + 2·(5 + n) bytes long |
| ShdlcWire.FrameDelimited | shdlc/sensirion_shdlc.c:305-308 | a frame starts and ends with 0x7E and has no 0x7E, 0x11 or 0x13 in between |
| ShdlcWire.BuiltPrefixKept | shdlc/sensirion_shdlc.c:226-303 | adding fields keeps the frame built so far as a prefix of the buffer |
| ShdlcWire.StuffedHeader | shdlc/sensirion_shdlc.c:351-354 | the four header bytes are stuffed one by one |
| ShdlcWire.MisoLayout | shdlc/sensirion_shdlc.c:143-207 | a response frame is start, stuffed header, stuffed data, stuffed checksum, stop |
| ShdlcWire.MosiLayout | shdlc/sensirion_shdlc.c:125-133 | `tx` sends start, the stuffed address, command and length, the stuffed data, the stuffed checksum, then stop |
| ShdlcWire.StuffedCommandHeader | shdlc/sensirion_shdlc.c:240-242 | the address, command and length are stuffed one by one |
| ShdlcWire.AutoCleanFrameZero | shdlc/sensirion_shdlc.c:233-308 | address 0, command 0x80, length 5 and payload 00 00000000 frame as 7E 00 80 05 00 00 00 00 00 7A 7E |
| ShdlcWire.AutoCleanFrameCounting | shdlc/sensirion_shdlc.c:233-308 | the same request with interval 0x01020304 frames as 7E 00 80 05 00 01 02 03 04 70 7E |
| ShdlcWire.AutoCleanFrameEscaped | shdlc/sensirion_shdlc.c:233-308 | with interval 0x7E7D1113 all four payload bytes are escaped: 7E 00 80 05 00 7D 5E 7D 5D 7D 31 7D 33 5B 7E |
| ShdlcWire.AutoCleanVector | shdlc/sensirion_shdlc.c:233-308 | a frame of these fields with a four-byte payload is laid out as given |
| ShdlcWire.AutoCleanLayout | shdlc/sensirion_shdlc.c:233-308 | the frame of address 0, command 0x80, length 5, sub-command 0 and four bytes is the header, the stuffed bytes and the stuffed complement of their sum |
| ShdlcWire.TxVerdict | shdlc/sensirion_shdlc.c:135-140 | NO_ERROR exactly when the HAL sent the whole frame; a negative HAL result is returned verbatim; the result is never positive; `tx_frame` (lines 314-321) uses the same verdict |
| ShdlcWire.UnstuffRun | shdlc/sensirion_shdlc.c:158-183 | the unstuffing loop never passes its end bound and never produces more than the bytes asked for |
| ShdlcWire.UnstuffRunStuffed | shdlc/sensirion_shdlc.c:158-183 | unstuffing a stuffed span yields exactly the original bytes and stops behind it |
| ShdlcWire.UnstuffRunAt | shdlc/sensirion_shdlc.c:158-183 | the same, for a run that starts at the stuffed span inside a buffer |
| ShdlcWire.RxOutcome | shdlc/sensirion_shdlc.c:143-207 | `rx` returns one of its seven codes; success means a start byte was there, and that the header announced at most `max_data_len` bytes, that many were decoded and the state has no error bits |
| ShdlcWire.RxData | shdlc/sensirion_shdlc.c:174-207 | after the header, `rx` decodes at most the announced bytes, and succeeds only with all of them and a clean state |
| ShdlcWire.RxTrailer | shdlc/sensirion_shdlc.c:191-207 | the checksum, stop and state checks leave header and data as decoded, and succeed only within the received length |
| ShdlcWire.RxHeaderRun | shdlc/sensirion_shdlc.c:158-167 | on a well-formed response, the header loop decodes the four header bytes |
| ShdlcWire.RxDataRun | shdlc/sensirion_shdlc.c:174-183 | on a well-formed response, the data loop decodes the payload |
| ShdlcWire.RxCrcRead | shdlc/sensirion_shdlc.c:191-199 | on a well-formed response, the checksum read yields the sent checksum and is followed by the stop byte |
| ShdlcWire.RxDecides | shdlc/sensirion_shdlc.c:143-207 | when header, data and checksum decode, `rx` reports a checksum mismatch, an execution failure or success, in that order |
| ShdlcWire.RxReadsFrame | shdlc/sensirion_shdlc.c:143-207 | `rx` accepts every well-formed response frame that fits `max_data_len`, and decodes it to the sent header and payload (failing only on a wrong checksum or a state with error bits) |
| ShdlcWire.NextByte | shdlc/sensirion_shdlc.c:324-335 | `unstuff_next_byte` advances the read offset by one or two |
| ShdlcWire.NextByteStuffed | shdlc/sensirion_shdlc.c:324-335 | reading a stuffed byte back yields the byte and skips its stuffed form |
| ShdlcWire.NextByteAt | shdlc/sensirion_shdlc.c:324-335 | the same, at a given offset inside a buffer |
| ShdlcWire.HeaderStuffed | shdlc/sensirion_shdlc.c:351-354 | the four header reads decode four stuffed header bytes, each read ending where the next starts |
| ShdlcWire.DecodeRunBounds | shdlc/sensirion_shdlc.c:361-363 | the in-place data loop only appends, never exceeds the announced length, and consumes one or two bytes per decoded byte |
| ShdlcWire.DecodeRunStep | shdlc/sensirion_shdlc.c:361-363 | one iteration of the in-place data loop decodes one byte and continues from the next offset |
| ShdlcWire.DecodeRunStuffed | shdlc/sensirion_shdlc.c:361-363 | the in-place data loop over a stuffed payload yields the payload |
| ShdlcWire.InplaceOutcome | shdlc/sensirion_shdlc.c:337-386 | `rx_inplace` returns one of its seven codes; success means the announced length fits `expected`, that many bytes were decoded, the state is clean, the running sum is 0xFF and the stop byte is at the final offset |
| ShdlcWire.InplaceFramed | shdlc/sensirion_shdlc.c:351-386 | behind the start byte, the header is always read, and success carries the same facts |
| ShdlcWire.InplaceData | shdlc/sensirion_shdlc.c:361-386 | the data loop keeps the header and decodes at most the announced bytes; success needs all of them |
| ShdlcWire.InplaceTrailer | shdlc/sensirion_shdlc.c:369-386 | the checksum, stop and state checks keep header and payload, and succeed only with a 0xFF sum and the stop byte |
| ShdlcWire.InplaceChecksum | shdlc/sensirion_shdlc.c:369-374 | the running sum reaching 0xFF is exactly the checksum matching the header and payload |
| ShdlcWire.InplaceHeaderSteps | shdlc/sensirion_shdlc.c:351-354 | on a well-formed response, the four header reads decode the sent header |
| ShdlcWire.InplaceDataRun | shdlc/sensirion_shdlc.c:361-363 | on a well-formed response, the in-place data loop decodes the sent payload |
| ShdlcWire.InplaceCrcRead | shdlc/sensirion_shdlc.c:369-377 | on a well-formed response, the checksum read yields the sent checksum and is followed by the stop byte |
| ShdlcWire.InplaceHeaderDecides | shdlc/sensirion_shdlc.c:345-359 | behind a start byte and an acceptable header, the outcome is that of the data loop |
| ShdlcWire.InplaceDataDecides | shdlc/sensirion_shdlc.c:361-367 | when the data loop decodes the whole payload, the outcome is that of the trailer checks |
| ShdlcWire.InplaceTrailerDecides | shdlc/sensirion_shdlc.c:369-386 | the trailer checks report a checksum mismatch, an execution failure or success, in that order |
| ShdlcWire.InplaceDecides | shdlc/sensirion_shdlc.c:337-386 | when header, payload and checksum decode, the outcome is decided by the checksum and the state alone |
| ShdlcWire.InplaceReadsFrame | shdlc/sensirion_shdlc.c:337-386 | `rx_inplace` accepts every well-formed response frame that fits `expected`, decodes it to the sent header and payload, and stops on the stop byte |
| Shdlc.Checksum | shdlc/sensirion_shdlc.c:49-57 | the loop computes the complement of the 8-bit sum of header sum, length and data |
| Shdlc.StuffData | shdlc/sensirion_shdlc.c:59-83 | the loop writes the stuffed bytes at the output position, returns their count and leaves the rest of the buffer unchanged |
| Shdlc.PutStuffed | shdlc/sensirion_shdlc.c:66-80 | one byte is written as itself, or as 0x7D and its bit-5 flip |
| Shdlc.StuffedStep | shdlc/sensirion_shdlc.c:64-81 | the stuffing of a prefix grows by one byte's stuffing per iteration |
| Shdlc.Tx | shdlc/sensirion_shdlc.c:118-141 | exactly one UART write, of the request frame; the verdict is NO_ERROR exactly when the whole frame was sent |
| Shdlc.TxChecksum | shdlc/sensirion_shdlc.c:125 | the request checksum covers address, command, length and data |
| Shdlc.Overlay | shdlc/sensirion_shdlc.c:160-181 | decoded bytes replace the front of the destination and leave the rest unchanged |
| Shdlc.Unstuff | shdlc/sensirion_shdlc.c:158-183 | the decoding loop ends where the specification's run ends and writes exactly the run's bytes |
| Shdlc.RxHeaderSum | shdlc/sensirion_shdlc.c:195-196 | summing address, command and state into one byte first gives the checksum of the whole header |
| ShdlcWire.RxOutcomeWithinLen | shdlc/sensirion_shdlc.c:154-200 | `sensirion_shdlc_rx` never reads at or past the received length: two buffers that agree on their first `len` bytes give the same result, header and data |
| Shdlc.Rx | shdlc/sensirion_shdlc.c:143-207 | exactly one UART read of 2 + 2·(5 + max_data_len) bytes; the result, the header written and the data written are those of the specification's outcome |
| Shdlc.Xcv | shdlc/sensirion_shdlc.c:104-116 | if sending fails, that error is returned with no sleep, no read and nothing written; otherwise send, sleep 20 ms, receive, and return the receive's outcome |
| ShdlcFrame.Buffer.constructor | shdlc/sensirion_shdlc.h:50-54 | a zero-initialised buffer record over the caller's array |
| ShdlcFrame.Buffer.StuffByteAt | shdlc/sensirion_shdlc.c:209-224 | one byte is written at the offset, escaped if reserved, and the offset advances by its stuffed length |
| ShdlcFrame.Buffer.AddUint8 | shdlc/sensirion_shdlc.c:226-231 | the byte is stuffed behind the frame built so far, the running sum grows by the unstuffed byte, and nothing else in the buffer changes |
| ShdlcFrame.Buffer.BeginFrame | shdlc/sensirion_shdlc.c:233-243 | the buffer holds 0x7E and the stuffed address, command and length; the running sum is theirs; the rest of the array is unchanged |
| ShdlcFrame.Buffer.AddBool | shdlc/sensirion_shdlc.c:245-248 | adds the byte 1 or 0: the stuffed bytes are written at the old offset, the offset moves past them, and every other byte of the array is unchanged |
| ShdlcFrame.Buffer.AddUint16 | shdlc/sensirion_shdlc.c:269-276 | adds the two big-endian bytes: the stuffed bytes are written at the old offset, the offset moves past them, and every other byte of the array is unchanged |
| ShdlcFrame.Buffer.AddInt16 | shdlc/sensirion_shdlc.c:278-282 | adds the two's-complement bits as a `uint16_t`: the stuffed bytes are written at the old offset, the offset moves past them, and every other byte of the array is unchanged |
| ShdlcFrame.Buffer.AddUint32 | shdlc/sensirion_shdlc.c:250-261 | adds the four big-endian bytes: the stuffed bytes are written at the old offset, the offset moves past them, and every other byte of the array is unchanged |
| ShdlcFrame.Buffer.AddInt32 | shdlc/sensirion_shdlc.c:263-267 | adds the two's-complement bits as a `uint32_t`: the stuffed bytes are written at the old offset, the offset moves past them, and every other byte of the array is unchanged |
| ShdlcFrame.Buffer.AddBytes | shdlc/sensirion_shdlc.c:295-303 | adds the bytes in order: the stuffed bytes are written at the old offset, the offset moves past them, and every other byte of the array is unchanged |
| ShdlcFrame.Buffer.FinishFrame | shdlc/sensirion_shdlc.c:305-308 | the buffer up to the offset is exactly the frame of the added fields: start, stuffed fields, stuffed complement of their sum, stop; the running sum ends at 0xFF; only the checksum and stop bytes are written, at the old offset, and the rest of the array is unchanged |
| ShdlcFrame.Buffer.TxFrame | shdlc/sensirion_shdlc.c:310-322 | exactly one UART write, of the bytes up to the offset; NO_ERROR exactly when all were sent |
| ShdlcFrame.Buffer.UnstuffNextByte | shdlc/sensirion_shdlc.c:324-335 | the byte read and the new offset are the specification's next decoded byte, and the running sum grows by it |
| ShdlcFrame.Buffer.ReadHeader | shdlc/sensirion_shdlc.c:351-354 | four decoded bytes fill the header in order, and the running sum grows by their sum |
| ShdlcFrame.Buffer.RxInplace | shdlc/sensirion_shdlc.c:337-386 | exactly one UART read of 2 + 2·(5 + expected) bytes; result, offset, running sum, decoded payload and header are those of the specification's outcome |
| ShdlcFrame.Buffer.ReceiveFramed | shdlc/sensirion_shdlc.c:351-386 | behind the start byte, the method ends as the specification's framed outcome |
| ShdlcFrame.Buffer.HeaderStage | shdlc/sensirion_shdlc.c:356-359 | after the header reads, an announced length above `expected` gives ERR_FRAME_TOO_LONG and anything else continues with the data loop |
| ShdlcFrame.Buffer.ReceivePayload | shdlc/sensirion_shdlc.c:361-386 | the data loop and the trailer end as the specification's data stage |
| ShdlcFrame.Buffer.ReceiveTrailer | shdlc/sensirion_shdlc.c:369-386 | the checksum read, the stop byte and the state check end as the specification's trailer |
| ShdlcFrame.Buffer.UnstuffPayload | shdlc/sensirion_shdlc.c:361-363 | the loop decodes the specification's run in place; each decoded byte lands at index i while the read offset is already past it |
| ShdlcFrame.Buffer.DecodeOne | shdlc/sensirion_shdlc.c:362 | one in-place step writes the decoded byte at i, below the read offset, and leaves every unread byte untouched |
| ShdlcFrame.AutoCleanCommand | shdlc/sensirion_shdlc.c:233-308 | `begin_frame`, a sub-command byte, a `uint32_t` interval and `finish_frame` build the frames of the repository's three auto-clean tests |
| ShdlcFrame.AutoCleanVectors | shdlc/sensirion_shdlc.c:250-308 | the three auto-clean intervals give exactly the expected frames |

## Left out

- `sensirion_shdlc_add_float_to_frame` and `sensirion_bytes_to_float`. They reinterpret IEEE-754 bits through a union, and the model has no floating point. The `uint32_t` path they feed is modelled (`AddUint32`, `BytesToUint32`).
- The HAL implementations, the sleeps and the 20 ms UART turnaround. HAL answers are parameters, and each call is recorded in the returned `calls` list.
- The software I2C driver, the vendor hardware-I2C samples, the example application and the unit-test setup. They are platform glue over SDKs that are not part of this model.
- `sensirion_i2c_add_command_to_buffer` and `sensirion_i2c_add_uint16_t_to_buffer`, which the tests call, are not part of this model. Their expected bytes serve as vectors for `write_cmd`'s identical layout (`WriteCmdVector`, `WriteCmdWithArgsVector`, `CommandFrameVectors`).
- ShdlcFrame.Buffer: the `uint16_t` offset is a `nat`. Buffers are required to be shorter than 0x10000 bytes, so it never wraps.
- ShdlcFrame.Buffer.UnstuffNextByte: requires two readable bytes at the offset. The C code reads without any bound, relying on the receive buffer being large enough.
- ShdlcFrame.Buffer.RxInplace: requires the array to hold the full requested length, and the ghost `received` is the whole array after the HAL read. Header reads beyond the received length see whatever is in the array, as the C code does.
- Shdlc.Rx: the stack frame buffer is modelled at its declared capacity, with only the first `len` bytes meaningful. Bytes past `len` are arbitrary and never read (`RxOutcomeWithinLen`).
- Shdlc.Rx, Shdlc.Xcv, ShdlcFrame.Buffer.RxInplace: require the UART HAL to return no more bytes than it was asked for. The C code does not check this.
- Shdlc.Rx and ShdlcFrame.Buffer.RxInplace: no "nothing changed on error" promise. Both write header and data before failing, and the header file tells callers to discard them.
- ShdlcWire.NonCanonicalEscape: the two receivers disagree on a non-canonical escape such as 0x7D 0x41. The model follows each one as written. Only stuffed input is promised to round-trip.
- SensirionI2c.WriteCmd, ReadData, WriteDelayReadCmd: require the frame to fit the 64-byte stack buffer (at most 20 data words, or 21 words read). The C code does not check this.
- SensirionCommon.ReadWordsAsBytes, DelayedReadCmd: require 3·num_words ≤ 64, the size of `word_buf`. The C code does not check this.
- SensirionCommon.WriteCmdWithArgs: requires 2 + 3·num_words ≤ 32. The buffer is declared with `SENSIRION_MAX_BUFFER_WORDS` (32) bytes, not words, so at most 10 argument words fit. The C code does not check this.
- SensirionCommon.CommonCheckCrc: `STATUS_FAIL` comes from sensirion_common.h, which is not part of this model. It is taken as -1; the proofs use only that it differs from `NO_ERROR`.
- The stack buffers of both `write_cmd` variants start zero-filled, where C leaves them uninitialised. Only the filled prefix is ever sent, so the starting bytes do not matter.
- Byte-width arithmetic: the SHDLC checksum is computed as a sum modulo 256, and lengths as unbounded integers within the bounds above. The C code's `uint8_t`/`uint16_t` variables never wrap within those bounds, apart from the checksum, which is modelled modulo 256.
