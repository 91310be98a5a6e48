/** The older common API generation (sensirion_common.c): big-endian byte
    helpers, its own copy of the CRC-8, reading CRC-tagged words into bytes,
    writing a command with 16-bit argument words, and the delayed read. It is
    an alternative build to `SensirionI2c`: both define a general call reset
    and a command write, so the two are kept apart as modules. */
module SensirionCommon {
  import opened Hal
  import opened Crc8
  import opened WordFrame

  // Return codes from sensirion_common.h, which is not part of this model:
  // NO_ERROR is 0 and STATUS_FAIL is taken as -1; the proofs only use that
  // STATUS_FAIL differs from NO_ERROR.
  const NO_ERROR := 0
  const STATUS_FAIL := -1

  /** The byte a general call reset sends to the broadcast address 0. */
  const GENERAL_CALL_RESET: bv8 := 0x06

  /** The 16-bit word buffer of read_words_as_bytes, in bytes
      (MAX_BUFFER_WORDS words of two bytes). */
  const READ_BUFFER_SIZE := 64

  /** The byte buffer of write_cmd_with_args: only MAX_BUFFER_WORDS bytes. */
  const WRITE_BUFFER_SIZE := 32

  /** Big-endian: the first byte is the high byte. */
  function BytesToUint16(bytes: seq<bv8>): bv16
    requires |bytes| >= 2
  {
    (bytes[0] as bv16 << 8) | bytes[1] as bv16
  }

  /** The value of two bytes, high byte first. */
  lemma BytesToUint16Value(bytes: seq<bv8>)
    requires |bytes| >= 2
    ensures BytesToUint16(bytes) == bytes[0] as bv16 * 0x100 + bytes[1] as bv16
  {
  }

  /** Big-endian: bytes[0] carries bits 31..24, bytes[3] bits 7..0. */
  function BytesToUint32(bytes: seq<bv8>): bv32
    requires |bytes| >= 4
  {
    (bytes[0] as bv32 << 24) | (bytes[1] as bv32 << 16) | (bytes[2] as bv32 << 8) | bytes[3] as bv32
  }

  /** The value of four bytes, most significant first. */
  lemma BytesToUint32Value(bytes: seq<bv8>)
    requires |bytes| >= 4
    ensures BytesToUint32(bytes) == bytes[0] as bv32 * 0x100_0000 + bytes[1] as bv32 * 0x1_0000
                                    + bytes[2] as bv32 * 0x100 + bytes[3] as bv32
  {
  }

  /** Each byte of the four can be read back from the value. */
  lemma Uint32Bytes(bytes: seq<bv8>)
    requires |bytes| >= 4
    ensures (BytesToUint32(bytes) >> 24) as bv8 == bytes[0]
    ensures ((BytesToUint32(bytes) >> 16) & 0xFF) as bv8 == bytes[1]
    ensures ((BytesToUint32(bytes) >> 8) & 0xFF) as bv8 == bytes[2]
    ensures (BytesToUint32(bytes) & 0xFF) as bv8 == bytes[3]
  {
  }

  /** Reading back the two bytes a word is sent as gives the word. */
  lemma Uint16RoundTrip(w: bv16)
    ensures BytesToUint16(Split16(w)) == w
  {
  }

  /** And the other way: the bytes are determined by the word they decode to. */
  lemma Uint16Split(bytes: seq<bv8>)
    requires |bytes| >= 2
    ensures Split16(BytesToUint16(bytes)) == bytes[..2]
  {
  }

  /** The argument words as the bytes they are sent as, high byte first. */
  function WordBytes(words: seq<bv16>): (r: seq<bv8>)
    ensures |r| == 2 * |words|
  {
    if words == [] then [] else Split16(words[0]) + WordBytes(words[1..])
  }

  /** Word `i` sits at bytes 2i and 2i+1. */
  lemma {:induction false} WordBytesAt(words: seq<bv16>, i: nat)
    requires i < |words|
    ensures WordBytes(words)[2 * i] == Split16(words[i])[0]
    ensures WordBytes(words)[2 * i + 1] == Split16(words[i])[1]
  {
    if i > 0 {
      WordBytesAt(words[1..], i - 1);
    }
  }

  /** Decoding the bytes of word `i` gives back word `i`. */
  lemma WordBytesDecode(words: seq<bv16>, i: nat)
    requires i < |words|
    ensures BytesToUint16(WordBytes(words)[2 * i .. 2 * i + 2]) == words[i]
  {
    WordBytesAt(words, i);
    Uint16RoundTrip(words[i]);
  }

  /** Resets every device on the bus that honours the general call: one write
      of the single byte 0x06 to address 0, whose result is returned. */
  method GeneralCallReset(halResult: int) returns (ret: int, calls: seq<HalCall>)
    ensures calls == [I2cWrite(0, [GENERAL_CALL_RESET])]
    ensures ret == halResult
  {
    calls := [I2cWrite(0, [GENERAL_CALL_RESET])];
    ret := halResult;
  }

  /** The bitwise CRC loop of this API generation; it computes the same
      checksum as `SensirionI2c.GenerateCrc`. */
  method CommonGenerateCrc(data: seq<bv8>) returns (crc: bv8)
    requires |data| <= 0xFFFF
    ensures crc == Crc(data)
  {
    crc := INIT;
    var currentByte := 0;
    while currentByte < |data|
      invariant 0 <= currentByte <= |data|
      invariant Absorb(crc, data[currentByte..], 0) == Crc(data)
    {
      assert data[currentByte..][1..] == data[currentByte + 1..];
      crc := crc ^ data[currentByte];
      var crcBit := 8;
      while crcBit > 0
        invariant 0 <= crcBit <= 8
        invariant Absorb(crc, data[currentByte + 1..], crcBit) == Crc(data)
      {
        if crc & 0x80 != 0 {
          crc := (crc << 1) ^ POLYNOMIAL;
        } else {
          crc := crc << 1;
        }
        crcBit := crcBit - 1;
      }
      currentByte := currentByte + 1;
    }
  }

  /** NO_ERROR exactly when the checksum matches the data, STATUS_FAIL
      otherwise. */
  method CommonCheckCrc(data: seq<bv8>, checksum: bv8) returns (r: int)
    requires |data| <= 0xFFFF
    ensures r == NO_ERROR <==> Crc(data) == checksum
    ensures r != NO_ERROR ==> r == STATUS_FAIL
  {
    var crc := CommonGenerateCrc(data);
    if crc != checksum {
      return STATUS_FAIL;
    }
    return NO_ERROR;
  }

  /** What read_words_as_bytes returns: the HAL read's error, or the verdict
      of the CRC of every word. */
  function ReadWordsResult(halStatus: int, raw: seq<bv8>): int
  {
    if halStatus != NO_ERROR then halStatus
    else if 3 * GoodWords(raw) == |raw| then NO_ERROR
    else STATUS_FAIL
  }

  /** Reads `numWords` CRC-tagged words and stores their data bytes. There is
      no length check: one read of 3 * numWords bytes is always made.
      `halStatus` is what the read returns and `raw` what it stores. */
  method ReadWordsAsBytes(address: bv8, data: array<bv8>, numWords: nat, halStatus: int, raw: seq<bv8>)
    returns (ret: int, calls: seq<HalCall>)
    requires 3 * numWords <= READ_BUFFER_SIZE && 2 * numWords <= data.Length
    requires |raw| == 3 * numWords
    modifies data
    ensures ret == ReadWordsResult(halStatus, raw)
    ensures calls == [I2cRead(address, 3 * numWords)]
    ensures halStatus != NO_ERROR ==> data[..] == old(data[..])
    ensures halStatus == NO_ERROR ==> data[..] == GoodPayload(raw) + old(data[..])[|GoodPayload(raw)|..]
  {
    var size := numWords * (WORD_SIZE + CRC8_LEN);
    calls := [I2cRead(address, size)];
    var error := halStatus;
    if error != NO_ERROR {
      return error, calls;
    }
    ret := CheckedWordsToBytes(data, raw, size);
  }

  /** The CRC loop of read_words_as_bytes over the `size` raw bytes: each
      word's CRC is checked before its two data bytes are copied, and the
      first bad word ends the loop with STATUS_FAIL. */
  method CheckedWordsToBytes(data: array<bv8>, raw: seq<bv8>, size: nat) returns (error: int)
    requires |raw| == size && size <= READ_BUFFER_SIZE && size % 3 == 0 && 2 * (size / 3) <= data.Length
    modifies data
    ensures error == (if 3 * GoodWords(raw) == |raw| then NO_ERROR else STATUS_FAIL)
    ensures data[..] == GoodPayload(raw) + old(data[..])[|GoodPayload(raw)|..]
  {
    ghost var words := size / 3;
    assert size == 3 * words;
    var i, j := 0, 0;
    ghost var k := 0;
    while i < size
      invariant 0 <= k <= words && i == 3 * k && j == 2 * k
      invariant GoodUpTo(raw, k)
      invariant data[..j] == Payload(raw, k)
      invariant data[j..] == old(data[..])[j..]
    {
      assert k < words && i + 3 <= |raw|;
      error := CommonCheckCrc(raw[i .. i + WORD_SIZE], raw[i + WORD_SIZE]);
      WordCheck(raw, k);
      if error != NO_ERROR {
        Stopped(raw, k, data[..], old(data[..]));
        return error;
      }
      GoodUpToSnoc(raw, k);
      ghost var before := data[..];
      data[j], data[j + 1] := raw[i], raw[i + 1];
      CopyStep(before, data[..], old(data[..]), raw, k);
      i, j, k := i + WORD_SIZE + CRC8_LEN, j + 2, k + 1;
    }
    Stopped(raw, k, data[..], old(data[..]));
    error := NO_ERROR;
  }

  /** Sends a command followed by 16-bit argument words, each as its high
      byte, its low byte and their CRC. There is no check of the word count:
      the 32-byte buffer holds at most ten words, which callers must respect.
      The write's result is returned unchanged. */
  method WriteCmdWithArgs(address: bv8, command: bv16, dataWords: seq<bv16>, halResult: int)
    returns (ret: int, calls: seq<HalCall>)
    requires COMMAND_SIZE + 3 * |dataWords| <= WRITE_BUFFER_SIZE
    ensures ret == halResult
    ensures calls == [I2cWrite(address, CommandFrame(command, WordBytes(dataWords)))]
  {
    var buf := Zeros(WRITE_BUFFER_SIZE);
    var head := Split16(command);
    buf := buf[0 := head[0]][1 := head[1]];
    assert buf[..COMMAND_SIZE] == head;
    var numBytes;
    buf, numBytes := PackArgWords(buf, dataWords);
    FrameDone(command, WordBytes(dataWords), |dataWords|);
    var frame := buf[..numBytes];
    assert frame == CommandFrame(command, WordBytes(dataWords));
    calls := [I2cWrite(address, frame)];
    ret := halResult;
  }

  /** The loop of write_cmd_with_args: after the command bytes at the start
      of the buffer, each argument word is stored as its two bytes and their
      CRC. The buffer then starts with the command followed by the CRC-tagged
      bytes of the words. */
  method PackArgWords(buf0: seq<bv8>, dataWords: seq<bv16>) returns (buf: seq<bv8>, numBytes: nat)
    requires COMMAND_SIZE + 3 * |dataWords| <= |buf0|
    ensures numBytes == COMMAND_SIZE + 3 * |dataWords| && |buf| == |buf0|
    ensures buf[..numBytes] == buf0[..COMMAND_SIZE] + WordsUpTo(WordBytes(dataWords), |dataWords|)
  {
    buf := buf0;
    numBytes := COMMAND_SIZE;
    ghost var bytes := WordBytes(dataWords);
    var i := 0;
    while i < |dataWords|
      invariant 0 <= i <= |dataWords| && numBytes == 2 + 3 * i
      invariant |buf| == |buf0| && buf[..numBytes] == buf0[..COMMAND_SIZE] + WordsUpTo(bytes, i)
    {
      WordBytesAt(dataWords, i);
      ghost var prev := buf;
      buf := PutArgWord(buf, numBytes, dataWords[i]);
      FrameStep(prev, buf, numBytes, buf0[..COMMAND_SIZE], bytes, i);
      numBytes := numBytes + 3;
      i := i + 1;
    }
  }

  /** One turn of the write_cmd_with_args loop: the word's two bytes are
      stored at `numBytes`, their CRC is computed over the buffer span they
      now occupy and stored after them. Everything before `numBytes` is kept. */
  method PutArgWord(buf: seq<bv8>, numBytes: nat, word: bv16) returns (r: seq<bv8>)
    requires numBytes + 3 <= |buf|
    ensures |r| == |buf|
    ensures r[..numBytes + 3] == buf[..numBytes] + [Split16(word)[0], Split16(word)[1], WordCrc(Split16(word)[0], Split16(word)[1])]
  {
    var hi, lo := ((word & 0xFF00) >> 8) as bv8, (word & 0x00FF) as bv8;
    r := buf[numBytes := hi][numBytes + 1 := lo];
    Stored2(buf, numBytes, hi, lo);
    var crc := CommonGenerateCrc(r[numBytes .. numBytes + 2]);
    r := r[numBytes + 2 := crc];
    Stored3(buf, numBytes, hi, lo, crc);
  }

  /** The command alone: write_cmd_with_args with no argument words, so the
      frame is just the two command bytes. */
  method WriteCmd(address: bv8, command: bv16, halResult: int) returns (ret: int, calls: seq<HalCall>)
    ensures ret == halResult
    ensures calls == [I2cWrite(address, Split16(command))]
  {
    ret, calls := WriteCmdWithArgs(address, command, [], halResult);
    assert CommandFrame(command, WordBytes([])) == Split16(command);
  }

  /** Command, optional sleep, then the word read. A failed write is returned
      at once, with no sleep and no read; the sleep happens only for a
      nonzero delay; the read's result is returned. */
  method DelayedReadCmd(address: bv8, command: bv16, delayUs: bv32, data: array<bv8>, numWords: nat,
                        writeResult: int, readStatus: int, raw: seq<bv8>)
    returns (ret: int, calls: seq<HalCall>)
    requires 3 * numWords <= READ_BUFFER_SIZE && 2 * numWords <= data.Length
    requires |raw| == 3 * numWords
    modifies data
    ensures writeResult != NO_ERROR ==> ret == writeResult && calls == [I2cWrite(address, Split16(command))]
    ensures writeResult == NO_ERROR ==>
              ret == ReadWordsResult(readStatus, raw) &&
              calls == [I2cWrite(address, Split16(command))] +
                       (if delayUs != 0 then [Sleep(delayUs)] else []) +
                       [I2cRead(address, 3 * numWords)]
    ensures writeResult != NO_ERROR || readStatus != NO_ERROR ==> data[..] == old(data[..])
    ensures writeResult == NO_ERROR && readStatus == NO_ERROR ==>
              data[..] == GoodPayload(raw) + old(data[..])[|GoodPayload(raw)|..]
  {
    var error, writeCalls := WriteCmdWithArgs(address, command, [], writeResult);
    assert CommandFrame(command, WordBytes([])) == Split16(command);
    calls := writeCalls;
    if error != NO_ERROR {
      return error, calls;
    }
    if delayUs != 0 {
      calls := calls + [Sleep(delayUs)];
    }
    var readCalls;
    ret, readCalls := ReadWordsAsBytes(address, data, numWords, readStatus, raw);
    calls := calls + readCalls;
  }

  /** Reading back the words a write_cmd_with_args frame carries succeeds,
      and decoding each byte pair gives back the argument words. */
  lemma ArgsReadBack(words: seq<bv16>, i: nat)
    requires i < |words|
    ensures ReadWordsResult(NO_ERROR, Words(WordBytes(words))) == NO_ERROR
    ensures GoodPayload(Words(WordBytes(words))) == WordBytes(words)
    ensures BytesToUint16(GoodPayload(Words(WordBytes(words)))[2 * i .. 2 * i + 2]) == words[i]
  {
    var d := WordBytes(words);
    EvenLength(d, |words|);
    WordsRoundTrip(d);
    WordBytesDecode(words, i);
  }

  /** The frame of the repository's second I2C test: command 0x260F with
      the words 0x8000 and 0x6666 goes out as 26 0F 80 00 A2 66 66 93. */
  method WriteCmdWithArgsVector(halResult: int) returns (ret: int, calls: seq<HalCall>)
    ensures calls == [I2cWrite(0x61, [0x26, 0x0F, 0x80, 0x00, 0xA2, 0x66, 0x66, 0x93])]
  {
    CommandFrameVectors();
    assert WordBytes([0x8000, 0x6666]) == [0x80, 0x00, 0x66, 0x66];
    ret, calls := WriteCmdWithArgs(0x61, 0x260F, [0x8000, 0x6666], halResult);
  }
}
