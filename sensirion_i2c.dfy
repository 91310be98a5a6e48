/** The current I2C API generation (i2c/sensirion_i2c.c): CRC-8 generation and
    checking, the command write, the CRC-checked read, the combined
    write / delay / read transaction and the general call reset. */
module SensirionI2c {
  import opened Hal
  import opened Crc8
  import opened WordFrame

  // Return codes from i2c/sensirion_i2c.h; NO_ERROR is 0.
  const NO_ERROR := 0
  const CRC_ERROR := 1
  const I2C_BUS_ERROR := 2
  const I2C_NACK_ERROR := 3
  const BYTE_NUM_ERROR := 4

  /** The byte a general call reset sends to the broadcast address 0. */
  const GENERAL_CALL_RESET: bv8 := 0x06

  /** Size of the on-stack buffers of write_cmd and read_data:
      MAX_BUFFER_WORDS words of WORD_SIZE bytes. Arithmetic in contracts below
      writes WORD_SIZE as 2 and a word with its CRC as 3 bytes. */
  const BUFFER_SIZE := 64

  /** Resets every device on the bus that honours the general call: one HAL
      write of the single byte 0x06 to address 0, whose result is returned. */
  method GeneralCallReset(halResult: int) returns (ret: int, calls: seq<HalCall>)
    ensures calls == [I2cWrite(0, [GENERAL_CALL_RESET])]
    ensures ret == halResult
  {
    calls := [I2cWrite(0, [GENERAL_CALL_RESET])];
    ret := halResult;
  }

  /** The bitwise CRC loop: eight shift rounds per byte. */
  method GenerateCrc(data: seq<bv8>) returns (crc: bv8)
    requires |data| <= 0xFFFF
    ensures crc == Crc(data)
  {
    crc := INIT;
    var currentByte := 0;
    while currentByte < |data|
      invariant 0 <= currentByte <= |data|
      invariant Absorb(crc, data[currentByte..], 0) == Crc(data)
    {
      assert data[currentByte..][1..] == data[currentByte + 1..];
      crc := crc ^ data[currentByte];
      var crcBit := 8;
      while crcBit > 0
        invariant 0 <= crcBit <= 8
        invariant Absorb(crc, data[currentByte + 1..], crcBit) == Crc(data)
      {
        if crc & 0x80 != 0 {
          crc := (crc << 1) ^ POLYNOMIAL;
        } else {
          crc := crc << 1;
        }
        crcBit := crcBit - 1;
      }
      currentByte := currentByte + 1;
    }
  }

  /** NO_ERROR exactly when the checksum matches the data, CRC_ERROR otherwise. */
  method CheckCrc(data: seq<bv8>, checksum: bv8) returns (r: int)
    requires |data| <= 0xFFFF
    ensures r == NO_ERROR <==> Crc(data) == checksum
    ensures r != NO_ERROR ==> r == CRC_ERROR
  {
    var crc := GenerateCrc(data);
    if crc != checksum {
      return CRC_ERROR;
    }
    return NO_ERROR;
  }

  /** Sends a command with data words. An odd byte count is rejected before the
      HAL is touched; otherwise the HAL write gets the command followed by the
      CRC-tagged words, and its result is returned unchanged. */
  method WriteCmd(address: bv8, command: bv16, data: seq<bv8>, halResult: int)
    returns (ret: int, calls: seq<HalCall>)
    requires |data| <= 0xFFFF
    requires |data| % 2 == 0 ==> COMMAND_SIZE + |data| / 2 * 3 <= BUFFER_SIZE
    ensures |data| % 2 != 0 ==> ret == BYTE_NUM_ERROR && calls == []
    ensures |data| % 2 == 0 ==> ret == halResult && calls == [I2cWrite(address, CommandFrame(command, data))]
  {
    if |data| % 2 != 0 {
      return BYTE_NUM_ERROR, [];
    }
    var buf := Zeros(BUFFER_SIZE);
    var head := Split16(command);
    buf := buf[0 := head[0]][1 := head[1]];
    ghost var words := |data| / 2;
    assert |data| == 2 * words && 2 + 3 * words <= BUFFER_SIZE;
    var numBytes;
    assert buf[..COMMAND_SIZE] == head;
    buf, numBytes := PackWords(buf, data, words);
    FrameDone(command, data, words);
    var frame := buf[..numBytes];
    assert frame == CommandFrame(command, data);
    calls := [I2cWrite(address, frame)];
    ret := halResult;
  }

  /** The loop of write_cmd: after the command bytes at the start of the
      buffer, each data word is stored with its CRC. The buffer then starts
      with the command followed by the CRC-tagged words. */
  method PackWords(buf0: seq<bv8>, data: seq<bv8>, ghost words: nat)
    returns (buf: seq<bv8>, numBytes: nat)
    requires |data| == 2 * words && COMMAND_SIZE + 3 * words <= |buf0|
    ensures numBytes == COMMAND_SIZE + 3 * words && |buf| == |buf0|
    ensures buf[..numBytes] == buf0[..COMMAND_SIZE] + WordsUpTo(data, words)
  {
    buf := buf0;
    numBytes := COMMAND_SIZE;
    var i := 0;
    ghost var k := 0;
    while i < |data|
      invariant 0 <= k <= words && i == 2 * k && numBytes == 2 + 3 * k
      invariant |buf| == |buf0| && buf[..numBytes] == buf0[..COMMAND_SIZE] + WordsUpTo(data, k)
    {
      assert k < words;
      ghost var prev := buf;
      buf := PutWord(buf, numBytes, data[i], data[i + 1]);
      FrameStep(prev, buf, numBytes, buf0[..COMMAND_SIZE], data, k);
      numBytes := numBytes + 3;
      i := i + 2;
      k := k + 1;
    }
  }

  /** One turn of the write_cmd loop: the two data bytes are stored at
      `numBytes`, their CRC is computed over the buffer span they now occupy
      and stored after them. Everything before `numBytes` is kept. */
  method PutWord(buf: seq<bv8>, numBytes: nat, hi: bv8, lo: bv8) returns (r: seq<bv8>)
    requires numBytes + 3 <= |buf|
    ensures |r| == |buf| && r[..numBytes + 3] == buf[..numBytes] + [hi, lo, WordCrc(hi, lo)]
  {
    r := buf[numBytes := hi][numBytes + 1 := lo];
    Stored2(buf, numBytes, hi, lo);
    var crc := GenerateCrc(r[numBytes .. numBytes + 2]);
    r := r[numBytes + 2 := crc];
    Stored3(buf, numBytes, hi, lo, crc);
  }

  /** Number of raw bytes read_data requests for `dataLength` data bytes:
      WORD_SIZE + CRC8_LEN per data word. */
  function ReadSize(dataLength: nat): nat
  {
    dataLength / WORD_SIZE * (WORD_SIZE + CRC8_LEN)
  }

  /** The read request is exactly as long as the wire form the writer produces for the same
      number of data bytes, so a peer framing its words as `write_cmd` does fills it. */
  lemma {:induction false} ReadSizeIsWireLength(d: seq<bv8>)
    requires |d| % 2 == 0
    ensures ReadSize(|d|) == |Words(d)|
  {
    WordsLength(d);
  }

  /** What read_data returns, in the order it checks: the byte count, the HAL
      read, then the CRC of every word. */
  function ReadDataResult(dataLength: nat, halStatus: int, raw: seq<bv8>): int
  {
    if dataLength % 2 != 0 then BYTE_NUM_ERROR
    else if halStatus != NO_ERROR then halStatus
    else if 3 * GoodWords(raw) == |raw| then NO_ERROR
    else CRC_ERROR
  }

  /** The HAL calls read_data makes: none for an odd count, else one read. */
  function ReadDataCalls(address: bv8, dataLength: nat): seq<HalCall>
  {
    if dataLength % 2 != 0 then [] else [I2cRead(address, ReadSize(dataLength))]
  }

  /** Reads `dataLength` data bytes. `halStatus` is what the HAL read returns
      and `raw` what it stores in the stack buffer; the CRC loop stops at the
      first bad word, having copied the data bytes of every word before it. */
  method ReadData(address: bv8, data: array<bv8>, dataLength: nat, halStatus: int, raw: seq<bv8>)
    returns (ret: int, calls: seq<HalCall>)
    requires dataLength <= 0xFFFF && dataLength <= data.Length
    requires dataLength % 2 == 0 ==> ReadSize(dataLength) <= BUFFER_SIZE
    requires |raw| == ReadSize(dataLength)
    modifies data
    ensures ret == ReadDataResult(dataLength, halStatus, raw)
    ensures calls == ReadDataCalls(address, dataLength)
    ensures dataLength % 2 != 0 || halStatus != NO_ERROR ==> data[..] == old(data[..])
    ensures dataLength % 2 == 0 && halStatus == NO_ERROR ==>
              data[..] == GoodPayload(raw) + old(data[..])[|GoodPayload(raw)|..]
  {
    var size := ReadSize(dataLength);
    if dataLength % 2 != 0 {
      return BYTE_NUM_ERROR, [];
    }
    calls := [I2cRead(address, size)];
    var error := halStatus;
    if error != NO_ERROR {
      return error, calls;
    }
    ret := CopyCheckedWords(data, raw, size);
  }

  /** The CRC loop of read_data over the `size` raw bytes: each word's CRC
      is checked before its two data bytes are copied, and the first bad word
      ends the loop with CRC_ERROR. */
  method CopyCheckedWords(data: array<bv8>, raw: seq<bv8>, size: nat) returns (error: int)
    requires |raw| == size && size <= BUFFER_SIZE && size % 3 == 0 && 2 * (size / 3) <= data.Length
    modifies data
    ensures error == (if 3 * GoodWords(raw) == |raw| then NO_ERROR else CRC_ERROR)
    ensures data[..] == GoodPayload(raw) + old(data[..])[|GoodPayload(raw)|..]
  {
    ghost var words := size / 3;
    assert size == 3 * words;
    var i, j := 0, 0;
    ghost var k := 0;
    while i < size
      invariant 0 <= k <= words && i == 3 * k && j == 2 * k
      invariant GoodUpTo(raw, k)
      invariant data[..j] == Payload(raw, k)
      invariant data[j..] == old(data[..])[j..]
    {
      assert k < words && i + 3 <= |raw|;
      error := CheckCrc(raw[i .. i + WORD_SIZE], raw[i + WORD_SIZE]);
      WordCheck(raw, k);
      if error != NO_ERROR {
        Stopped(raw, k, data[..], old(data[..]));
        return error;
      }
      GoodUpToSnoc(raw, k);
      ghost var before := data[..];
      data[j], data[j + 1] := raw[i], raw[i + 1];
      CopyStep(before, data[..], old(data[..]), raw, k);
      i, j, k := i + WORD_SIZE + CRC8_LEN, j + 2, k + 1;
    }
    Stopped(raw, k, data[..], old(data[..]));
    error := NO_ERROR;
  }

  /** Write, optional sleep, read. A failed write is returned at once, with no
      sleep and no read; the sleep happens only for a nonzero delay; the read's
      result is returned. */
  method WriteDelayReadCmd(address: bv8, command: bv16, writeData: seq<bv8>, delayUs: bv32,
                           readData: array<bv8>, readDataLength: nat,
                           writeResult: int, readStatus: int, readRaw: seq<bv8>)
    returns (ret: int, calls: seq<HalCall>)
    requires |writeData| <= 0xFFFF
    requires |writeData| % 2 == 0 ==> COMMAND_SIZE + |writeData| / 2 * 3 <= BUFFER_SIZE
    requires readDataLength <= 0xFFFF && readDataLength <= readData.Length
    requires readDataLength % 2 == 0 ==> ReadSize(readDataLength) <= BUFFER_SIZE
    requires |readRaw| == ReadSize(readDataLength)
    modifies readData
    ensures |writeData| % 2 != 0 ==> ret == BYTE_NUM_ERROR && calls == []
    ensures |writeData| % 2 == 0 && writeResult != NO_ERROR ==>
              ret == writeResult && calls == [I2cWrite(address, CommandFrame(command, writeData))]
    ensures |writeData| % 2 == 0 && writeResult == NO_ERROR ==>
              ret == ReadDataResult(readDataLength, readStatus, readRaw) &&
              calls == [I2cWrite(address, CommandFrame(command, writeData))] +
                       (if delayUs != 0 then [Sleep(delayUs)] else []) +
                       ReadDataCalls(address, readDataLength)
    ensures (|writeData| % 2 != 0 || writeResult != NO_ERROR ||
             readDataLength % 2 != 0 || readStatus != NO_ERROR) ==> readData[..] == old(readData[..])
    ensures |writeData| % 2 == 0 && writeResult == NO_ERROR &&
            readDataLength % 2 == 0 && readStatus == NO_ERROR ==>
              readData[..] == GoodPayload(readRaw) + old(readData[..])[|GoodPayload(readRaw)|..]
  {
    var error, writeCalls := WriteCmd(address, command, writeData, writeResult);
    calls := writeCalls;
    if error != NO_ERROR {
      return error, calls;
    }
    if delayUs != 0 {
      calls := calls + [Sleep(delayUs)];
    }
    var readCalls;
    ret, readCalls := ReadData(address, readData, readDataLength, readStatus, readRaw);
    calls := calls + readCalls;
  }

  /** The exact command buffer of the repository's test: command 0x280E with
      the data word 0xBEEF goes out as 28 0E BE EF 92. */
  method WriteCmdVector(halResult: int) returns (ret: int, calls: seq<HalCall>)
    ensures calls == [I2cWrite(0x61, [0x28, 0x0E, 0xBE, 0xEF, 0x92])]
  {
    CommandFrameVectors();
    ret, calls := WriteCmd(0x61, 0x280E, [0xBE, 0xEF], halResult);
  }

  /** A read of the triples that a write would send succeeds and yields the
      written data bytes. */
  lemma ReadBackAccepts(d: seq<bv8>)
    requires |d| % 2 == 0
    ensures ReadDataResult(|d|, NO_ERROR, Words(d)) == NO_ERROR
    ensures GoodPayload(Words(d)) == d
  {
    WordsRoundTrip(d);
  }
}
