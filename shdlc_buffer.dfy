/** The buffer-based half of shdlc/sensirion_shdlc.c: the frame builder
    (`sensirion_shdlc_begin_frame`, the `add_*_to_frame` family,
    `sensirion_shdlc_finish_frame`, `sensirion_shdlc_tx_frame`) and the in-place
    receiver (`sensirion_shdlc_unstuff_next_byte`, `sensirion_shdlc_rx_inplace`),
    all working on one `struct sensirion_shdlc_buffer`. */
module ShdlcFrame {
  import opened Bytes
  import opened Hal
  import opened ShdlcWire
  import Shdlc

  /** `struct sensirion_shdlc_buffer`: the caller's byte buffer, the write (or read) offset and
      the running byte sum. While a frame is being built, `fields` holds the unstuffed bytes
      added so far. */
  class Buffer {
    var data: array<uint8>
    var offset: nat
    var checksum: uint8
    ghost var fields: seq<uint8>

    /** A frame under construction: start byte, then the stuffed fields, with their running sum. */
    ghost predicate Building()
      reads this, data
    {
      data.Length < 0x1_0000 && offset == 1 + |Stuffed(fields)| <= data.Length &&
      data[..offset] == [START] + Stuffed(fields) && checksum == Sum(fields) % 0x100
    }

    /** A buffer record over `buffer`, zero-initialised as a C caller declares it. */
    constructor (buffer: array<uint8>)
      ensures data == buffer && offset == 0 && checksum == 0 && fields == []
    {
      data := buffer;
      offset := 0;
      checksum := 0;
      fields := [];
    }

    /** `sensirion_shdlc_stuff_byte`: one byte at the offset, escaped if reserved. */
    method StuffByteAt(b: uint8)
      requires offset + |StuffByte(b)| <= data.Length
      modifies this`offset, data
      ensures offset == old(offset) + |StuffByte(b)|
      ensures data[..] == Shdlc.Spliced(old(data[..]), old(offset), StuffByte(b))
    {
      var w := Shdlc.PutStuffed(data, offset, b);
      offset := offset + w;
    }

    /** `sensirion_shdlc_add_uint8_t_to_frame`: stuff the byte and add it to the checksum. */
    method AddUint8(b: uint8)
      requires Building() && offset + |StuffByte(b)| <= data.Length
      modifies this, data
      ensures Building() && data == old(data) && fields == old(fields) + [b]
      ensures checksum == Add8(old(checksum), b)
      ensures offset == old(offset) + |StuffByte(b)|
      ensures data[..] == Shdlc.Spliced(old(data[..]), old(offset), StuffByte(b))
    {
      ghost var before, o := data[..], offset;
      assert before[..o] == data[..offset];
      StuffByteAt(b);
      ghost var grown := Grown(before, o, fields, b, data[..]);
      GrownSum(fields, b);
      checksum := Add8(checksum, b);
      fields := grown;
    }

    /** One more stuffed byte behind a well-built prefix keeps the prefix well built. */
    static lemma Grown(before: seq<uint8>, o: nat, f: seq<uint8>, b: uint8, after: seq<uint8>)
      returns (grown: seq<uint8>)
      requires o == 1 + |Stuffed(f)| && o + |StuffByte(b)| <= |before|
      requires before[..o] == [START] + Stuffed(f)
      requires after == Shdlc.Spliced(before, o, StuffByte(b))
      ensures grown == f + [b] && o + |StuffByte(b)| == 1 + |Stuffed(grown)|
      ensures after[..o + |StuffByte(b)|] == [START] + Stuffed(grown)
    {
      grown := f + [b];
      Shdlc.SplicedPrefix(before, o, StuffByte(b));
      StuffedAppend(f, [b]);
      StuffedOne(b);
    }

    /** The running sum of `sensirion_shdlc_add_uint8_t_to_frame` is the byte sum of the fields. */
    static lemma GrownSum(f: seq<uint8>, b: uint8)
      ensures Sum(f + [b]) % 0x100 == Add8((Sum(f) % 0x100) as uint8, b)
    {
      SumAppend(f, [b]);
      ModAdd(Sum(f), b);
      assert Sum([b]) == b by { assert [b][1..] == []; }
    }

    /** `sensirion_shdlc_begin_frame`: points the record at `buffer`, writes the start byte and
        adds the address, the command and the data length (in that order). */
    method BeginFrame(buffer: array<uint8>, command: uint8, address: uint8, dataLength: uint8)
      requires buffer.Length < 0x1_0000
      requires 1 + |StuffByte(address)| + |StuffByte(command)| + |StuffByte(dataLength)| <= buffer.Length
      modifies this, buffer
      ensures data == buffer && Building() && fields == [address, command, dataLength]
      ensures buffer[..] == Shdlc.Spliced(old(buffer[..]), 0, [START] + Stuffed(fields))
    {
      ghost var b0 := buffer[..];
      data := buffer;
      checksum := 0;
      offset := 0;
      fields := [];
      data[offset] := START;
      offset := offset + 1;
      assert data[..] == Shdlc.Spliced(b0, 0, [START]);
      assert data[..offset] == [START] + Stuffed(fields);
      var SA, SC, SN := StuffByte(address), StuffByte(command), StuffByte(dataLength);
      ghost var d, off := data[..], offset;
      AddUint8(address);
      SplicedAfter(b0, [START], SA, d, off, data[..]);
      d, off := data[..], offset;
      AddUint8(command);
      SplicedAfter(b0, [START] + SA, SC, d, off, data[..]);
      d, off := data[..], offset;
      AddUint8(dataLength);
      SplicedAfter(b0, [START] + SA + SC, SN, d, off, data[..]);
      StartedHeader(address, command, dataLength);
    }

    /** A write right after an earlier one, both seen from the original bytes. */
    static lemma SplicedAfter(base: seq<uint8>, p: seq<uint8>, q: seq<uint8>, d: seq<uint8>, off: nat, e: seq<uint8>)
      requires |p| + |q| <= |base| && d == Shdlc.Spliced(base, 0, p) && off == |p|
      requires e == Shdlc.Spliced(d, off, q)
      ensures e == Shdlc.Spliced(base, 0, p + q)
    {
      Shdlc.SplicedTwice(base, 0, p, q);
    }

    /** The start byte and the three stuffed header fields, in the grouping `BeginFrame` writes them. */
    static lemma StartedHeader(address: uint8, command: uint8, dataLength: uint8)
      ensures [] + [address] + [command] + [dataLength] == [address, command, dataLength]
      ensures [START] + StuffByte(address) + StuffByte(command) + StuffByte(dataLength)
           == [START] + Stuffed([address, command, dataLength])
    {
      StuffedCommandHeader(address, command, dataLength);
    }

    /** `sensirion_shdlc_add_bool_to_frame`: a C `bool` travels as 0 or 1. */
    method AddBool(v: bool)
      requires Building() && offset + 1 <= data.Length
      modifies this, data
      ensures Building() && data == old(data) && fields == old(fields) + [if v then 1 else 0]
      ensures offset == old(offset) + 1
      ensures data[..] == Shdlc.Spliced(old(data[..]), old(offset), [if v then 1 else 0])
    {
      AddUint8(if v then 1 else 0);
    }

    /** `sensirion_shdlc_add_uint16_t_to_frame`: most significant byte first. */
    method AddUint16(w: uint16)
      requires Building() && offset + |Stuffed(BigEndian16(w))| <= data.Length
      modifies this, data
      ensures Building() && data == old(data) && fields == old(fields) + BigEndian16(w)
      ensures offset == old(offset) + |Stuffed(BigEndian16(w))|
      ensures data[..] == Shdlc.Spliced(old(data[..]), old(offset), Stuffed(BigEndian16(w)))
    {
      var hi, lo := w / 0x100, w % 0x100;
      ghost var start, before, o := fields, data[..], offset;
      StuffedPair(hi, lo);
      AddUint8(hi);
      ghost var mid := data[..];
      AddUint8(lo);
      Chained(before, o, StuffByte(hi), StuffByte(lo), mid, data[..]);
      assert fields == start + [hi, lo];
    }

    /** The two bytes of a `uint16_t` are stuffed one after the other. */
    static lemma StuffedPair(hi: uint8, lo: uint8)
      ensures Stuffed([hi, lo]) == StuffByte(hi) + StuffByte(lo)
    {
      StuffedAppend([hi], [lo]);
      StuffedOne(hi);
      StuffedOne(lo);
      assert [hi, lo] == [hi] + [lo];
    }

    /** One iteration of `sensirion_shdlc_add_bytes_to_frame` extends the written stuffed prefix. */
    static lemma BytesStep(before: seq<uint8>, o: nat, bytes: seq<uint8>, i: nat, mid: seq<uint8>, after: seq<uint8>)
      requires i < |bytes| && o + |Stuffed(bytes[..i])| + |StuffByte(bytes[i])| <= |before|
      requires mid == Shdlc.Spliced(before, o, Stuffed(bytes[..i]))
      requires after == Shdlc.Spliced(mid, o + |Stuffed(bytes[..i])|, StuffByte(bytes[i]))
      ensures Stuffed(bytes[..i + 1]) == Stuffed(bytes[..i]) + StuffByte(bytes[i])
      ensures after == Shdlc.Spliced(before, o, Stuffed(bytes[..i + 1]))
      ensures bytes[..i + 1] == bytes[..i] + [bytes[i]]
    {
      Shdlc.StuffedStep(bytes, i);
      Shdlc.SplicedTwice(before, o, Stuffed(bytes[..i]), StuffByte(bytes[i]));
      assert bytes[..i + 1] == bytes[..i] + [bytes[i]];
    }

    /** Two writes side by side, seen through the buffer states between them. */
    static lemma Chained(before: seq<uint8>, o: nat, p: seq<uint8>, q: seq<uint8>, mid: seq<uint8>, after: seq<uint8>)
      requires o + |p| + |q| <= |before|
      requires mid == Shdlc.Spliced(before, o, p) && after == Shdlc.Spliced(mid, o + |p|, q)
      ensures after == Shdlc.Spliced(before, o, p + q)
    {
      Shdlc.SplicedTwice(before, o, p, q);
    }

    /** `sensirion_shdlc_add_int16_t_to_frame`: the two's complement bits of `v`. */
    method AddInt16(v: int)
      requires -0x8000 <= v < 0x8000
      requires Building() && offset + |Stuffed(BigEndian16(FromInt16(v)))| <= data.Length
      modifies this, data
      ensures Building() && data == old(data) && fields == old(fields) + BigEndian16(FromInt16(v))
      ensures offset == old(offset) + |Stuffed(BigEndian16(FromInt16(v)))|
      ensures data[..] == Shdlc.Spliced(old(data[..]), old(offset), Stuffed(BigEndian16(FromInt16(v))))
    {
      AddUint16(FromInt16(v));
    }

    /** `sensirion_shdlc_add_uint32_t_to_frame`: most significant byte first. */
    method AddUint32(d: uint32)
      requires Building() && offset + |Stuffed(BigEndian32(d))| <= data.Length
      modifies this, data
      ensures Building() && data == old(data) && fields == old(fields) + BigEndian32(d)
      ensures offset == old(offset) + |Stuffed(BigEndian32(d))|
      ensures data[..] == Shdlc.Spliced(old(data[..]), old(offset), Stuffed(BigEndian32(d)))
    {
      var hi, lo := d / 0x1_0000, d % 0x1_0000;
      ghost var start, before, o := fields, data[..], offset;
      StuffedAppend(BigEndian16(hi), BigEndian16(lo));
      AddUint16(hi);
      ghost var mid := data[..];
      AddUint16(lo);
      Chained(before, o, Stuffed(BigEndian16(hi)), Stuffed(BigEndian16(lo)), mid, data[..]);
      assert fields == start + BigEndian32(d);
    }

    /** `sensirion_shdlc_add_int32_t_to_frame`: the two's complement bits of `v`. */
    method AddInt32(v: int)
      requires -0x8000_0000 <= v < 0x8000_0000
      requires Building() && offset + |Stuffed(BigEndian32(FromInt32(v)))| <= data.Length
      modifies this, data
      ensures Building() && data == old(data) && fields == old(fields) + BigEndian32(FromInt32(v))
      ensures offset == old(offset) + |Stuffed(BigEndian32(FromInt32(v)))|
      ensures data[..] == Shdlc.Spliced(old(data[..]), old(offset), Stuffed(BigEndian32(FromInt32(v))))
    {
      AddUint32(FromInt32(v));
    }

    /** `sensirion_shdlc_add_bytes_to_frame`: the bytes one by one, as `uint8_t`s. */
    method AddBytes(bytes: seq<uint8>)
      requires |bytes| <= 0xFFFF
      requires Building() && offset + |Stuffed(bytes)| <= data.Length
      modifies this, data
      ensures Building() && data == old(data) && fields == old(fields) + bytes
      ensures offset == old(offset) + |Stuffed(bytes)|
      ensures data[..] == Shdlc.Spliced(old(data[..]), old(offset), Stuffed(bytes))
    {
      var i := 0;
      assert Shdlc.Spliced(data[..], offset, []) == data[..];
      while i < |bytes|
        invariant i <= |bytes| && Building() && data == old(data)
        invariant fields == old(fields) + bytes[..i]
        invariant offset == old(offset) + |Stuffed(bytes[..i])|
        invariant offset + |Stuffed(bytes[i..])| == old(offset) + |Stuffed(bytes)|
        invariant data[..] == Shdlc.Spliced(old(data[..]), old(offset), Stuffed(bytes[..i]))
      {
        Shdlc.StuffedStep(bytes, i);
        ghost var mid := data[..];
        AddUint8(bytes[i]);
        BytesStep(old(data[..]), old(offset), bytes, i, mid, data[..]);
        i := i + 1;
      }
      assert bytes[..i] == bytes;
    }

    /** `sensirion_shdlc_finish_frame`: adds the inverted checksum, then the stop byte; the
        buffer then holds the complete frame over the fields added since `BeginFrame`. */
    method FinishFrame()
      requires Building() && offset + |StuffByte(Not8(checksum))| + 1 <= data.Length
      modifies this, data
      ensures data == old(data) && fields == old(fields) && offset <= data.Length
      ensures data[..offset] == Frame(Sealed(fields))
      ensures offset == old(offset) + |StuffByte(FrameChecksum(fields))| + 1
      ensures checksum == 0xFF
      ensures data[..] == Shdlc.Spliced(old(data[..]), old(offset), StuffByte(FrameChecksum(fields)) + [STOP])
    {
      ghost var body, before, o := fields, data[..], offset;
      var crc := Not8(checksum);
      AddUint8(crc);
      ghost var mid := data[..];
      PutStop();
      Sealing(mid, offset - 1, body, crc, data[..]);
      Shdlc.SplicedTwice(before, o, StuffByte(crc), [STOP]);
      fields := body;
    }

    /** The stop byte that `sensirion_shdlc_finish_frame` writes at the offset. */
    method PutStop()
      requires offset < data.Length
      modifies this`offset, data
      ensures offset == old(offset) + 1
      ensures data[..] == Shdlc.Spliced(old(data[..]), old(offset), [STOP])
    {
      data[offset] := STOP;
      offset := offset + 1;
    }

    /** A stop byte behind the stuffed fields and their checksum completes the frame. */
    static lemma Sealing(mid: seq<uint8>, o: nat, body: seq<uint8>, crc: uint8, after: seq<uint8>)
      requires o < |mid| && mid[..o] == [START] + Stuffed(body + [crc])
      requires crc == FrameChecksum(body) && after == Shdlc.Spliced(mid, o, [STOP])
      ensures after[..o + 1] == Frame(Sealed(body))
    {
      Shdlc.SplicedPrefix(mid, o, [STOP]);
    }

    /** `sensirion_shdlc_tx_frame`: hands the first `offset` bytes to the UART and judges the
        UART's answer `halTx` as `sensirion_shdlc_tx` does. */
    method TxFrame(halTx: int) returns (ret: int, calls: seq<HalCall>)
      requires offset <= data.Length
      ensures calls == [UartTx(data[..offset])]
      ensures ret == TxVerdict(halTx, offset)
      ensures ret == NO_ERROR <==> halTx == offset
    {
      calls := [UartTx(data[..offset])];
      ret := TxVerdict(halTx, offset);
    }
  
    /** `sensirion_shdlc_unstuff_next_byte`: reads one byte at the offset, and the byte after an
        escape with bit 5 flipped, and adds the result to the running checksum. */
    method UnstuffNextByte() returns (b: uint8)
      requires offset + 1 < data.Length
      modifies this`offset, this`checksum
      ensures Step(b, offset) == NextByte(data[..], old(offset))
      ensures checksum == Add8(old(checksum), b)
    {
      b := data[offset];
      offset := offset + 1;
      if b == ESCAPE {
        b := data[offset];
        offset := offset + 1;
        b := FlipBit5(b);
      }
      checksum := Add8(checksum, b);
    }

    /** The four header reads of `sensirion_shdlc_rx_inplace`, which store each byte in the
        caller's header record `rxh` as it is read. */
    method ReadHeader(rxh: array<uint8>) returns (h: RxHeader)
      requires offset + 8 < data.Length && rxh.Length == 4 && rxh != data
      modifies this`offset, this`checksum, rxh
      ensures var a := NextByte(data[..], old(offset));
        var c := NextByte(data[..], a.next);
        var s := NextByte(data[..], c.next);
        var n := NextByte(data[..], s.next);
        h == RxHeader(a.value, c.value, s.value, n.value) && offset == n.next
      ensures checksum == (old(checksum) as int + h.addr + h.cmd + h.state + h.dataLen) % 0x100
      ensures rxh[..] == HeaderBytes(h)
    {
      var start := checksum;
      var addr := UnstuffNextByte();
      rxh[0] := addr;
      var cmd := UnstuffNextByte();
      rxh[1] := cmd;
      var state := UnstuffNextByte();
      rxh[2] := state;
      var dataLen := UnstuffNextByte();
      rxh[3] := dataLen;
      h := RxHeader(addr, cmd, state, dataLen);
      ModAdd(start as int + addr, cmd);
      ModAdd(start as int + addr + cmd, state);
      ModAdd(start as int + addr + cmd + state, dataLen);
      assert rxh[..] == HeaderBytes(h);
    }

    /** `sensirion_shdlc_rx_inplace`: asks the UART for a frame of at most `expected` data bytes;
        the UART answers `halLen` and has left `received` in `data`. The header goes to the
        caller's record `rxh` and the data is unstuffed to the front of the same buffer it is
        read from, which the read offset always stays ahead of. */
    method RxInplace(expected: uint8, halLen: int, rxh: array<uint8>, ghost received: seq<uint8>)
      returns (ret: int, calls: seq<HalCall>)
      requires data[..] == received
      requires RxRequest(expected) <= data.Length && halLen <= RxRequest(expected)
      requires rxh.Length == 4 && rxh != data
      modifies this`offset, this`checksum, data, rxh
      ensures calls == [UartRx(RxRequest(expected))]
      ensures var r := InplaceOutcome(expected, halLen, received);
        ret == r.ret && offset == r.offset && checksum == r.checksum &&
        data[..] == Shdlc.Overlay(received, r.payload) &&
        rxh[..] == (if r.header.Some? then HeaderBytes(r.header.value) else old(rxh[..]))
    {
      offset := 0;
      checksum := 0;
      calls := [UartRx(RxRequest(expected))];
      if halLen < 1 {
        assert data[..] == Shdlc.Overlay(received, []);
        return ERR_MISSING_START, calls;
      }
      var first := data[offset];
      offset := offset + 1;
      if first != START {
        assert data[..] == Shdlc.Overlay(received, []);
        return ERR_MISSING_START, calls;
      }
      ret := ReceiveFramed(expected, halLen, rxh, received);
    }

    /** `sensirion_shdlc_rx_inplace` once the start byte is in: the header, the length check,
        then the data loop and the trailer. */
    method ReceiveFramed(expected: uint8, halLen: int, rxh: array<uint8>, ghost received: seq<uint8>)
      returns (ret: int)
      requires data[..] == received && RxRequest(expected) <= data.Length
      requires received[0] == START && 1 <= halLen <= RxRequest(expected)
      requires rxh.Length == 4 && rxh != data && offset == 1 && checksum == 0
      modifies this`offset, this`checksum, data, rxh
      ensures var r := InplaceFramed(expected, halLen, received);
        ret == r.ret && offset == r.offset && checksum == r.checksum &&
        data[..] == Shdlc.Overlay(received, r.payload) && rxh[..] == HeaderBytes(r.header.value)
    {
      var h := ReadHeader(rxh);
      ghost var hsum := h.addr + h.cmd + h.state + h.dataLen;
      HeaderStage(expected, halLen, received, h, hsum, offset);
      if expected < h.dataLen {
        assert data[..] == Shdlc.Overlay(received, []);
        return ERR_FRAME_TOO_LONG;
      }
      ret := ReceivePayload(expected, halLen, rxh, h, hsum, received);
    }

    /** Behind a good start byte and four header reads, the receiver either refuses an
        announced length above `expected` or ends as its data loop does. */
    static lemma HeaderStage(expected: uint8, halLen: int, raw: seq<uint8>, h: RxHeader, hsum: nat, off0: nat)
      requires RxRequest(expected) <= |raw| && halLen <= RxRequest(expected)
      requires var a := NextByte(raw, 1);
        var c := NextByte(raw, a.next);
        var s := NextByte(raw, c.next);
        var n := NextByte(raw, s.next);
        h == RxHeader(a.value, c.value, s.value, n.value) && off0 == n.next
      requires hsum == h.addr + h.cmd + h.state + h.dataLen
      ensures off0 <= 9
      ensures InplaceFramed(expected, halLen, raw) ==
        if expected < h.dataLen then InplaceResult(ERR_FRAME_TOO_LONG, Some(h), [], off0, hsum % 0x100)
        else InplaceData(expected, halLen, raw, h, hsum, off0)
    {
    }

    /** The data loop of `sensirion_shdlc_rx_inplace` and what follows it. */
    method ReceivePayload(expected: uint8, halLen: int, rxh: array<uint8>, h: RxHeader, ghost hsum: nat,
                          ghost raw: seq<uint8>) returns (ret: int)
      requires data[..] == raw && RxRequest(expected) <= |raw| && halLen <= RxRequest(expected)
      requires 1 <= offset <= 9 && checksum == hsum % 0x100 && h.dataLen <= expected
      requires rxh.Length == 4 && rxh != data && rxh[..] == HeaderBytes(h)
      modifies this`offset, this`checksum, data
      ensures var r := InplaceData(expected, halLen, raw, h, hsum, old(offset));
        ret == r.ret && offset == r.offset && checksum == r.checksum &&
        data[..] == Shdlc.Overlay(raw, r.payload)
    {
      ghost var off0 := offset;
      var i := UnstuffPayload(h.dataLen, halLen, raw, hsum);
      ghost var d := DecodeRun(raw, off0, halLen - 2, h.dataLen, []);
      DecodeRunBounds(raw, off0, halLen - 2, h.dataLen, []);
      if i < h.dataLen {
        return ERR_ENCODING_ERROR;
      }
      ret := ReceiveTrailer(halLen, rxh, h, raw, d.out, hsum + Sum(d.out));
    }

    /** The checksum byte, the stop byte and the state check of `sensirion_shdlc_rx_inplace`. */
    method ReceiveTrailer(halLen: int, rxh: array<uint8>, h: RxHeader, ghost raw: seq<uint8>,
                          ghost payload: seq<uint8>, ghost dsum: nat) returns (ret: int)
      requires |payload| < offset && offset + 1 < |raw| == data.Length && halLen <= |raw|
      requires data[..] == Shdlc.Overlay(raw, payload) && checksum == dsum % 0x100
      requires rxh.Length == 4 && rxh != data && rxh[..] == HeaderBytes(h)
      modifies this`offset, this`checksum
      ensures var r := InplaceTrailer(halLen, raw, h, payload, dsum, old(offset));
        ret == r.ret && offset == r.offset && checksum == r.checksum
    {
      ghost var off := offset;
      ghost var sum := checksum;
      assert data[offset] == raw[offset] && data[offset + 1] == raw[offset + 1];
      var crc := UnstuffNextByte();
      ModAdd(dsum, crc);
      if checksum != 0xFF {
        return ERR_CRC_MISMATCH;
      }
      if offset >= halLen || data[offset] != STOP {
        return ERR_MISSING_STOP;
      }
      if rxh[2] % 0x80 != 0 {
        return ERR_EXECUTION_FAILURE;
      }
      return NO_ERROR;
    }

    /** Adding one more decoded byte to the running checksum. */
    static lemma RunningSum(sum: uint8, hsum: nat, out: seq<uint8>, b: uint8)
      requires sum == (hsum + Sum(out)) % 0x100
      ensures Add8(sum, b) == (hsum + Sum(out + [b])) % 0x100
    {
      SumAppend(out, [b]);
      assert [b][1..] == [];
      ModAdd(hsum + Sum(out), b);
    }

    /** The data loop of `sensirion_shdlc_rx_inplace`: unstuffs up to `n` bytes to the front of
        the buffer while the read offset is below `halLen - 2`. Writing at `i` never disturbs a
        byte still to be read, because the offset started past the start byte and gains at
        least one position per byte written. */
    method UnstuffPayload(n: uint8, halLen: int, ghost raw: seq<uint8>, ghost hsum: nat) returns (i: nat)
      requires data[..] == raw && 1 <= offset && halLen - 2 < |raw|
      requires checksum == hsum % 0x100
      modifies this`offset, this`checksum, data
      ensures var d := DecodeRun(raw, old(offset), halLen - 2, n, []);
        offset == d.next && i == |d.out| && i <= |raw| && data[..] == Shdlc.Overlay(raw, d.out) &&
        checksum == (hsum + Sum(d.out)) % 0x100
    {
      ghost var d := DecodeRun(raw, offset, halLen - 2, n, []);
      ghost var out: seq<uint8> := [];
      i := 0;
      while i < n && offset < halLen - 2
        invariant |raw| == data.Length && i == |out| <= n && i < offset && i <= |raw|
        invariant data[..i] == out && data[i..] == raw[i..]
        invariant DecodeRun(raw, offset, halLen - 2, n, out) == d
        invariant checksum == (hsum + Sum(out)) % 0x100
        decreases halLen - offset
      {
        var b;
        b, out := DecodeOne(i, halLen - 2, n, raw, out, hsum, d);
        i := i + 1;
      }
      assert data[..] == data[..i] + data[i..];
    }
  
    /** One pass of the data loop of `sensirion_shdlc_rx_inplace`: `data[i] = unstuff_next_byte()`. */
    method DecodeOne(i: nat, end: int, n: uint8, ghost raw: seq<uint8>, ghost out: seq<uint8>, ghost hsum: nat,
                     ghost d: Step2)
      returns (b: uint8, ghost grown: seq<uint8>)
      requires |raw| == data.Length && i == |out| < n && i < offset < end < |raw|
      requires data[..i] == out && data[i..] == raw[i..]
      requires checksum == (hsum + Sum(out)) % 0x100
      requires DecodeRun(raw, offset, end, n, out) == d
      modifies this`offset, this`checksum, data
      ensures old(offset) < offset <= old(offset) + 2
      ensures grown == out + [b] && data[..i + 1] == grown && data[i + 1..] == raw[i + 1..]
      ensures DecodeRun(raw, offset, end, n, grown) == d
      ensures checksum == (hsum + Sum(grown)) % 0x100
    {
      ghost var off, sum := offset, checksum;
      assert data[offset] == raw[offset] && data[offset + 1] == raw[offset + 1];
      b := UnstuffNextByte();
      DecodeRunStep(raw, off, end, n, out, b, offset);
      RunningSum(sum, hsum, out, b);
      data[i] := b;
      grown := out + [b];
      assert data[..i + 1] == grown;
    }
  }

  /** The repository's frame tests: `begin_frame` for command 0x80 to address 0 with five data
      bytes, the sub-command 0 with `add_uint8_t_to_frame`, the auto-clean `interval` with
      `add_uint32_t_to_frame`, then `finish_frame`, in a buffer of 20 bytes. */
  method AutoCleanCommand(interval: uint32) returns (frame: seq<uint8>)
    ensures frame == Frame(Sealed([0x00, 0x80, 0x05, 0x00] + BigEndian32(interval)))
    ensures interval == 0 ==> frame == [0x7E, 0x00, 0x80, 0x05, 0x00, 0x00, 0x00, 0x00, 0x00, 0x7A, 0x7E]
    ensures interval == 0x01020304 ==> frame == [0x7E, 0x00, 0x80, 0x05, 0x00, 0x01, 0x02, 0x03, 0x04, 0x70, 0x7E]
    ensures interval == 0x7E7D1113 ==>
      frame == [0x7E, 0x00, 0x80, 0x05, 0x00, 0x7D, 0x5E, 0x7D, 0x5D, 0x7D, 0x31, 0x7D, 0x33, 0x5B, 0x7E]
  {
    var buffer := new uint8[20];
    var b := new Buffer(buffer);
    StuffedCommandHeader(0x00, 0x80, 0x05);
    b.BeginFrame(buffer, 0x80, 0x00, 0x05);
    assert b.offset == 4;
    b.AddUint8(0x00);
    StuffedLength(BigEndian32(interval));
    b.AddUint32(interval);
    b.FinishFrame();
    frame := buffer[..b.offset];
    AutoCleanVectors(interval, b.fields);
  }

  /** The fields the test adds, and the expected frame for each of its three intervals. */
  lemma AutoCleanVectors(interval: uint32, fields: seq<uint8>)
    requires fields == [0x00, 0x80, 0x05] + [0x00] + BigEndian32(interval)
    ensures fields == [0x00, 0x80, 0x05, 0x00] + BigEndian32(interval)
    ensures interval == 0 ==> Frame(Sealed(fields)) == [0x7E, 0x00, 0x80, 0x05, 0x00, 0x00, 0x00, 0x00, 0x00, 0x7A, 0x7E]
    ensures interval == 0x01020304 ==>
      Frame(Sealed(fields)) == [0x7E, 0x00, 0x80, 0x05, 0x00, 0x01, 0x02, 0x03, 0x04, 0x70, 0x7E]
    ensures interval == 0x7E7D1113 ==>
      Frame(Sealed(fields)) == [0x7E, 0x00, 0x80, 0x05, 0x00, 0x7D, 0x5E, 0x7D, 0x5D, 0x7D, 0x31, 0x7D, 0x33, 0x5B, 0x7E]
  {
    assert [0x00, 0x80, 0x05] + [0x00] == [0x00, 0x80, 0x05, 0x00];
    if interval == 0 {
      assert BigEndian32(interval) == [0x00, 0x00, 0x00, 0x00];
      assert fields == [0x00, 0x80, 0x05, 0x00, 0x00, 0x00, 0x00, 0x00];
      AutoCleanFrameZero();
    } else if interval == 0x01020304 {
      assert BigEndian32(interval) == [0x01, 0x02, 0x03, 0x04];
      assert fields == [0x00, 0x80, 0x05, 0x00, 0x01, 0x02, 0x03, 0x04];
      AutoCleanFrameCounting();
    } else if interval == 0x7E7D1113 {
      assert BigEndian32(interval) == [0x7E, 0x7D, 0x11, 0x13];
      assert fields == [0x00, 0x80, 0x05, 0x00, 0x7E, 0x7D, 0x11, 0x13];
      AutoCleanFrameEscaped();
    }
  }
}
