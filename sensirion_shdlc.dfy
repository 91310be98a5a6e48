/** The transceiver of shdlc/sensirion_shdlc.c: `sensirion_shdlc_checksum`,
    `sensirion_shdlc_stuff_data`, `sensirion_shdlc_tx`, `sensirion_shdlc_rx` and
    `sensirion_shdlc_xcv`, written as the loops over buffers that the C code runs
    and proved against the wire format of module `ShdlcWire`. The UART is not
    modelled: each method records the HAL calls it makes and takes the HAL's answers
    as inputs. */
module Shdlc {
  import opened Bytes
  import opened Hal
  import opened ShdlcWire

  /** `sensirion_shdlc_checksum`: the header sum and the length are added to the first
      `dataLen` data bytes in a `uint8_t`, which is then inverted. */
  method Checksum(headerSum: uint8, dataLen: uint8, data: seq<uint8>) returns (r: uint8)
    requires dataLen <= |data|
    ensures r == FrameChecksum([headerSum, dataLen] + data[..dataLen])
  {
    var sum := Add8(headerSum, dataLen);
    var k := 0;
    while k < dataLen
      invariant k <= dataLen
      invariant sum == (headerSum + dataLen + Sum(data[..k])) % 0x100
    {
      SumAppend(data[..k], [data[k]]);
      assert data[..k + 1] == data[..k] + [data[k]];
      ModAdd(headerSum + dataLen + Sum(data[..k]), data[k]);
      sum := Add8(sum, data[k]);
      k := k + 1;
    }
    var fields: seq<uint8> := [headerSum, dataLen] + data[..dataLen];
    assert fields[1..][1..] == data[..dataLen];
    assert data[..k] == data[..dataLen];
    assert Sum(fields) == headerSum + dataLen + Sum(data[..dataLen]);
    r := Not8(sum);
  }

  /** `base` with `piece` written over it from position `pos` on. */
  function Spliced(base: seq<uint8>, pos: nat, piece: seq<uint8>): (r: seq<uint8>)
    requires pos + |piece| <= |base|
    ensures |r| == |base|
  {
    base[..pos] + piece + base[pos + |piece|..]
  }

  /** Two writes side by side are one write of both pieces. */
  lemma SplicedTwice(base: seq<uint8>, pos: nat, p: seq<uint8>, q: seq<uint8>)
    requires pos + |p| + |q| <= |base|
    ensures Spliced(Spliced(base, pos, p), pos + |p|, q) == Spliced(base, pos, p + q)
  {
    var once := Spliced(base, pos, p);
    assert once[..pos + |p|] == base[..pos] + p;
    assert once[pos + |p| + |q|..] == base[pos + |p| + |q|..];
  }

  lemma SplicedPrefix(base: seq<uint8>, pos: nat, piece: seq<uint8>)
    requires pos + |piece| <= |base|
    ensures Spliced(base, pos, piece)[..pos + |piece|] == base[..pos] + piece
  {
  }

  lemma SplicedSuffix(base: seq<uint8>, pos: nat, piece: seq<uint8>)
    requires pos + |piece| <= |base|
    ensures Spliced(base, pos, piece)[pos + |piece|..] == base[pos + |piece|..]
  {
  }

  /** `sensirion_shdlc_stuff_data`: writes the stuffed form of `s` into `buf` from position
      `at` on, leaving the rest of `buf` alone, and returns how many bytes it wrote. */
  method StuffData(s: seq<uint8>, buf: array<uint8>, at: nat) returns (n: nat)
    requires at + |Stuffed(s)| <= buf.Length
    modifies buf
    ensures n == |Stuffed(s)|
    ensures buf[..] == Spliced(old(buf[..]), at, Stuffed(s))
    ensures buf[..at + n] == old(buf[..at]) + Stuffed(s)
  {
    n := 0;
    var k := 0;
    assert Spliced(buf[..], at, []) == buf[..];
    while k < |s|
      invariant k <= |s|
      invariant n == |Stuffed(s[..k])|
      invariant n + |Stuffed(s[k..])| == |Stuffed(s)|
      invariant buf[..] == Spliced(old(buf[..]), at, Stuffed(s[..k]))
    {
      StuffedStep(s, k);
      var w := PutStuffed(buf, at + n, s[k]);
      SplicedTwice(old(buf[..]), at, Stuffed(s[..k]), StuffByte(s[k]));
      n := n + w;
      k := k + 1;
    }
    assert s[..k] == s;
    SplicedPrefix(old(buf[..]), at, Stuffed(s));
  }

  /** The `switch` in the loop of `sensirion_shdlc_stuff_data`: one byte, escaped if reserved. */
  method PutStuffed(buf: array<uint8>, pos: nat, c: uint8) returns (w: nat)
    requires pos + |StuffByte(c)| <= buf.Length
    modifies buf
    ensures w == |StuffByte(c)|
    ensures buf[..] == Spliced(old(buf[..]), pos, StuffByte(c))
  {
    if Reserved(c) {
      buf[pos] := ESCAPE;
      buf[pos + 1] := FlipBit5(c);
      w := 2;
    } else {
      buf[pos] := c;
      w := 1;
    }
    assert buf[..] == Spliced(old(buf[..]), pos, StuffByte(c));
  }

  /** Stuffing one more byte of `s`, seen from the stuffed prefix and from the stuffed rest. */
  lemma StuffedStep(s: seq<uint8>, k: nat)
    requires k < |s|
    ensures Stuffed(s[..k + 1]) == Stuffed(s[..k]) + StuffByte(s[k])
    ensures Stuffed(s[k..]) == StuffByte(s[k]) + Stuffed(s[k + 1..])
  {
    assert s[k..][1..] == s[k + 1..];
    StuffedAppend(s[..k], [s[k]]);
    StuffedOne(s[k]);
    assert s[..k + 1] == s[..k] + [s[k]];
  }

  /** `sensirion_shdlc_tx`: builds the command frame in a local buffer of `MAX_TX_FRAME_SIZE`
      bytes, hands it to the UART, and judges the UART's answer `halTx`. */
  method Tx(addr: uint8, cmd: uint8, data: seq<uint8>, halTx: int) returns (ret: int, calls: seq<HalCall>)
    requires |data| <= 0xFF
    ensures calls == [UartTx(MosiFrame(addr, cmd, data))]
    ensures ret == TxVerdict(halTx, |MosiFrame(addr, cmd, data)|)
  {
    var n: uint8 := |data|;
    var crc := TxChecksum(addr, cmd, data);
    var buf := new uint8[MAX_TX_FRAME_SIZE];
    buf[0] := START;
    var len := 1;
    ghost var frame: seq<uint8> := [START];
    StuffedOne(addr);
    StuffedOne(cmd);
    StuffedOne(n);
    StuffedOne(crc);
    StuffedLength(data);
    assert buf[..len] == frame;
    var k := StuffData([addr], buf, len);
    len, frame := len + k, frame + StuffByte(addr);
    assert buf[..len] == frame && len <= 3;
    k := StuffData([cmd], buf, len);
    len, frame := len + k, frame + StuffByte(cmd);
    assert buf[..len] == frame && len <= 5;
    k := StuffData([n], buf, len);
    len, frame := len + k, frame + StuffByte(n);
    assert buf[..len] == frame && len <= 7;
    k := StuffData(data, buf, len);
    len, frame := len + k, frame + Stuffed(data);
    assert buf[..len] == frame && len <= 7 + 2 * n;
    k := StuffData([crc], buf, len);
    len, frame := len + k, frame + StuffByte(crc);
    assert buf[..len] == frame && len <= 9 + 2 * n;
    buf[len] := STOP;
    assert buf[..len + 1] == frame + [STOP];
    len, frame := len + 1, frame + [STOP];
    MosiLayout(addr, cmd, data);
    calls := [UartTx(buf[..len])];
    ret := TxVerdict(halTx, len);
  }

  /** The checksum `sensirion_shdlc_tx` computes, from the address and command added up in a
      `uint8_t`, the length and the data. */
  method TxChecksum(addr: uint8, cmd: uint8, data: seq<uint8>) returns (crc: uint8)
    requires |data| <= 0xFF
    ensures crc == FrameChecksum([addr, cmd, |data|] + data)
  {
    var n: uint8 := |data|;
    crc := Checksum((addr + cmd) % 0x100, n, data);
    var hs: seq<uint8> := [addr, cmd];
    var tail: seq<uint8> := [cmd];
    assert hs[1..] == tail && tail[1..] == [];
    assert Sum(tail) == cmd;
    assert Sum(hs) == addr + cmd;
    HeaderSumFold(hs, (addr + cmd) % 0x100, [n] + data);
    assert [(addr + cmd) % 0x100, n] + data[..n] == [(addr + cmd) % 0x100] + ([n] + data);
    assert hs + ([n] + data) == [addr, cmd, n] + data;
  }

  /** The bytes a receive loop leaves in a caller's buffer: what it wrote, then what was there. */
  function Overlay(base: seq<uint8>, written: seq<uint8>): (r: seq<uint8>)
    requires |written| <= |base|
    ensures |r| == |base| && r[..|written|] == written && r[|written|..] == base[|written|..]
    ensures |written| == |base| ==> r == written
  {
    written + base[|written|..]
  }

  /** One unstuffing loop of `sensirion_shdlc_rx`, writing into `dst`: it reads from position
      `i0` while fewer than `want` bytes are written and the read position is below `end`. */
  method Unstuff(frame: seq<uint8>, i0: nat, end: int, want: uint8, dst: array<uint8>)
    returns (i: nat, j: nat, escaped: bool)
    requires end <= |frame| && want <= dst.Length
    modifies dst
    ensures var r := UnstuffRun(frame, i0, end, want, false, []);
      i == r.next && escaped == r.escaped && j == |r.out| && dst[..] == Overlay(old(dst[..]), r.out)
  {
    i, j, escaped := i0, 0, false;
    while j < want && i < end
      invariant i0 <= i && j <= want
      invariant UnstuffRun(frame, i, end, want, escaped, dst[..j]) == UnstuffRun(frame, i0, end, want, false, [])
      invariant dst[j..] == old(dst[..])[j..]
      decreases end - i
    {
      ghost var done := dst[..j];
      if escaped {
        dst[j] := UnstuffByte(frame[i]);
        assert dst[..j + 1] == done + [UnstuffByte(frame[i])];
        j := j + 1;
        escaped := false;
      } else {
        escaped := CheckUnstuff(frame[i]);
        if !escaped {
          dst[j] := frame[i];
          assert dst[..j + 1] == done + [frame[i]];
          j := j + 1;
        }
      }
      i := i + 1;
    }
  }

  /** The header sum `sensirion_shdlc_rx` passes to the checksum: address, command and state
      added up and truncated to a `uint8_t`. */
  lemma RxHeaderSum(header: seq<uint8>, data: seq<uint8>)
    requires |header| == 4
    ensures FrameChecksum([(header[0] as int + header[1] + header[2]) % 0x100, header[3]] + data)
         == FrameChecksum(header + data)
  {
    var hs, t, u: seq<uint8> := header[..3], header[1..3], header[2..3];
    assert hs[1..] == t && t[1..] == u && u[1..] == [];
    assert Sum(u) == header[2];
    assert Sum(hs) == header[0] as int + header[1] + header[2];
    var folded: uint8 := (header[0] as int + header[1] + header[2]) % 0x100;
    HeaderSumFold(hs, folded, [header[3]] + data);
    assert [folded, header[3]] + data == [folded] + ([header[3]] + data);
    assert hs + ([header[3]] + data) == header + data;
  }

  /** `sensirion_shdlc_rx`: asks the UART for a frame of at most `maxDataLen` data bytes; the UART
      answers `halLen` and leaves `frame` in the local receive buffer. The header and the data are
      unstuffed into the caller's `rxh` and `data`, which keep whatever was written before an
      error was detected. */
  method Rx(maxDataLen: uint8, halLen: int, frame: seq<uint8>, rxh: array<uint8>, data: array<uint8>)
    returns (ret: int, calls: seq<HalCall>)
    requires |frame| == MAX_RX_FRAME_SIZE && halLen <= RxRequest(maxDataLen)
    requires rxh.Length == 4 && maxDataLen <= data.Length && rxh != data
    modifies rxh, data
    ensures calls == [UartRx(RxRequest(maxDataLen))]
    ensures var r := RxOutcome(maxDataLen, halLen, frame);
      ret == r.ret && rxh[..] == Overlay(old(rxh[..]), r.header) && data[..] == Overlay(old(data[..]), r.data)
  {
    calls := [UartRx(RxRequest(maxDataLen))];
    if halLen < 1 || frame[0] != START {
      return ERR_MISSING_START, calls;
    }
    var i, j, escaped := Unstuff(frame, 1, halLen - 2, 4, rxh);
    if j != 4 || escaped {
      return ERR_ENCODING_ERROR, calls;
    }
    var header := rxh[..];
    ghost var hnext := i;
    if maxDataLen < rxh[3] {
      return ERR_FRAME_TOO_LONG, calls;
    }
    var n := rxh[3];
    i, j, escaped := Unstuff(frame, i, halLen - 2, n, data);
    if escaped || j < n {
      return ERR_ENCODING_ERROR, calls;
    }
    var payload := data[..n];
    ghost var next := i;
    assert RxData(halLen, frame, header, hnext) == RxTrailer(halLen, frame, header, payload, next);
    var crc := frame[i];
    i := i + 1;
    if CheckUnstuff(crc) {
      crc := UnstuffByte(frame[i]);
      i := i + 1;
    }
    var expected := Checksum((rxh[0] as int + rxh[1] + rxh[2]) % 0x100, n, data[..]);
    assert data[..][..n] == payload;
    RxHeaderSum(header, payload);
    if expected != crc {
      return ERR_CRC_MISMATCH, calls;
    }
    if i >= halLen || frame[i] != STOP {
      return ERR_MISSING_STOP, calls;
    }
    if rxh[2] % 0x80 != 0 {
      return ERR_EXECUTION_FAILURE, calls;
    }
    return NO_ERROR, calls;
  }

  /** `sensirion_shdlc_xcv`: sends the command, and only if that succeeded waits `RX_DELAY_US`
      and receives the response. */
  method Xcv(addr: uint8, cmd: uint8, txData: seq<uint8>, maxRxDataLen: uint8, rxh: array<uint8>,
             rxData: array<uint8>, halTx: int, halRxLen: int, frame: seq<uint8>)
    returns (ret: int, calls: seq<HalCall>)
    requires |txData| <= 0xFF
    requires |frame| == MAX_RX_FRAME_SIZE && halRxLen <= RxRequest(maxRxDataLen)
    requires rxh.Length == 4 && maxRxDataLen <= rxData.Length && rxh != rxData
    modifies rxh, rxData
    ensures var sent := TxVerdict(halTx, |MosiFrame(addr, cmd, txData)|);
      sent != NO_ERROR ==>
        ret == sent && calls == [UartTx(MosiFrame(addr, cmd, txData))] &&
        rxh[..] == old(rxh[..]) && rxData[..] == old(rxData[..])
    ensures var sent, r := TxVerdict(halTx, |MosiFrame(addr, cmd, txData)|), RxOutcome(maxRxDataLen, halRxLen, frame);
      sent == NO_ERROR ==>
        ret == r.ret &&
        calls == [UartTx(MosiFrame(addr, cmd, txData)), Sleep(RX_DELAY_US as bv32), UartRx(RxRequest(maxRxDataLen))] &&
        rxh[..] == Overlay(old(rxh[..]), r.header) && rxData[..] == Overlay(old(rxData[..]), r.data)
  {
    var txCalls;
    ret, txCalls := Tx(addr, cmd, txData, halTx);
    if ret != 0 {
      return ret, txCalls;
    }
    var rxCalls;
    ret, rxCalls := Rx(maxRxDataLen, halRxLen, frame, rxh, rxData);
    calls := txCalls + [Sleep(RX_DELAY_US as bv32)] + rxCalls;
  }
}
