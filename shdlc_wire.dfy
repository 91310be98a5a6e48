/** The SHDLC wire format (shdlc/sensirion_shdlc.c): byte stuffing, the
    additive checksum, the frame layout and the two decoders the file contains —
    the one `sensirion_shdlc_rx` runs over its own stack buffer and the one
    `sensirion_shdlc_rx_inplace` runs over the caller's buffer. Everything here
    is a pure function of the bytes; the imperative code in the modules `Shdlc`
    and `ShdlcFrame` is proved against it. */
module ShdlcWire {
  import opened Bytes

  const START: uint8 := 0x7E
  const STOP: uint8 := 0x7E
  /** The byte that announces a stuffed byte. */
  const ESCAPE: uint8 := 0x7D

  const NO_ERROR := 0
  const ERR_NO_DATA := -1
  const ERR_MISSING_START := -2
  const ERR_MISSING_STOP := -3
  const ERR_CRC_MISMATCH := -4
  const ERR_ENCODING_ERROR := -5
  const ERR_TX_INCOMPLETE := -6
  const ERR_FRAME_TOO_LONG := -7
  const ERR_EXECUTION_FAILURE := -8

  /** Start/stop plus (address, command, length, checksum and 255 data bytes), each possibly stuffed. */
  const MAX_TX_FRAME_SIZE := 2 + (4 + 255) * 2
  /** The same for a response, which also carries the state byte. */
  const MAX_RX_FRAME_SIZE := 2 + (5 + 255) * 2
  const RX_DELAY_US := 20000

  /** The number of bytes both receivers ask the UART for. */
  function RxRequest(maxDataLen: uint8): nat
  {
    2 + (5 + maxDataLen) * 2
  }

  /** The response header `struct sensirion_shdlc_rx_header`, in field order. */
  datatype RxHeader = RxHeader(addr: uint8, cmd: uint8, state: uint8, dataLen: uint8)

  // ---------------------------------------------------------------- stuffing

  /** The four bytes that never travel as themselves. */
  predicate Reserved(b: uint8)
  {
    b == 0x11 || b == 0x13 || b == ESCAPE || b == START
  }

  /** What the transmitters put on the wire for one byte. */
  function StuffByte(b: uint8): seq<uint8>
  {
    if Reserved(b) then [ESCAPE, FlipBit5(b)] else [b]
  }

  function Stuffed(s: seq<uint8>): seq<uint8>
  {
    if s == [] then [] else StuffByte(s[0]) + Stuffed(s[1..])
  }

  /** A byte that may appear inside a stuffed stream: neither the frame delimiter nor XON/XOFF. */
  predicate Clean(b: uint8)
  {
    b != START && b != 0x11 && b != 0x13
  }

  /** `sensirion_shdlc_check_unstuff`: a byte announces an escape exactly when it opens the
      two-byte stuffed form of some byte, and never when it is a byte travelling as itself. */
  function CheckUnstuff(b: uint8): (r: bool)
    ensures forall x: uint8 :: StuffByte(x)[0] == b ==> (r <==> |StuffByte(x)| == 2)
  {
    b == 0x7D
  }

  /** `sensirion_shdlc_unstuff_byte`: maps the four stuffed forms back and leaves every other byte alone. */
  function UnstuffByte(b: uint8): uint8
  {
    match b
    case 0x31 => 0x11
    case 0x33 => 0x13
    case 0x5D => 0x7D
    case 0x5E => 0x7E
    case _ => b
  }

  /** Stuffing one byte is undone by either receiver's rule, and its output is clean. */
  lemma StuffByteFacts(b: uint8)
    ensures Reserved(b) ==> UnstuffByte(FlipBit5(b)) == b && FlipBit5(FlipBit5(b)) == b
    ensures Reserved(b) ==> FlipBit5(b) != ESCAPE && Clean(FlipBit5(b))
    ensures !Reserved(b) ==> b != ESCAPE && Clean(b)
  {
  }

  /** The two receivers disagree on an escape that no transmitter produces:
      `sensirion_shdlc_rx` keeps 0x41 after 0x7D, `sensirion_shdlc_rx_inplace` turns it into 0x61. */
  lemma NonCanonicalEscape()
    ensures UnstuffByte(0x41) == 0x41 && FlipBit5(0x41) == 0x61
  {
  }

  lemma {:induction false} StuffedAppend(a: seq<uint8>, b: seq<uint8>)
    ensures Stuffed(a + b) == Stuffed(a) + Stuffed(b)
  {
    if a != [] {
      assert (a + b)[1..] == a[1..] + b;
      StuffedAppend(a[1..], b);
    } else {
      assert a + b == b;
    }
  }

  /** The number of reserved bytes in `s`. */
  function ReservedCount(s: seq<uint8>): nat
  {
    if s == [] then 0 else (if Reserved(s[0]) then 1 else 0) + ReservedCount(s[1..])
  }

  /** Stuffing adds one byte per reserved byte, so it at most doubles the length. */
  lemma {:induction false} StuffedLength(s: seq<uint8>)
    ensures |Stuffed(s)| == |s| + ReservedCount(s)
    ensures |s| <= |Stuffed(s)| <= 2 * |s|
  {
    if s != [] {
      StuffedLength(s[1..]);
    }
  }

  /** No delimiter and no flow-control byte survives stuffing. */
  lemma {:induction false} StuffedClean(s: seq<uint8>)
    ensures forall k :: 0 <= k < |Stuffed(s)| ==> Clean(Stuffed(s)[k])
  {
    if s != [] {
      StuffByteFacts(s[0]);
      StuffedClean(s[1..]);
      var h, t := StuffByte(s[0]), Stuffed(s[1..]);
      assert forall k :: 0 <= k < |h + t| ==> (h + t)[k] == if k < |h| then h[k] else t[k - |h|];
    }
  }

  // ---------------------------------------------------------------- frames

  /** The `uint8_t` returned by `sensirion_shdlc_checksum`: the complement of the byte sum of every field it covers. */
  function FrameChecksum(fields: seq<uint8>): uint8
  {
    Not8(Sum(fields) % 0x100)
  }

  /** A received checksum byte is the right one exactly when it brings the byte sum to 0xFF. */
  lemma ChecksumCheck(fields: seq<uint8>, crc: uint8)
    ensures crc == FrameChecksum(fields) <==> (Sum(fields) + crc) % 0x100 == 0xFF
  {
    var q, t := Sum(fields) / 0x100, Sum(fields) % 0x100;
    assert Sum(fields) + crc == q * 0x100 + (t + crc);
    assert (q * 0x100 + (t + crc)) % 0x100 == (t + crc) % 0x100;
    if t + crc < 0x100 {
      assert (t + crc) % 0x100 == t + crc;
    } else {
      assert (t + crc) % 0x100 == t + crc - 0x100;
    }
  }

  /** The C code passes the first header bytes to the checksum already added up in a
      `uint8_t`; folding them that way does not change the checksum. */
  lemma HeaderSumFold(prefix: seq<uint8>, folded: uint8, rest: seq<uint8>)
    requires folded == Sum(prefix) % 0x100
    ensures FrameChecksum([folded] + rest) == FrameChecksum(prefix + rest)
  {
    var x, y := Sum(prefix), Sum(rest);
    var fs: seq<uint8> := [folded] + rest;
    assert fs[1..] == rest;
    SumAppend(prefix, rest);
    ModAdd(x, y);
    assert Sum(fs) % 0x100 == Sum(prefix + rest) % 0x100;
  }

  /** Start byte, the stuffed body, stop byte. */
  function Frame(body: seq<uint8>): seq<uint8>
  {
    [START] + Stuffed(body) + [STOP]
  }

  /** The body with its checksum appended. */
  function Sealed(fields: seq<uint8>): seq<uint8>
  {
    fields + [FrameChecksum(fields)]
  }

  /** A command frame (MOSI) as `sensirion_shdlc_tx` sends it. */
  function MosiFrame(addr: uint8, cmd: uint8, data: seq<uint8>): (r: seq<uint8>)
    requires |data| <= 0xFF
    ensures 6 <= |r| <= 2 + (4 + |data|) * 2 <= MAX_TX_FRAME_SIZE
  {
    StuffedLength(Sealed([addr, cmd, |data|] + data));
    Frame(Sealed([addr, cmd, |data|] + data))
  }

  /** A response frame (MISO) carrying `crc` as its checksum byte, right or wrong. */
  function MisoFrame(h: RxHeader, data: seq<uint8>, crc: uint8): (r: seq<uint8>)
    ensures 7 <= |r| <= 2 + (5 + |data|) * 2
  {
    StuffedLength(HeaderBytes(h) + data + [crc]);
    Frame(HeaderBytes(h) + data + [crc])
  }

  function HeaderBytes(h: RxHeader): seq<uint8>
  {
    [h.addr, h.cmd, h.state, h.dataLen]
  }

  /** A frame starts and ends with 0x7E and holds no other 0x7E, so a receiver can find its edges. */
  lemma FrameDelimited(body: seq<uint8>)
    ensures var f := Frame(body);
      2 <= |f| && f[0] == START && f[|f| - 1] == STOP &&
      forall k :: 0 < k < |f| - 1 ==> f[k] != START && Clean(f[k])
  {
    StuffedClean(body);
    var f := Frame(body);
    assert forall k :: 0 < k < |f| - 1 ==> f[k] == Stuffed(body)[k - 1];
  }

  /** Adding fields to a frame under construction never rewrites what was built before: the
      start byte and the stuffed earlier fields stay in front, unchanged. */
  lemma BuiltPrefixKept(fields: seq<uint8>, more: seq<uint8>, d: seq<uint8>)
    requires 1 + |Stuffed(fields + more)| <= |d|
    requires d[..1 + |Stuffed(fields + more)|] == [START] + Stuffed(fields + more)
    ensures 1 + |Stuffed(fields)| <= |d| && d[..1 + |Stuffed(fields)|] == [START] + Stuffed(fields)
  {
    StuffedAppend(fields, more);
    var n := 1 + |Stuffed(fields)|;
    assert d[..n] == d[..1 + |Stuffed(fields + more)|][..n];
  }

  lemma StuffedOne(b: uint8)
    ensures Stuffed([b]) == StuffByte(b)
  {
    assert [b][1..] == [];
  }

  /** The header is stuffed field by field. */
  lemma StuffedHeader(h: RxHeader)
    ensures Stuffed(HeaderBytes(h)) ==
      StuffByte(h.addr) + StuffByte(h.cmd) + StuffByte(h.state) + StuffByte(h.dataLen)
  {
    var a, c, s, n := [h.addr], [h.cmd], [h.state], [h.dataLen];
    assert HeaderBytes(h) == a + c + s + n;
    StuffedAppend(a + c + s, n);
    StuffedAppend(a + c, s);
    StuffedAppend(a, c);
    StuffedOne(h.addr);
    StuffedOne(h.cmd);
    StuffedOne(h.state);
    StuffedOne(h.dataLen);
  }

  /** A response frame, piece by piece: start, the stuffed header, the stuffed data, the
      stuffed checksum byte, stop. */
  lemma MisoLayout(h: RxHeader, data: seq<uint8>, crc: uint8)
    ensures MisoFrame(h, data, crc) ==
      [START] + Stuffed(HeaderBytes(h)) + Stuffed(data) + StuffByte(crc) + [STOP]
  {
    var hb := HeaderBytes(h);
    var A, B, C := Stuffed(hb), Stuffed(data), StuffByte(crc);
    StuffedAppend(hb, data);
    StuffedAppend(hb + data, [crc]);
    StuffedOne(crc);
    assert Stuffed(hb + data + [crc]) == A + B + C;
    Flatten([START], A, B, C, [STOP]);
  }

  lemma Flatten(p: seq<uint8>, a: seq<uint8>, b: seq<uint8>, c: seq<uint8>, q: seq<uint8>)
    ensures p + (a + b + c) + q == p + a + b + c + q
  {
  }

  /** A command frame, piece by piece, in the order `sensirion_shdlc_tx` writes it: start, the
      stuffed address, command and length, the stuffed data, the stuffed checksum, stop. */
  lemma MosiLayout(addr: uint8, cmd: uint8, data: seq<uint8>)
    requires |data| <= 0xFF
    ensures MosiFrame(addr, cmd, data) ==
      [START] + StuffByte(addr) + StuffByte(cmd) + StuffByte(|data|) + Stuffed(data)
        + StuffByte(FrameChecksum([addr, cmd, |data|] + data)) + [STOP]
  {
    var n: uint8 := |data|;
    var hb: seq<uint8> := [addr, cmd, n];
    var fields: seq<uint8> := hb + data;
    var crc := FrameChecksum(fields);
    var SA, SC, SN, D, K := StuffByte(addr), StuffByte(cmd), StuffByte(n), Stuffed(data), StuffByte(crc);
    StuffedCommandHeader(addr, cmd, n);
    StuffedAppend(hb, data);
    StuffedAppend(fields, [crc]);
    StuffedOne(crc);
    assert Stuffed(Sealed(fields)) == SA + SC + SN + D + K;
    FlattenFive([START], SA, SC, SN, D, K, [STOP]);
  }

  lemma FlattenFive(p: seq<uint8>, a: seq<uint8>, b: seq<uint8>, c: seq<uint8>, d: seq<uint8>, e: seq<uint8>, q: seq<uint8>)
    ensures p + (a + b + c + d + e) + q == p + a + b + c + d + e + q
  {
  }

  /** The address, command and length of a command frame are stuffed field by field. */
  lemma StuffedCommandHeader(addr: uint8, cmd: uint8, n: uint8)
    ensures Stuffed([addr, cmd, n]) == StuffByte(addr) + StuffByte(cmd) + StuffByte(n)
  {
    assert [addr, cmd, n] == [addr] + [cmd] + [n];
    StuffedAppend([addr] + [cmd], [n]);
    StuffedAppend([addr], [cmd]);
    StuffedOne(addr);
    StuffedOne(cmd);
    StuffedOne(n);
  }

  /** The frames the repository's unit tests expect for command 0x80 to address 0 with the
      sub-command 0 and an auto-clean interval of 0 (checksum 0x7A), 0x01020304 (checksum 0x70)
      and 0x7E7D1113 (checksum 0x5B, all four interval bytes escaped). */
  lemma AutoCleanFrameZero()
    ensures Frame(Sealed([0x00, 0x80, 0x05, 0x00, 0x00, 0x00, 0x00, 0x00]))
         == [0x7E, 0x00, 0x80, 0x05, 0x00, 0x00, 0x00, 0x00, 0x00, 0x7A, 0x7E]
  {
    AutoCleanVector([0x00, 0x80, 0x05, 0x00, 0x00, 0x00, 0x00, 0x00], 0x00, 0x00, 0x00, 0x00,
                    [0x7E, 0x00, 0x80, 0x05, 0x00, 0x00, 0x00, 0x00, 0x00, 0x7A, 0x7E]);
  }

  lemma AutoCleanFrameCounting()
    ensures Frame(Sealed([0x00, 0x80, 0x05, 0x00, 0x01, 0x02, 0x03, 0x04]))
         == [0x7E, 0x00, 0x80, 0x05, 0x00, 0x01, 0x02, 0x03, 0x04, 0x70, 0x7E]
  {
    AutoCleanVector([0x00, 0x80, 0x05, 0x00, 0x01, 0x02, 0x03, 0x04], 0x01, 0x02, 0x03, 0x04,
                    [0x7E, 0x00, 0x80, 0x05, 0x00, 0x01, 0x02, 0x03, 0x04, 0x70, 0x7E]);
  }

  lemma AutoCleanFrameEscaped()
    ensures Frame(Sealed([0x00, 0x80, 0x05, 0x00, 0x7E, 0x7D, 0x11, 0x13]))
         == [0x7E, 0x00, 0x80, 0x05, 0x00, 0x7D, 0x5E, 0x7D, 0x5D, 0x7D, 0x31, 0x7D, 0x33, 0x5B, 0x7E]
  {
    var sw, sx, sy, sz: seq<uint8> := [0x7D, 0x5E], [0x7D, 0x5D], [0x7D, 0x31], [0x7D, 0x33];
    assert StuffByte(0x7E) == sw && StuffByte(0x7D) == sx && StuffByte(0x11) == sy && StuffByte(0x13) == sz;
    assert Not8((0x85 + 0x7E + 0x7D + 0x11 + 0x13) % 0x100) == 0x5B;
    AutoCleanVector([0x00, 0x80, 0x05, 0x00, 0x7E, 0x7D, 0x11, 0x13], 0x7E, 0x7D, 0x11, 0x13,
                    [0x7E, 0x00, 0x80, 0x05, 0x00, 0x7D, 0x5E, 0x7D, 0x5D, 0x7D, 0x31, 0x7D, 0x33, 0x5B, 0x7E]);
  }

  /** One expected frame, given as the layout of `AutoCleanLayout` spelled out. */
  lemma AutoCleanVector(f: seq<uint8>, w: uint8, x: uint8, y: uint8, z: uint8, wire: seq<uint8>)
    requires f == [0x00, 0x80, 0x05, 0x00, w, x, y, z]
    requires wire == [START] + ([0x00, 0x80, 0x05, 0x00]
      + (StuffByte(w) + (StuffByte(x) + (StuffByte(y) + StuffByte(z))))
      + StuffByte(Not8((0x85 + w + x + y + z) % 0x100))) + [STOP]
    ensures Frame(Sealed(f)) == wire
  {
    AutoCleanLayout(f, w, x, y, z);
  }

  /** The frame of command 0x80 to address 0 with the five data bytes `0, w, x, y, z`. */
  lemma AutoCleanLayout(f: seq<uint8>, w: uint8, x: uint8, y: uint8, z: uint8)
    requires f == [0x00, 0x80, 0x05, 0x00, w, x, y, z]
    ensures Frame(Sealed(f)) == [START] + ([0x00, 0x80, 0x05, 0x00]
      + (StuffByte(w) + (StuffByte(x) + (StuffByte(y) + StuffByte(z))))
      + StuffByte(Not8((0x85 + w + x + y + z) % 0x100))) + [STOP]
  {
    var h: seq<uint8> := [0x00, 0x80, 0x05, 0x00];
    var t: seq<uint8> := [w] + ([x] + ([y] + [z]));
    assert f == h + t;
    SumAppend(h, t);
    SumCons(w, [x] + ([y] + [z])); SumCons(x, [y] + [z]); SumCons(y, [z]); SumCons(z, []);
    assert [z] + [] == [z];
    assert Sum(h) == 0x85;
    var crc := FrameChecksum(f);
    assert crc == Not8((0x85 + w + x + y + z) % 0x100);
    StuffedAppend(f, [crc]);
    StuffedAppend(h, t);
    StuffedCons(w, [x] + ([y] + [z])); StuffedCons(x, [y] + [z]); StuffedCons(y, [z]);
    StuffedOne(z); StuffedOne(crc);
    assert Stuffed(h) == h;
  }

  lemma SumCons(b: uint8, s: seq<uint8>)
    ensures Sum([b] + s) == b + Sum(s)
  {
    assert ([b] + s)[1..] == s;
  }

  lemma StuffedCons(b: uint8, s: seq<uint8>)
    ensures Stuffed([b] + s) == StuffByte(b) + Stuffed(s)
  {
    assert ([b] + s)[1..] == s;
  }

  /** How `sensirion_shdlc_tx` and `sensirion_shdlc_tx_frame` judge the UART's answer `hal` to a
      frame of `len` bytes: a HAL error is passed on, a short write is an error of its own. */
  function TxVerdict(hal: int, len: nat): (r: int)
    ensures r == NO_ERROR <==> hal == len
    ensures r <= 0
    ensures hal < 0 ==> r == hal
  {
    if hal < 0 then hal else if hal != len then ERR_TX_INCOMPLETE else NO_ERROR
  }

  /** Regrouping a frame followed by the rest of the buffer around each of its pieces. */
  lemma Regroup(p0: seq<uint8>, a: seq<uint8>, b: seq<uint8>, c: seq<uint8>, p4: seq<uint8>, pad: seq<uint8>)
    ensures p0 + a + b + c + p4 + pad == p0 + a + (b + c + p4 + pad)
    ensures p0 + a + b + c + p4 + pad == (p0 + a) + b + (c + p4 + pad)
    ensures p0 + a + b + c + p4 + pad == (p0 + a + b) + c + (p4 + pad)
  {
  }

  /** Splitting a buffer around a piece `b` that follows a prefix `a`. */
  lemma Split(a: seq<uint8>, b: seq<uint8>, c: seq<uint8>, d: seq<uint8>)
    ensures a + (b + c) + d == a + b + (c + d) && a + (b + c) + d == (a + b) + c + d
  {
  }

  /** Moving the first byte of `s` over to `out`. */
  lemma Shift(out: seq<uint8>, b: uint8, s: seq<uint8>)
    requires s != [] && b == s[0]
    ensures out + [b] + s[1..] == out + s
  {
    assert s == [s[0]] + s[1..];
  }

  // ---------------------------------------------------------------- the decoder of sensirion_shdlc_rx

  /** The state of one unstuffing loop of `sensirion_shdlc_rx`: read position, pending escape, bytes written. */
  datatype Run = Run(next: nat, escaped: bool, out: seq<uint8>)

  /** One unstuffing loop of `sensirion_shdlc_rx` from position `i`: it runs while fewer than
      `want` bytes are written and `i < end`; an escape byte sets the flag, the byte after it is
      passed through `UnstuffByte`. */
  function UnstuffRun(raw: seq<uint8>, i: nat, end: int, want: nat, escaped: bool, out: seq<uint8>): (r: Run)
    requires end <= |raw|
    ensures i <= r.next && (i < end ==> r.next <= end)
    ensures |out| <= want ==> |r.out| <= want
    decreases |raw| - i
  {
    if |out| >= want || i >= end then Run(i, escaped, out)
    else if escaped then UnstuffRun(raw, i + 1, end, want, false, out + [UnstuffByte(raw[i])])
    else if CheckUnstuff(raw[i]) then UnstuffRun(raw, i + 1, end, want, true, out)
    else UnstuffRun(raw, i + 1, end, want, false, out + [raw[i]])
  }

  /** Over a stuffed stretch that ends before `end`, the loop gives back exactly what was stuffed. */
  lemma {:induction false} UnstuffRunStuffed(pre: seq<uint8>, s: seq<uint8>, post: seq<uint8>, end: int, out: seq<uint8>)
    requires |pre| + |Stuffed(s)| <= end <= |pre| + |Stuffed(s)| + |post|
    ensures UnstuffRun(pre + Stuffed(s) + post, |pre|, end, |out| + |s|, false, out)
         == Run(|pre| + |Stuffed(s)|, false, out + s)
    decreases |s|
  {
    if s == [] {
      assert out + s == out;
    } else {
      var b, sb, t := s[0], StuffByte(s[0]), Stuffed(s[1..]);
      var raw, i, want := pre + Stuffed(s) + post, |pre|, |out| + |s|;
      assert raw == (pre + sb) + t + post;
      StuffByteFacts(b);
      assert raw[i] == sb[0];
      if Reserved(b) {
        assert raw[i + 1] == sb[1];
        assert UnstuffRun(raw, i + 1, end, want, true, out) == UnstuffRun(raw, i + 2, end, want, false, out + [b]);
      }
      UnstuffRunStuffed(pre + sb, s[1..], post, end, out + [b]);
      assert out + [b] + s[1..] == out + s;
    }
  }

  /** `UnstuffRunStuffed` for a fresh loop over a buffer given by name. */
  lemma UnstuffRunAt(raw: seq<uint8>, pre: seq<uint8>, s: seq<uint8>, post: seq<uint8>, i: nat, end: int, want: nat, next: nat)
    requires raw == pre + Stuffed(s) + post && i == |pre| && want == |s| && next == i + |Stuffed(s)|
    requires next <= end <= |raw|
    ensures UnstuffRun(raw, i, end, want, false, []) == Run(next, false, s)
  {
    UnstuffRunStuffed(pre, s, post, end, []);
    assert [] + s == s;
  }

  /** What `sensirion_shdlc_rx` reports: the return code and the bytes it wrote into the
      caller's header and data arrays. */
  datatype RxResult = RxResult(ret: int, header: seq<uint8>, data: seq<uint8>)

  /** `sensirion_shdlc_rx` once the UART has answered `len` and filled `frame`: the start byte,
      then the header loop, which must end with four bytes and no pending escape. */
  function RxOutcome(maxDataLen: uint8, len: int, frame: seq<uint8>): (r: RxResult)
    requires |frame| == MAX_RX_FRAME_SIZE && len <= RxRequest(maxDataLen)
    ensures |r.header| <= 4 && |r.data| <= maxDataLen
    ensures r.ret == NO_ERROR ==> len >= 1 && frame[0] == START
    ensures r.ret == NO_ERROR ==>
      |r.header| == 4 && r.header[3] <= maxDataLen && |r.data| == r.header[3] && r.header[2] % 0x80 == 0
    ensures r.ret in {NO_ERROR, ERR_MISSING_START, ERR_MISSING_STOP, ERR_CRC_MISMATCH,
                      ERR_ENCODING_ERROR, ERR_FRAME_TOO_LONG, ERR_EXECUTION_FAILURE}
  {
    if len < 1 || frame[0] != START then RxResult(ERR_MISSING_START, [], [])
    else
      var h := UnstuffRun(frame, 1, len - 2, 4, false, []);
      if |h.out| != 4 || h.escaped then RxResult(ERR_ENCODING_ERROR, h.out, [])
      else if maxDataLen < h.out[3] then RxResult(ERR_FRAME_TOO_LONG, h.out, [])
      else RxData(len, frame, h.out, h.next)
  }

  /** The data loop of `sensirion_shdlc_rx` from position `i`, which must end with the announced
      number of bytes and no pending escape. */
  function RxData(len: int, frame: seq<uint8>, header: seq<uint8>, i: nat): (r: RxResult)
    requires |frame| == MAX_RX_FRAME_SIZE && len <= MAX_RX_FRAME_SIZE && |header| == 4
    requires i <= MAX_RX_FRAME_SIZE - 2
    ensures r.header == header && |r.data| <= header[3]
    ensures r.ret == NO_ERROR ==> r.header == header && |r.data| == header[3] && header[2] % 0x80 == 0
    ensures r.ret in {NO_ERROR, ERR_MISSING_STOP, ERR_CRC_MISMATCH, ERR_ENCODING_ERROR, ERR_EXECUTION_FAILURE}
  {
    var d := UnstuffRun(frame, i, len - 2, header[3], false, []);
    if d.escaped || |d.out| < header[3] then RxResult(ERR_ENCODING_ERROR, header, d.out)
    else RxTrailer(len, frame, header, d.out, d.next)
  }

  /** The tail of `sensirion_shdlc_rx` from position `i`: the (possibly stuffed) checksum byte,
      then the stop byte, then the device's execution state. */
  function RxTrailer(len: int, frame: seq<uint8>, header: seq<uint8>, data: seq<uint8>, i: nat): (r: RxResult)
    requires i + 1 < |frame| && len <= |frame| && |header| == 4
    ensures r.header == header && r.data == data
    ensures r.ret == NO_ERROR ==> header[2] % 0x80 == 0 && i + 1 < len
    ensures r.ret in {NO_ERROR, ERR_MISSING_STOP, ERR_CRC_MISMATCH, ERR_EXECUTION_FAILURE}
  {
    var crc := if CheckUnstuff(frame[i]) then UnstuffByte(frame[i + 1]) else frame[i];
    var stop := if CheckUnstuff(frame[i]) then i + 2 else i + 1;
    if FrameChecksum(header + data) != crc then RxResult(ERR_CRC_MISMATCH, header, data)
    else if stop >= len || frame[stop] != STOP then RxResult(ERR_MISSING_STOP, header, data)
    else if header[2] % 0x80 != 0 then RxResult(ERR_EXECUTION_FAILURE, header, data)
    else RxResult(NO_ERROR, header, data)
  }

  /** The buffer `sensirion_shdlc_rx` holds after receiving the response with header `hb`, data
      and checksum byte, followed by whatever the rest of its buffer holds. */
  function RxBuffer(hb: seq<uint8>, data: seq<uint8>, crc: uint8, pad: seq<uint8>): seq<uint8>
  {
    [START] + Stuffed(hb) + Stuffed(data) + StuffByte(crc) + [STOP] + pad
  }

  /** The header loop of `sensirion_shdlc_rx` over a stuffed response whose pieces are `a`, `b`
      and `c` bytes long. */
  lemma RxHeaderRun(hb: seq<uint8>, data: seq<uint8>, crc: uint8, pad: seq<uint8>, raw: seq<uint8>, a: nat, b: nat, c: nat)
    requires |hb| == 4 && raw == RxBuffer(hb, data, crc, pad)
    requires a == |Stuffed(hb)| && b == |Stuffed(data)| && c == |StuffByte(crc)|
    ensures UnstuffRun(raw, 1, a + b + c, 4, false, []) == Run(1 + a, false, hb)
  {
    Regroup([START], Stuffed(hb), Stuffed(data), StuffByte(crc), [STOP], pad);
    UnstuffRunAt(raw, [START], hb, Stuffed(data) + StuffByte(crc) + [STOP] + pad, 1, a + b + c, 4, 1 + a);
  }

  /** The data loop of `sensirion_shdlc_rx` over the same response. */
  lemma RxDataRun(hb: seq<uint8>, data: seq<uint8>, crc: uint8, pad: seq<uint8>, raw: seq<uint8>, a: nat, b: nat, c: nat)
    requires raw == RxBuffer(hb, data, crc, pad)
    requires a == |Stuffed(hb)| && b == |Stuffed(data)| && c == |StuffByte(crc)|
    ensures UnstuffRun(raw, 1 + a, a + b + c, |data|, false, []) == Run(1 + a + b, false, data)
  {
    Regroup([START], Stuffed(hb), Stuffed(data), StuffByte(crc), [STOP], pad);
    UnstuffRunAt(raw, [START] + Stuffed(hb), data, StuffByte(crc) + [STOP] + pad, 1 + a, a + b + c, |data|, 1 + a + b);
  }

  /** After the data, `sensirion_shdlc_rx` reads back the checksum byte and finds the stop byte behind it. */
  lemma RxCrcRead(hb: seq<uint8>, data: seq<uint8>, crc: uint8, pad: seq<uint8>)
    ensures var raw, i := RxBuffer(hb, data, crc, pad), 1 + |Stuffed(hb)| + |Stuffed(data)|;
      1 <= |StuffByte(crc)| <= 2 && i + |StuffByte(crc)| < |raw| &&
      raw[0] == START &&
      (if CheckUnstuff(raw[i]) then UnstuffByte(raw[i + 1]) else raw[i]) == crc &&
      (if CheckUnstuff(raw[i]) then i + 2 else i + 1) == i + |StuffByte(crc)| &&
      raw[i + |StuffByte(crc)|] == STOP
  {
    var A, B, C := Stuffed(hb), Stuffed(data), StuffByte(crc);
    var rest := [STOP] + pad;
    var raw, i := RxBuffer(hb, data, crc, pad), 1 + |A| + |B|;
    Regroup([START], A, B, C, [STOP], pad);
    assert raw == ([START] + A + B) + C + rest;
    StuffByteFacts(crc);
    assert raw[i] == C[0];
    if Reserved(crc) {
      assert raw[i + 1] == C[1];
    }
    assert raw[i + |C|] == rest[0];
  }

  /** `sensirion_shdlc_rx` over any buffer in which its two loops find the header `hb` and the
      data, followed by the checksum byte `crc` (taking `c` bytes) and the stop byte. */
  lemma RxDecides(maxDataLen: uint8, len: int, raw: seq<uint8>, hb: seq<uint8>, data: seq<uint8>, crc: uint8,
                  a: nat, b: nat, c: nat)
    requires |raw| == MAX_RX_FRAME_SIZE && len <= RxRequest(maxDataLen)
    requires |hb| == 4 && hb[3] == |data| <= maxDataLen
    requires len == 2 + a + b + c && 1 <= c <= 2 && raw[0] == START
    requires UnstuffRun(raw, 1, a + b + c, 4, false, []) == Run(1 + a, false, hb)
    requires UnstuffRun(raw, 1 + a, a + b + c, |data|, false, []) == Run(1 + a + b, false, data)
    requires var i := 1 + a + b;
      (if CheckUnstuff(raw[i]) then UnstuffByte(raw[i + 1]) else raw[i]) == crc &&
      (if CheckUnstuff(raw[i]) then i + 2 else i + 1) == i + c && raw[i + c] == STOP
    ensures RxOutcome(maxDataLen, len, raw) ==
      RxResult(if crc != FrameChecksum(hb + data) then ERR_CRC_MISMATCH
               else if hb[2] % 0x80 != 0 then ERR_EXECUTION_FAILURE
               else NO_ERROR,
               hb, data)
  {
    assert RxData(len, raw, hb, 1 + a) == RxTrailer(len, raw, hb, data, 1 + a + b);
  }

  /** `sensirion_shdlc_rx` accepts every well-formed response that fits its buffer: it returns
      the header and the data, and reports a wrong checksum or a failed execution state. */
  lemma RxReadsFrame(maxDataLen: uint8, h: RxHeader, data: seq<uint8>, crc: uint8, pad: seq<uint8>)
    requires h.dataLen == |data| <= maxDataLen
    requires |MisoFrame(h, data, crc)| + |pad| == MAX_RX_FRAME_SIZE
    ensures var f := MisoFrame(h, data, crc);
      RxOutcome(maxDataLen, |f|, f + pad) ==
        RxResult(if crc != FrameChecksum(HeaderBytes(h) + data) then ERR_CRC_MISMATCH
                 else if h.state % 0x80 != 0 then ERR_EXECUTION_FAILURE
                 else NO_ERROR,
                 HeaderBytes(h), data)
  {
    var hb := HeaderBytes(h);
    MisoLayout(h, data, crc);
    var raw, a, b, c := RxBuffer(hb, data, crc, pad), |Stuffed(hb)|, |Stuffed(data)|, |StuffByte(crc)|;
    RxHeaderRun(hb, data, crc, pad, raw, a, b, c);
    RxDataRun(hb, data, crc, pad, raw, a, b, c);
    RxCrcRead(hb, data, crc, pad);
    RxDecides(maxDataLen, |MisoFrame(h, data, crc)|, raw, hb, data, crc, a, b, c);
  }

  /** The unstuffing loop reads only below its bound `end`. */
  lemma {:induction false} UnstuffRunWithin(r1: seq<uint8>, r2: seq<uint8>, i: nat, end: int, want: nat,
                                            escaped: bool, out: seq<uint8>)
    requires end <= |r1| && end <= |r2|
    requires forall k :: 0 <= k < end ==> r1[k] == r2[k]
    ensures UnstuffRun(r1, i, end, want, escaped, out) == UnstuffRun(r2, i, end, want, escaped, out)
    decreases |r1| - i
  {
    if |out| >= want || i >= end {
    } else if escaped {
      UnstuffRunWithin(r1, r2, i + 1, end, want, false, out + [UnstuffByte(r1[i])]);
    } else if CheckUnstuff(r1[i]) {
      UnstuffRunWithin(r1, r2, i + 1, end, want, true, out);
    } else {
      UnstuffRunWithin(r1, r2, i + 1, end, want, false, out + [r1[i]]);
    }
  }

  /** `sensirion_shdlc_rx` never reads at or past the received length `len`: two buffers that
      agree on their first `len` bytes give the same outcome, whatever follows. */
  lemma RxOutcomeWithinLen(maxDataLen: uint8, len: int, f1: seq<uint8>, f2: seq<uint8>)
    requires |f1| == |f2| == MAX_RX_FRAME_SIZE && len <= RxRequest(maxDataLen)
    requires forall k :: 0 <= k < len ==> f1[k] == f2[k]
    ensures RxOutcome(maxDataLen, len, f1) == RxOutcome(maxDataLen, len, f2)
  {
    if len >= 1 && f1[0] == START {
      UnstuffRunWithin(f1, f2, 1, len - 2, 4, false, []);
      var h := UnstuffRun(f1, 1, len - 2, 4, false, []);
      if |h.out| == 4 && !h.escaped && h.out[3] <= maxDataLen {
        assert 1 < len - 2 && h.next <= len - 2;
        UnstuffRunWithin(f1, f2, h.next, len - 2, h.out[3], false, []);
        var d := UnstuffRun(f1, h.next, len - 2, h.out[3], false, []);
        assert d.next <= len - 2;
      }
    }
  }

  // ---------------------------------------------------------------- the decoder of sensirion_shdlc_rx_inplace

  /** One call of `sensirion_shdlc_unstuff_next_byte`: the decoded byte and the new read offset. */
  datatype Step = Step(value: uint8, next: nat)

  function NextByte(raw: seq<uint8>, off: nat): (r: Step)
    requires off + 1 < |raw|
    ensures off < r.next <= off + 2
  {
    if raw[off] == ESCAPE then Step(FlipBit5(raw[off + 1]), off + 2) else Step(raw[off], off + 1)
  }

  /** Reading back one stuffed byte yields that byte. */
  lemma NextByteStuffed(pre: seq<uint8>, b: uint8, post: seq<uint8>)
    requires post != []
    ensures NextByte(pre + StuffByte(b) + post, |pre|) == Step(b, |pre| + |StuffByte(b)|)
  {
    StuffByteFacts(b);
    var raw := pre + StuffByte(b) + post;
    assert raw[|pre|] == StuffByte(b)[0];
    if Reserved(b) {
      assert raw[|pre| + 1] == StuffByte(b)[1];
    }
  }

  /** `NextByteStuffed` at an offset given by name. */
  lemma NextByteAt(raw: seq<uint8>, pre: seq<uint8>, b: uint8, post: seq<uint8>, off: nat, next: nat)
    requires raw == pre + StuffByte(b) + post && post != []
    requires off == |pre| && next == off + |StuffByte(b)|
    ensures NextByte(raw, off) == Step(b, next)
  {
    NextByteStuffed(pre, b, post);
  }

  /** The four header reads of `sensirion_shdlc_rx_inplace` over the four stuffed header bytes
      starting at `o0`; each read ends where the next one starts. */
  lemma HeaderStuffed(raw: seq<uint8>, pre: seq<uint8>, h: RxHeader, post: seq<uint8>,
                      o0: nat, o1: nat, o2: nat, o3: nat, o4: nat)
    requires raw == pre + StuffByte(h.addr) + StuffByte(h.cmd) + StuffByte(h.state) + StuffByte(h.dataLen) + post
    requires post != [] && o0 == |pre| && o1 == o0 + |StuffByte(h.addr)| && o2 == o1 + |StuffByte(h.cmd)|
    requires o3 == o2 + |StuffByte(h.state)| && o4 == o3 + |StuffByte(h.dataLen)|
    ensures o3 < o4 < |raw|
    ensures NextByte(raw, o0) == Step(h.addr, o1) && NextByte(raw, o1) == Step(h.cmd, o2) &&
            NextByte(raw, o2) == Step(h.state, o3) && NextByte(raw, o3) == Step(h.dataLen, o4)
  {
    var Sa, Sc, Ss, Sn := StuffByte(h.addr), StuffByte(h.cmd), StuffByte(h.state), StuffByte(h.dataLen);
    Regroup(pre, Sa, Sc, Ss, Sn, post);
    NextByteAt(raw, pre, h.addr, Sc + Ss + Sn + post, o0, o1);
    NextByteAt(raw, pre + Sa, h.cmd, Ss + Sn + post, o1, o2);
    NextByteAt(raw, pre + Sa + Sc, h.state, Sn + post, o2, o3);
    Split(pre + Sa + Sc, Ss, Sn, post);
    NextByteAt(raw, pre + Sa + Sc + Ss, h.dataLen, post, o3, o4);
  }

  /** The data loop of `sensirion_shdlc_rx_inplace` from read offset `off`: it runs while fewer than
      `want` bytes are decoded and `off < end`. */
  function DecodeRun(raw: seq<uint8>, off: nat, end: int, want: nat, out: seq<uint8>): (r: Step2)
    requires end < |raw|
    decreases |raw| - off
  {
    if |out| >= want || off >= end then Step2(off, out)
    else
      var s := NextByte(raw, off);
      DecodeRun(raw, s.next, end, want, out + [s.value])
  }

  /** The data loop stops at `want` bytes and extends what it was given; every decoded byte costs
      one or two input bytes, so the write index never catches up with the read offset. */
  lemma {:induction false} DecodeRunBounds(raw: seq<uint8>, off: nat, end: int, want: nat, out: seq<uint8>)
    requires end < |raw|
    ensures var r := DecodeRun(raw, off, end, want, out);
      (|out| <= want ==> |r.out| <= want) && |out| <= |r.out| && r.out[..|out|] == out &&
      off + (|r.out| - |out|) <= r.next <= off + 2 * (|r.out| - |out|)
    decreases |raw| - off
  {
    if |out| < want && off < end {
      var s := NextByte(raw, off);
      DecodeRunBounds(raw, s.next, end, want, out + [s.value]);
    }
  }

  /** The result of `DecodeRun`: read offset and decoded bytes. */
  datatype Step2 = Step2(next: nat, out: seq<uint8>)

  /** One turn of the data loop that reads `b` and moves on to `next`. */
  lemma DecodeRunStep(raw: seq<uint8>, off: nat, end: int, want: nat, out: seq<uint8>, b: uint8, next: nat)
    requires end < |raw| && |out| < want && off < end && NextByte(raw, off) == Step(b, next)
    ensures DecodeRun(raw, off, end, want, out) == DecodeRun(raw, next, end, want, out + [b])
  {
  }

  /** Over a stuffed stretch `s` from `off` to `next`, which ends at or before `end`, the loop gives
      back exactly what was stuffed; `want` counts the bytes already decoded and those still to come. */
  lemma {:induction false} DecodeRunStuffed(raw: seq<uint8>, pre: seq<uint8>, s: seq<uint8>, post: seq<uint8>,
                                            off: nat, next: nat, end: int, want: nat, out: seq<uint8>)
    requires raw == pre + Stuffed(s) + post && off == |pre| && next == off + |Stuffed(s)|
    requires next <= end < |raw| && want == |out| + |s|
    ensures DecodeRun(raw, off, end, want, out) == Step2(next, out + s)
    decreases |s|
  {
    if s == [] {
      assert out + s == out;
    } else {
      var b, sb, t := s[0], StuffByte(s[0]), Stuffed(s[1..]);
      assert Stuffed(s) == sb + t;
      Split(pre, sb, t, post);
      NextByteAt(raw, pre, b, t + post, off, off + |sb|);
      DecodeRunStep(raw, off, end, want, out, b, off + |sb|);
      Shift(out, b, s);
      DecodeRunStuffed(raw, pre + sb, s[1..], post, off + |sb|, next, end, want, out + [b]);
    }
  }

  /** What `sensirion_shdlc_rx_inplace` reports and leaves behind: the return code, the header it
      wrote (none when it stopped at the start byte), the payload bytes it wrote to the front of
      the buffer, and the buffer's final offset and checksum. */
  datatype InplaceResult = InplaceResult(ret: int, header: Option<RxHeader>, payload: seq<uint8>, offset: nat, checksum: uint8)

  datatype Option<T> = None | Some(value: T)

  /** `sensirion_shdlc_rx_inplace` once the UART has answered `rxLength` and the buffer holds `raw`:
      the start byte, then four header reads, which the source does not bound by `rxLength`. */
  function InplaceOutcome(expected: uint8, rxLength: int, raw: seq<uint8>): (r: InplaceResult)
    requires RxRequest(expected) <= |raw| && rxLength <= RxRequest(expected)
    ensures r.ret == NO_ERROR ==>
      (r.header.Some? && r.header.value.dataLen <= expected &&
       |r.payload| == r.header.value.dataLen && r.header.value.state % 0x80 == 0 &&
       r.checksum == 0xFF && r.offset < rxLength && raw[r.offset] == STOP)
    ensures |r.payload| <= expected
    ensures r.ret in {NO_ERROR, ERR_MISSING_START, ERR_MISSING_STOP, ERR_CRC_MISMATCH,
                      ERR_ENCODING_ERROR, ERR_FRAME_TOO_LONG, ERR_EXECUTION_FAILURE}
  {
    if rxLength < 1 then InplaceResult(ERR_MISSING_START, None, [], 0, 0)
    else if raw[0] != START then InplaceResult(ERR_MISSING_START, None, [], 1, 0)
    else InplaceFramed(expected, rxLength, raw)
  }

  /** `sensirion_shdlc_rx_inplace` behind a good start byte: four header reads from offset 1,
      the length check, then the data loop. */
  function InplaceFramed(expected: uint8, rxLength: int, raw: seq<uint8>): (r: InplaceResult)
    requires RxRequest(expected) <= |raw| && rxLength <= RxRequest(expected)
    ensures r.header.Some?
    ensures r.ret == NO_ERROR ==>
      (r.header.value.dataLen <= expected &&
       |r.payload| == r.header.value.dataLen && r.header.value.state % 0x80 == 0 &&
       r.checksum == 0xFF && r.offset < rxLength && raw[r.offset] == STOP)
    ensures |r.payload| <= expected
    ensures r.ret in {NO_ERROR, ERR_MISSING_STOP, ERR_CRC_MISMATCH,
                      ERR_ENCODING_ERROR, ERR_FRAME_TOO_LONG, ERR_EXECUTION_FAILURE}
  {
      var a := NextByte(raw, 1);
      var c := NextByte(raw, a.next);
      var s := NextByte(raw, c.next);
      var n := NextByte(raw, s.next);
      var h := RxHeader(a.value, c.value, s.value, n.value);
      var hsum := a.value + c.value + s.value + n.value;
      if expected < h.dataLen then InplaceResult(ERR_FRAME_TOO_LONG, Some(h), [], n.next, hsum % 0x100)
      else InplaceData(expected, rxLength, raw, h, hsum, n.next)
  }

  /** The data loop of `sensirion_shdlc_rx_inplace` from read offset `off`, with `hsum` the sum
      of the header bytes; it must fill in the announced number of bytes. */
  function InplaceData(expected: uint8, rxLength: int, raw: seq<uint8>, h: RxHeader, hsum: nat, off: nat): (r: InplaceResult)
    requires RxRequest(expected) <= |raw| && rxLength <= RxRequest(expected)
    requires h.dataLen <= expected && off <= 9
    ensures r.header == Some(h) && |r.payload| <= h.dataLen
    ensures r.ret == NO_ERROR ==>
      (|r.payload| == h.dataLen && h.state % 0x80 == 0 &&
       r.checksum == 0xFF && r.offset < rxLength && raw[r.offset] == STOP)
    ensures r.ret in {NO_ERROR, ERR_MISSING_STOP, ERR_CRC_MISMATCH, ERR_ENCODING_ERROR, ERR_EXECUTION_FAILURE}
  {
    var d := DecodeRun(raw, off, rxLength - 2, h.dataLen, []);
    DecodeRunBounds(raw, off, rxLength - 2, h.dataLen, []);
    var dsum := hsum + Sum(d.out);
    if |d.out| < h.dataLen then InplaceResult(ERR_ENCODING_ERROR, Some(h), d.out, d.next, dsum % 0x100)
    else InplaceTrailer(rxLength, raw, h, d.out, dsum, d.next)
  }

  /** The tail of `sensirion_shdlc_rx_inplace` from read offset `off`, with `dsum` the sum of the
      header and data bytes: the checksum byte must bring the sum to 0xFF, then the stop byte,
      then the device's execution state. */
  function InplaceTrailer(rxLength: int, raw: seq<uint8>, h: RxHeader, payload: seq<uint8>, dsum: nat, off: nat): (r: InplaceResult)
    requires off + 1 < |raw| && rxLength <= |raw|
    ensures r.header == Some(h) && r.payload == payload
    ensures r.ret == NO_ERROR ==>
      (h.state % 0x80 == 0 && r.checksum == 0xFF && r.offset < rxLength && raw[r.offset] == STOP)
    ensures r.ret in {NO_ERROR, ERR_MISSING_STOP, ERR_CRC_MISMATCH, ERR_EXECUTION_FAILURE}
  {
    var crc := NextByte(raw, off);
    var cs := (dsum + crc.value) % 0x100;
    if cs != 0xFF then InplaceResult(ERR_CRC_MISMATCH, Some(h), payload, crc.next, cs)
    else if crc.next >= rxLength || raw[crc.next] != STOP then InplaceResult(ERR_MISSING_STOP, Some(h), payload, crc.next, cs)
    else if h.state % 0x80 != 0 then InplaceResult(ERR_EXECUTION_FAILURE, Some(h), payload, crc.next, cs)
    else InplaceResult(NO_ERROR, Some(h), payload, crc.next, cs)
  }

  /** The running checksum of `sensirion_shdlc_rx_inplace` ends at 0xFF exactly when the checksum
      byte is the one `sensirion_shdlc_checksum` computes over header and data. */
  lemma InplaceChecksum(h: RxHeader, data: seq<uint8>, crc: uint8, dsum: nat)
    requires dsum == h.addr + h.cmd + h.state + h.dataLen + Sum(data)
    ensures (dsum + crc) % 0x100 == 0xFF <==> crc == FrameChecksum(HeaderBytes(h) + data)
  {
    var hb := HeaderBytes(h);
    SumAppend(hb, data);
    assert Sum(hb) == h.addr + h.cmd + h.state + h.dataLen by {
      assert hb[1..] == [h.cmd, h.state, h.dataLen];
      assert Sum([h.cmd, h.state, h.dataLen]) == h.cmd + Sum([h.state, h.dataLen]);
      assert [h.state, h.dataLen][1..] == [h.dataLen];
      assert Sum([h.dataLen]) == h.dataLen + Sum([]);
    }
    ChecksumCheck(hb + data, crc);
  }

  /** The four header reads of `sensirion_shdlc_rx_inplace` over a stuffed response, whose
      stuffed header takes `a` bytes. */
  lemma InplaceHeaderSteps(h: RxHeader, B: seq<uint8>, C: seq<uint8>, pad: seq<uint8>, raw: seq<uint8>,
                           o1: nat, o2: nat, o3: nat, a: nat)
    requires raw == [START] + Stuffed(HeaderBytes(h)) + B + C + [STOP] + pad && a == |Stuffed(HeaderBytes(h))|
    requires o1 == 1 + |StuffByte(h.addr)| && o2 == o1 + |StuffByte(h.cmd)| && o3 == o2 + |StuffByte(h.state)|
    ensures o3 < 1 + a < |raw|
    ensures NextByte(raw, 1) == Step(h.addr, o1) && NextByte(raw, o1) == Step(h.cmd, o2) &&
            NextByte(raw, o2) == Step(h.state, o3) && NextByte(raw, o3) == Step(h.dataLen, 1 + a)
  {
    StuffedHeader(h);
    var Sa, Sc, Ss, Sn := StuffByte(h.addr), StuffByte(h.cmd), StuffByte(h.state), StuffByte(h.dataLen);
    Regroup([START], Stuffed(HeaderBytes(h)), B, C, [STOP], pad);
    assert raw == [START] + Sa + Sc + Ss + Sn + (B + C + [STOP] + pad);
    HeaderStuffed(raw, [START], h, B + C + [STOP] + pad, 1, o1, o2, o3, 1 + a);
  }

  /** The data loop of `sensirion_shdlc_rx_inplace` over the stuffed data `Stuffed(data)`, which
      follows `a` bytes of stuffed header and precedes the `c` bytes of the stuffed checksum byte. */
  lemma InplaceDataRun(A: seq<uint8>, data: seq<uint8>, C: seq<uint8>, pad: seq<uint8>, raw: seq<uint8>, a: nat, b: nat, c: nat)
    requires raw == [START] + A + Stuffed(data) + C + [STOP] + pad
    requires a == |A| && b == |Stuffed(data)| && c == |C| && 1 <= c
    ensures DecodeRun(raw, 1 + a, a + b + c, |data|, []) == Step2(1 + a + b, data)
  {
    Regroup([START], A, Stuffed(data), C, [STOP], pad);
    DecodeRunStuffed(raw, [START] + A, data, C + [STOP] + pad, 1 + a, 1 + a + b, a + b + c, |data|, []);
    assert [] + data == data;
  }

  /** After the data, `sensirion_shdlc_rx_inplace` reads back the checksum byte and finds the stop
      byte behind it. */
  lemma InplaceCrcRead(hb: seq<uint8>, data: seq<uint8>, crc: uint8, pad: seq<uint8>, raw: seq<uint8>, a: nat, b: nat, c: nat)
    requires raw == RxBuffer(hb, data, crc, pad)
    requires a == |Stuffed(hb)| && b == |Stuffed(data)| && c == |StuffByte(crc)|
    ensures 1 + a + b + c < |raw| && raw[0] == START
    ensures NextByte(raw, 1 + a + b) == Step(crc, 1 + a + b + c) && raw[1 + a + b + c] == STOP
  {
    var A, B, C := Stuffed(hb), Stuffed(data), StuffByte(crc);
    Regroup([START], A, B, C, [STOP], pad);
    NextByteStuffed([START] + A + B, crc, [STOP] + pad);
    assert raw == ([START] + A + B + C) + ([STOP] + pad);
    assert raw[1 + a + b + c] == ([STOP] + pad)[0];
  }

  /** Past the start byte and the four header reads, `sensirion_shdlc_rx_inplace` ends as its
      data loop and trailer end. */
  lemma InplaceHeaderDecides(expected: uint8, rxLength: int, raw: seq<uint8>, h: RxHeader, o1: nat, o2: nat, o3: nat,
                             a: nat, hsum: nat, r: InplaceResult)
    requires RxRequest(expected) <= |raw| && rxLength <= RxRequest(expected)
    requires h.dataLen <= expected && a <= 8 && 1 <= rxLength && raw[0] == START
    requires NextByte(raw, 1) == Step(h.addr, o1) && NextByte(raw, o1) == Step(h.cmd, o2) &&
             NextByte(raw, o2) == Step(h.state, o3) && NextByte(raw, o3) == Step(h.dataLen, 1 + a)
    requires hsum == h.addr + h.cmd + h.state + h.dataLen
    requires InplaceData(expected, rxLength, raw, h, hsum, 1 + a) == r
    ensures InplaceOutcome(expected, rxLength, raw) == r
  {
  }

  /** A data loop that decodes all of `data` ends as the trailer behind it ends. */
  lemma InplaceDataDecides(expected: uint8, rxLength: int, raw: seq<uint8>, h: RxHeader, hsum: nat,
                           data: seq<uint8>, a: nat, b: nat, c: nat, r: InplaceResult)
    requires RxRequest(expected) <= |raw| && rxLength <= RxRequest(expected)
    requires h.dataLen == |data| <= expected && a <= 8 && rxLength == 2 + a + b + c && 1 <= c
    requires DecodeRun(raw, 1 + a, a + b + c, |data|, []) == Step2(1 + a + b, data)
    requires InplaceTrailer(rxLength, raw, h, data, hsum + Sum(data), 1 + a + b) == r
    ensures InplaceData(expected, rxLength, raw, h, hsum, 1 + a) == r
  {
    assert rxLength - 2 == a + b + c;
  }

  /** The trailer over a checksum byte `crc` that takes `c` bytes and is followed by the stop byte,
      the last of `rxLength` bytes. */
  lemma InplaceTrailerDecides(rxLength: int, raw: seq<uint8>, h: RxHeader, data: seq<uint8>, dsum: nat,
                              crc: uint8, off: nat, c: nat)
    requires off + 1 < |raw| && rxLength <= |raw| && rxLength == off + c + 1
    requires NextByte(raw, off) == Step(crc, off + c) && raw[off + c] == STOP
    ensures InplaceTrailer(rxLength, raw, h, data, dsum, off) ==
      InplaceResult(if (dsum + crc) % 0x100 != 0xFF then ERR_CRC_MISMATCH
                    else if h.state % 0x80 != 0 then ERR_EXECUTION_FAILURE
                    else NO_ERROR,
                    Some(h), data, off + c, (dsum + crc) % 0x100)
  {
  }

  /** `sensirion_shdlc_rx_inplace` over any buffer in which its reads find the header `h`, the data,
      the checksum byte `crc` and the stop byte, `rxLength` bytes in all. */
  lemma InplaceDecides(expected: uint8, rxLength: int, raw: seq<uint8>, h: RxHeader, data: seq<uint8>, crc: uint8,
                       o1: nat, o2: nat, o3: nat, a: nat, b: nat, c: nat)
    requires RxRequest(expected) <= |raw| && rxLength <= RxRequest(expected)
    requires h.dataLen == |data| <= expected && a <= 8 && 1 <= c
    requires rxLength == 2 + a + b + c && raw[0] == START
    requires NextByte(raw, 1) == Step(h.addr, o1) && NextByte(raw, o1) == Step(h.cmd, o2) &&
             NextByte(raw, o2) == Step(h.state, o3) && NextByte(raw, o3) == Step(h.dataLen, 1 + a)
    requires DecodeRun(raw, 1 + a, a + b + c, |data|, []) == Step2(1 + a + b, data)
    requires NextByte(raw, 1 + a + b) == Step(crc, 1 + a + b + c) && raw[1 + a + b + c] == STOP
    ensures var r := InplaceOutcome(expected, rxLength, raw);
      r.ret == (if crc != FrameChecksum(HeaderBytes(h) + data) then ERR_CRC_MISMATCH
                else if h.state % 0x80 != 0 then ERR_EXECUTION_FAILURE
                else NO_ERROR) &&
      r.header == Some(h) && r.payload == data && r.offset == rxLength - 1
  {
    var hsum := h.addr + h.cmd + h.state + h.dataLen;
    var dsum := hsum + Sum(data);
    InplaceChecksum(h, data, crc, dsum);
    var r := InplaceResult(if (dsum + crc) % 0x100 != 0xFF then ERR_CRC_MISMATCH
                           else if h.state % 0x80 != 0 then ERR_EXECUTION_FAILURE
                           else NO_ERROR,
                           Some(h), data, 1 + a + b + c, (dsum + crc) % 0x100);
    InplaceTrailerDecides(rxLength, raw, h, data, dsum, crc, 1 + a + b, c);
    InplaceDataDecides(expected, rxLength, raw, h, hsum, data, a, b, c, r);
    InplaceHeaderDecides(expected, rxLength, raw, h, o1, o2, o3, a, hsum, r);
  }

  /** `sensirion_shdlc_rx_inplace` reads back every well-formed response that fits the buffer,
      whatever the buffer holds behind it, with the same verdicts as `sensirion_shdlc_rx`; the
      offset it leaves behind points at the stop byte. */
  lemma InplaceReadsFrame(expected: uint8, h: RxHeader, data: seq<uint8>, crc: uint8, pad: seq<uint8>)
    requires h.dataLen == |data| <= expected
    requires RxRequest(expected) <= |MisoFrame(h, data, crc)| + |pad|
    ensures var f := MisoFrame(h, data, crc);
      var r := InplaceOutcome(expected, |f|, f + pad);
      r.ret == (if crc != FrameChecksum(HeaderBytes(h) + data) then ERR_CRC_MISMATCH
                else if h.state % 0x80 != 0 then ERR_EXECUTION_FAILURE
                else NO_ERROR) &&
      r.header == Some(h) && r.payload == data && r.offset == |f| - 1
  {
    var hb := HeaderBytes(h);
    MisoLayout(h, data, crc);
    StuffedLength(hb);
    var A, B, C := Stuffed(hb), Stuffed(data), StuffByte(crc);
    var raw, a, b, c := RxBuffer(hb, data, crc, pad), |A|, |B|, |C|;
    assert raw == [START] + A + B + C + [STOP] + pad;
    var o1 := 1 + |StuffByte(h.addr)|;
    var o2 := o1 + |StuffByte(h.cmd)|;
    var o3 := o2 + |StuffByte(h.state)|;
    InplaceHeaderSteps(h, B, C, pad, raw, o1, o2, o3, a);
    InplaceDataRun(A, data, C, pad, raw, a, b, c);
    InplaceCrcRead(hb, data, crc, pad, raw, a, b, c);
    InplaceDecides(expected, |MisoFrame(h, data, crc)|, raw, h, data, crc, o1, o2, o3, a, b, c);
  }
}
