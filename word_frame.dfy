/** The I2C word wire format that both API generations share: a big-endian
    16-bit command, then every 16-bit data word as two big-endian bytes
    followed by the CRC-8 of exactly those two bytes. */
module WordFrame {
  import opened Crc8

  const COMMAND_SIZE := 2
  const WORD_SIZE := 2
  const MAX_BUFFER_WORDS := 32

  /** A 16-bit value as its high byte, then its low byte. */
  function Split16(w: bv16): (r: seq<bv8>)
    ensures |r| == 2 && (r[0] as bv16 << 8) | r[1] as bv16 == w
  {
    [((w & 0xFF00) >> 8) as bv8, (w & 0x00FF) as bv8]
  }

  /** The CRC of one data word, high byte absorbed first. */
  function WordCrc(hi: bv8, lo: bv8): bv8
  {
    Crc([hi, lo])
  }

  /** The data bytes `d` as they go on the wire: each pair followed by its
      CRC. Callers reject an odd count before framing, so a trailing odd byte
      never occurs; it is dropped here. */
  function Words(d: seq<bv8>): seq<bv8>
    decreases |d|
  {
    if |d| < 2 then [] else [d[0], d[1], WordCrc(d[0], d[1])] + Words(d[2..])
  }

  /** A write buffer: the command, then the CRC-tagged data words. */
  function CommandFrame(command: bv16, d: seq<bv8>): seq<bv8>
  {
    Split16(command) + Words(d)
  }

  /** Word `w` of a received buffer carries a matching CRC. */
  predicate WordOk(raw: seq<bv8>, w: nat)
    requires 3 * w + 3 <= |raw|
  {
    WordCrc(raw[3 * w], raw[3 * w + 1]) == raw[3 * w + 2]
  }

  /** The number of leading words of a received buffer whose CRC matches:
      the checking loop stops at the first word that does not. */
  function GoodWords(raw: seq<bv8>): (g: nat)
    ensures 3 * g <= |raw|
    decreases |raw|
  {
    if |raw| < 3 || !WordOk(raw, 0) then 0 else 1 + GoodWords(raw[3..])
  }

  /** The data bytes of the leading words whose CRC matches, CRC bytes
      stripped: what the checking loop has copied when it stops. */
  function GoodPayload(raw: seq<bv8>): (p: seq<bv8>)
    ensures |p| == 2 * GoodWords(raw)
    decreases |raw|
  {
    if |raw| < 3 || !WordOk(raw, 0) then [] else [raw[0], raw[1]] + GoodPayload(raw[3..])
  }

  // The loops that build and check buffers go word by word from the front;
  // the three definitions below describe their progress after `k` words.

  /** The wire form of the first `k` data words of `d`. */
  function WordsUpTo(d: seq<bv8>, k: nat): (r: seq<bv8>)
    requires 2 * k <= |d|
    ensures |r| == 3 * k
  {
    if k == 0 then [] else WordsUpTo(d, k - 1) + [d[2 * k - 2], d[2 * k - 1], WordCrc(d[2 * k - 2], d[2 * k - 1])]
  }

  /** Every one of the first `k` words of `raw` carries a matching CRC. */
  predicate GoodUpTo(raw: seq<bv8>, k: nat)
    requires 3 * k <= |raw|
  {
    forall w :: 0 <= w < k ==> WordOk(raw, w)
  }

  /** The data bytes of the first `k` words of `raw`. */
  function Payload(raw: seq<bv8>, k: nat): (p: seq<bv8>)
    requires 3 * k <= |raw|
    ensures |p| == 2 * k
  {
    if k == 0 then [] else Payload(raw, k - 1) + [raw[3 * k - 3], raw[3 * k - 2]]
  }

  /** Three wire bytes per data word. */
  lemma {:induction false} WordsLength(d: seq<bv8>)
    requires |d| % 2 == 0
    ensures |Words(d)| == |d| / 2 * 3
    decreases |d|
  {
    if |d| >= 2 {
      WordsLength(d[2..]);
    }
  }

  /** Appending one word to the data appends its triple to the wire form. */
  lemma {:induction false} WordsSnoc(e: seq<bv8>, hi: bv8, lo: bv8)
    requires |e| % 2 == 0
    ensures Words(e + [hi, lo]) == Words(e) + [hi, lo, WordCrc(hi, lo)]
    decreases |e|
  {
    if |e| == 0 {
      assert e + [hi, lo] == [hi, lo];
      assert [hi, lo][2..] == [];
    } else {
      assert (e + [hi, lo])[2..] == e[2..] + [hi, lo];
      WordsSnoc(e[2..], hi, lo);
    }
  }

  /** The word-by-word build agrees with the framing of the whole prefix. */
  lemma {:induction false} WordsUpToIsWords(d: seq<bv8>, k: nat)
    requires 2 * k <= |d|
    ensures WordsUpTo(d, k) == Words(d[..2 * k])
    decreases k
  {
    if k > 0 {
      WordsUpToIsWords(d, k - 1);
      assert d[..2 * k] == d[..2 * k - 2] + [d[2 * k - 2], d[2 * k - 1]];
      WordsSnoc(d[..2 * k - 2], d[2 * k - 2], d[2 * k - 1]);
    }
  }

  /** Dropping the first word of a buffer shifts the words behind it down. */
  lemma {:induction false} PayloadCons(raw: seq<bv8>, k: nat)
    requires 3 * k + 3 <= |raw|
    ensures Payload(raw, k + 1) == [raw[0], raw[1]] + Payload(raw[3..], k)
    decreases k
  {
    if k > 0 {
      PayloadCons(raw, k - 1);
    }
  }

  /** Word `w + 1` of a buffer is word `w` of the buffer without its first word. */
  lemma WordOkTail(raw: seq<bv8>, w: nat)
    requires 3 * w + 6 <= |raw|
    ensures WordOk(raw[3..], w) == WordOk(raw, w + 1)
  {
    assert raw[3..][3 * w] == raw[3 * w + 3];
    assert raw[3..][3 * w + 1] == raw[3 * w + 4];
    assert raw[3..][3 * w + 2] == raw[3 * w + 5];
  }

  lemma GoodUpToTail(raw: seq<bv8>, k: nat)
    requires 3 * k + 3 <= |raw| && GoodUpTo(raw, k + 1)
    ensures GoodUpTo(raw[3..], k)
  {
    forall w | 0 <= w < k
      ensures WordOk(raw[3..], w)
    {
      assert WordOk(raw, w + 1);
      WordOkTail(raw, w);
    }
  }

  /** A checking loop that passed `k` words and stopped at the end of the
      buffer or at a failing word has found exactly the good prefix, and has
      seen exactly its data bytes. */
  lemma {:induction false} GoodPrefix(raw: seq<bv8>, k: nat)
    requires 3 * k <= |raw| && GoodUpTo(raw, k)
    requires 3 * k + 3 <= |raw| ==> !WordOk(raw, k)
    ensures GoodWords(raw) == k
    ensures GoodPayload(raw) == Payload(raw, k)
    decreases k
  {
    if k > 0 {
      assert WordOk(raw, 0);
      GoodUpToTail(raw, k - 1);
      if 3 * k + 3 <= |raw| {
        WordOkTail(raw, k - 1);
      }
      GoodPrefix(raw[3..], k - 1);
      PayloadCons(raw, k - 1);
    }
  }

  /** Reading back the triples that a write produces accepts every word and
      recovers the data bytes. */
  lemma {:induction false} WordsRoundTrip(d: seq<bv8>)
    requires |d| % 2 == 0
    ensures 3 * GoodWords(Words(d)) == |Words(d)|
    ensures GoodPayload(Words(d)) == d
    decreases |d|
  {
    if |d| >= 2 {
      var w := Words(d);
      assert w[0] == d[0] && w[1] == d[1] && w[2] == WordCrc(d[0], d[1]);
      assert w[3..] == Words(d[2..]);
      WordsRoundTrip(d[2..]);
      assert d == [d[0], d[1]] + d[2..];
    }
  }

  /** The first triple of the wire form, and what follows it. */
  lemma WordsHead(d: seq<bv8>)
    requires 2 <= |d|
    ensures 3 <= |Words(d)|
    ensures Words(d)[0] == d[0] && Words(d)[1] == d[1] && Words(d)[2] == WordCrc(d[0], d[1])
    ensures Words(d)[3..] == Words(d[2..])
  {
  }

  /** Changing a byte at or behind position `n` leaves the first `n` bytes
      alone and changes the same byte of the rest. */
  lemma UpdateBehind(s: seq<bv8>, n: nat, i: nat, b: bv8)
    requires n <= i < |s|
    ensures s[i := b][..n] == s[..n]
    ensures s[i := b][n..] == s[n..][i - n := b]
  {
  }

  /** Data word `w` sits at wire bytes `3 * w` and `3 * w + 1`, its CRC at
      `3 * w + 2`. */
  lemma {:induction false} WordsAt(d: seq<bv8>, w: nat)
    requires 2 * w + 2 <= |d|
    ensures 3 * w + 3 <= |Words(d)|
    ensures Words(d)[3 * w] == d[2 * w] && Words(d)[3 * w + 1] == d[2 * w + 1]
    ensures Words(d)[3 * w + 2] == WordCrc(d[2 * w], d[2 * w + 1])
    decreases w
  {
    WordsHead(d);
    if w > 0 {
      WordsAt(d[2..], w - 1);
    }
  }

  /** The data bytes of the first `k` words of the wire form are the first
      `2 * k` bytes of the data. */
  lemma {:induction false} PayloadOfWords(d: seq<bv8>, k: nat)
    requires 2 * k <= |d|
    ensures 3 * k <= |Words(d)|
    ensures Payload(Words(d), k) == d[..2 * k]
    decreases k
  {
    if k > 0 {
      PayloadOfWords(d, k - 1);
      WordsAt(d, k - 1);
      assert d[..2 * k] == d[..2 * k - 2] + [d[2 * k - 2], d[2 * k - 1]];
    }
  }

  /** The data bytes of the first `k` words depend on the first `3 * k` bytes only. */
  lemma {:induction false} PayloadAgrees(a: seq<bv8>, b: seq<bv8>, k: nat)
    requires 3 * k <= |a| && 3 * k <= |b| && a[..3 * k] == b[..3 * k]
    ensures Payload(a, k) == Payload(b, k)
    decreases k
  {
    if k > 0 {
      assert a[..3 * k - 3] == a[..3 * k][..3 * k - 3];
      assert b[..3 * k - 3] == b[..3 * k][..3 * k - 3];
      assert a[3 * k - 3] == a[..3 * k][3 * k - 3] && a[3 * k - 2] == a[..3 * k][3 * k - 2];
      assert b[3 * k - 3] == b[..3 * k][3 * k - 3] && b[3 * k - 2] == b[..3 * k][3 * k - 2];
      PayloadAgrees(a, b, k - 1);
    }
  }

  /** A data byte changed in transit is caught: when the received buffer is
      the framing of `d` with byte `w` of data word `k` replaced by a
      different value, every word before `k` passes and word `k` fails, so
      checking stops exactly there, having delivered the bytes before it. */
  lemma CorruptedByteDetected(d: seq<bv8>, k: nat, w: nat, b: bv8)
    requires 2 * k + 2 <= |d| && w < 2
    requires b != d[2 * k + w]
    ensures 3 * k + w < |Words(d)|
    ensures GoodWords(Words(d)[3 * k + w := b]) == k
    ensures GoodPayload(Words(d)[3 * k + w := b]) == d[..2 * k]
  {
    WordsAt(d, k);
    var raw := Words(d)[3 * k + w := b];
    forall v | 0 <= v < k
      ensures WordOk(raw, v)
    {
      WordsAt(d, v);
    }
    var word := [d[2 * k], d[2 * k + 1]];
    assert [raw[3 * k], raw[3 * k + 1]] == word[w := b];
    CrcDetectsByteChange(word, w, b);
    assert !WordOk(raw, k);
    GoodPrefix(raw, k);
    UpdateBehind(Words(d), 3 * k, 3 * k + w, b);
    PayloadAgrees(raw, Words(d), k);
    PayloadOfWords(d, k);
  }

  /** The on-stack buffer before anything is stored in it. Its initial
      contents are never sent, so zeros stand for whatever it held. */
  function Zeros(n: nat): (r: seq<bv8>)
    ensures |r| == n && forall i :: 0 <= i < n ==> r[i] == 0
  {
    if n == 0 then [] else Zeros(n - 1) + [0]
  }

  /** A span of whole words has an even length. */
  lemma EvenLength(d: seq<bv8>, words: nat)
    requires |d| == 2 * words
    ensures |d| % 2 == 0
  {
  }

  /** Two bytes stored where a prefix ends: the span they occupy. */
  lemma Stored2(s: seq<bv8>, n: nat, x: bv8, y: bv8)
    requires n + 3 <= |s|
    ensures s[n := x][n + 1 := y][n .. n + 2] == [x, y]
  {
  }

  /** Three bytes stored where a prefix ends extend the prefix by them. */
  lemma Stored3(s: seq<bv8>, n: nat, x: bv8, y: bv8, z: bv8)
    requires n + 3 <= |s|
    ensures s[n := x][n + 1 := y][n + 2 := z][..n + 3] == s[..n] + [x, y, z]
  {
  }

  /** One step of the write_cmd loop: word `k` and its CRC, stored where the
      frame built so far ends, extend it by that word. */
  lemma FrameStep(prev: seq<bv8>, next: seq<bv8>, n: nat, head: seq<bv8>, data: seq<bv8>, k: nat)
    requires 2 * k + 2 <= |data| && n <= |prev| && n + 3 <= |next|
    requires prev[..n] == head + WordsUpTo(data, k)
    requires next[..n + 3] == prev[..n] + [data[2 * k], data[2 * k + 1], WordCrc(data[2 * k], data[2 * k + 1])]
    ensures next[..n + 3] == head + WordsUpTo(data, k + 1)
  {
    var word := [data[2 * k], data[2 * k + 1], WordCrc(data[2 * k], data[2 * k + 1])];
    assert WordsUpTo(data, k + 1) == WordsUpTo(data, k) + word;
    assert head + WordsUpTo(data, k) + word == head + (WordsUpTo(data, k) + word);
  }

  /** After the last word the buffer holds the whole command frame. */
  lemma FrameDone(command: bv16, data: seq<bv8>, words: nat)
    requires |data| == 2 * words
    ensures Split16(command) + WordsUpTo(data, words) == CommandFrame(command, data)
  {
    WordsUpToIsWords(data, words);
    assert data[..2 * words] == data;
  }

  /** Where the CRC loop of read_data stops, the bytes copied so far are the
      good payload and the rest of the destination is untouched. */
  lemma Stopped(raw: seq<bv8>, k: nat, cur: seq<bv8>, orig: seq<bv8>)
    requires 3 * k <= |raw| && GoodUpTo(raw, k)
    requires 3 * k + 3 <= |raw| ==> !WordOk(raw, k)
    requires 2 * k <= |cur| == |orig|
    requires cur[..2 * k] == Payload(raw, k) && cur[2 * k..] == orig[2 * k..]
    ensures GoodWords(raw) == k
    ensures cur == GoodPayload(raw) + orig[|GoodPayload(raw)|..]
  {
    GoodPrefix(raw, k);
    assert cur == cur[..2 * k] + cur[2 * k..];
  }

  /** A checked word extends the run of good words. */
  lemma GoodUpToSnoc(raw: seq<bv8>, k: nat)
    requires 3 * k + 3 <= |raw| && GoodUpTo(raw, k) && WordOk(raw, k)
    ensures GoodUpTo(raw, k + 1)
  {
  }

  /** The CRC check of the read loops, on the span of word `w`, decides
      whether the word is good. */
  lemma WordCheck(raw: seq<bv8>, w: nat)
    requires 3 * w + 3 <= |raw|
    ensures WordOk(raw, w) <==> Crc(raw[3 * w .. 3 * w + 2]) == raw[3 * w + 2]
  {
    assert raw[3 * w .. 3 * w + 2] == [raw[3 * w], raw[3 * w + 1]];
  }

  /** The payload of one more word adds that word's data bytes. */
  lemma PayloadSnoc(raw: seq<bv8>, k: nat)
    requires 3 * k + 3 <= |raw|
    ensures Payload(raw, k + 1) == Payload(raw, k) + [raw[3 * k], raw[3 * k + 1]]
  {
  }

  /** One step of the read loops: the data bytes of good word `k`, stored
      where the copied payload ends, extend it by one word and leave the rest
      of the destination as it was. */
  lemma CopyStep(before: seq<bv8>, after: seq<bv8>, orig: seq<bv8>, raw: seq<bv8>, k: nat)
    requires 3 * k + 3 <= |raw| && 2 * k + 2 <= |before| == |orig|
    requires before[..2 * k] == Payload(raw, k) && before[2 * k..] == orig[2 * k..]
    requires after == before[2 * k := raw[3 * k]][2 * k + 1 := raw[3 * k + 1]]
    ensures after[..2 * k + 2] == Payload(raw, k + 1) && after[2 * k + 2..] == orig[2 * k + 2..]
  {
    Store2(before, 2 * k, raw[3 * k], raw[3 * k + 1]);
    PayloadSnoc(raw, k);
    assert before[2 * k + 2..] == before[2 * k..][2..];
    assert orig[2 * k + 2..] == orig[2 * k..][2..];
  }

  /** Two bytes stored where the copied prefix ends extend it by those bytes. */
  lemma Store2(s: seq<bv8>, j: nat, x: bv8, y: bv8)
    requires j + 2 <= |s|
    ensures s[j := x][j + 1 := y][..j + 2] == s[..j] + [x, y]
    ensures s[j := x][j + 1 := y][j + 2..] == s[j + 2..]
  {
  }

  /** The write buffers the repository's tests expect (command 0x280E with the
      word 0xBEEF; command 0x260F with the words 0x8000 and 0x6666). */
  lemma CommandFrameVectors()
    ensures CommandFrame(0x280E, [0xBE, 0xEF]) == [0x28, 0x0E, 0xBE, 0xEF, 0x92]
    ensures CommandFrame(0x260F, [0x80, 0x00, 0x66, 0x66]) == [0x26, 0x0F, 0x80, 0x00, 0xA2, 0x66, 0x66, 0x93]
  {
    CrcVectors();
    assert Words([0x66, 0x66]) == [0x66, 0x66, 0x93];
    assert [0x80, 0x00, 0x66, 0x66][2..] == [0x66, 0x66];
  }
}
