// Bytes, big-endian words and the romfs checksum.
module RomfsBytes {
  import opened Common

  type byte = b: int | 0 <= b < 256

  // ---------- words ----------

  // The number with the digits a, b, c, d to base 256.
  function Join(a: int, b: int, c: int, d: int): (r: int)
    requires 0 <= a < 256 && 0 <= b < 256 && 0 <= c < 256 && 0 <= d < 256
    ensures 0 <= r < WORD_RANGE
  {
    ((a * 256 + b) * 256 + c) * 256 + d
  }

  // The bytes that htonl leaves in memory.
  function Be32(w: nat): (r: seq<byte>)
    requires w < WORD_RANGE
    ensures |r| == 4
  {
    [w / 0x1000000, w / 0x10000 % 256, w / 0x100 % 256, w % 256]
  }

  function FromBe(b: seq<byte>): (r: nat)
    requires |b| == 4
    ensures r < WORD_RANGE
  {
    Join(b[0], b[1], b[2], b[3])
  }

  lemma WordRoundTrip(w: nat)
    requires w < WORD_RANGE
    ensures FromBe(Be32(w)) == w
  {
    assert w / 0x100 == w / 0x10000 * 256 + w / 0x100 % 256;
    assert w / 0x10000 == w / 0x1000000 * 256 + w / 0x10000 % 256;
  }

  // What a little-endian machine loads from four bytes.
  function LoadLe(b: seq<byte>): (r: nat)
    requires |b| == 4
    ensures r < WORD_RANGE
  {
    Join(b[3], b[2], b[1], b[0])
  }

  // be32_to_le32: the four masked bytes shifted into each other's places.
  function Be32ToLe32(x: nat): (r: nat)
    requires x < WORD_RANGE
  {
    x % 256 * 0x1000000 + x / 0x100 % 256 * 0x10000 + x / 0x10000 % 256 * 0x100 + x / 0x1000000
  }

  // Swapping the word loaded gives the number the writer stored.
  lemma SwapReads(b: seq<byte>)
    requires |b| == 4
    ensures Be32ToLe32(LoadLe(b)) == FromBe(b)
  {
    Digits(b[3], b[2], b[1], b[0]);
  }

  lemma Digits(a: int, b: int, c: int, d: int)
    requires 0 <= a < 256 && 0 <= b < 256 && 0 <= c < 256 && 0 <= d < 256
    ensures var x := Join(a, b, c, d);
      x % 256 == d && x / 0x100 % 256 == c && x / 0x10000 % 256 == b && x / 0x1000000 == a
  {
    var x := Join(a, b, c, d);
    assert x / 0x100 == (a * 256 + b) * 256 + c;
    assert x / 0x10000 == a * 256 + b;
  }

  // ---------- alignment ----------

  // ALIGNUP16
  function Up16(x: nat): (r: nat)
    ensures x <= r < x + 16 && r % 16 == 0
  {
    (x + 15) / 16 * 16
  }

  function Zeros(n: nat): (r: seq<byte>)
    ensures |r| == n && forall i | 0 <= i < n :: r[i] == 0
  {
    seq(n, _ => 0)
  }

  // ---------- checksums ----------

  // The sum of the big-endian words, modulo 2^32; bytes after the last whole word do
  // not count.
  function SumWords(b: seq<byte>): (r: nat)
    ensures r < WORD_RANGE
    decreases |b|
  {
    if |b| < 4 then 0 else (FromBe(b[..4]) + SumWords(b[4..])) % WORD_RANGE
  }

  lemma {:induction false} SumWordsConcat(a: seq<byte>, b: seq<byte>)
    requires |a| % 4 == 0
    ensures SumWords(a + b) == (SumWords(a) + SumWords(b)) % WORD_RANGE
    decreases |a|
  {
    hide FromBe, SumWords;
    if a == [] {
      SumWordsShort(a);
      assert a + b == b;
    } else {
      FrontWord(a, b);
      SumWordsStep(a);
      SumWordsStep(a + b);
      SumWordsConcat(a[4..], b);
      ModAdd(FromBe(a[..4]), SumWords(a[4..]), SumWords(b));
    }
  }

  lemma FrontWord(a: seq<byte>, b: seq<byte>)
    requires |a| >= 4
    ensures (a + b)[..4] == a[..4] && (a + b)[4..] == a[4..] + b
  {
  }

  lemma SumWordsShort(b: seq<byte>)
    requires |b| < 4
    ensures SumWords(b) == 0
  {
  }

  lemma SumWordsStep(b: seq<byte>)
    requires |b| >= 4
    ensures SumWords(b) == (FromBe(b[..4]) + SumWords(b[4..])) % WORD_RANGE
  {
    hide FromBe;
  }

  lemma ModAdd(x: nat, y: nat, z: nat)
    ensures (x + (y + z) % WORD_RANGE) % WORD_RANGE == ((x + y) % WORD_RANGE + z) % WORD_RANGE
  {
  }

  lemma SumWordsOne(b: seq<byte>)
    requires |b| == 4
    ensures SumWords(b) == FromBe(b)
  {
    hide FromBe, SumWords;
    assert b[..4] == b;
    SumWordsStep(b);
    SumWordsShort(b[4..]);
  }

  function Negated(w: nat): (r: nat)
    requires w < WORD_RANGE
    ensures r < WORD_RANGE
  {
    (WORD_RANGE - w) % WORD_RANGE
  }

  function SetChecksum(b: seq<byte>, w: nat): (r: seq<byte>)
    requires |b| >= 16 && w < WORD_RANGE
    ensures |r| == |b| && r[..12] == b[..12] && r[16..] == b[16..]
  {
    b[..12] + Be32(w) + b[16..]
  }

  // fixsum over the first `size` bytes of a header or of the head buffer.
  function FixSum(b: seq<byte>, size: nat): (r: seq<byte>)
    requires 16 <= size <= |b|
    ensures |r| == |b| && r[..12] == b[..12] && r[16..] == b[16..]
  {
    SetChecksum(b, Negated(SumWords(SetChecksum(b, 0)[..size])))
  }

  lemma SumWithChecksum(b: seq<byte>, w: nat, size: nat)
    requires 16 <= size <= |b| && w < WORD_RANGE
    ensures SumWords(SetChecksum(b, w)[..size]) == (SumWords(b[..12]) + SumWords(b[16..size]) + w) % WORD_RANGE
  {
    hide SumWords, Be32;
    var head, tail := b[..12], b[16..size];
    assert SetChecksum(b, w)[..size] == head + (Be32(w) + tail);
    SumOfThree(head, w, tail);
  }

  lemma SumOrder(x: nat, y: nat, z: nat)
    ensures (x + (y + z) % WORD_RANGE) % WORD_RANGE == (x + z + y) % WORD_RANGE
  {
  }

  lemma SumOfThree(head: seq<byte>, w: nat, tail: seq<byte>)
    requires |head| % 4 == 0 && w < WORD_RANGE
    ensures SumWords(head + (Be32(w) + tail)) == (SumWords(head) + SumWords(tail) + w) % WORD_RANGE
  {
    hide SumWords, Be32, FromBe;
    SumWordsConcat(head, Be32(w) + tail);
    SumWordsConcat(Be32(w), tail);
    WordRoundTrip(w);
    SumWordsOne(Be32(w));
    SumOrder(SumWords(head), w, SumWords(tail));
  }

  // Patching only looks at the bytes summed and at the checksum field.
  lemma ChecksumPrefix(b: seq<byte>, w: nat, len: nat)
    requires 16 <= len <= |b| && w < WORD_RANGE
    ensures SetChecksum(b, w)[..len] == SetChecksum(b[..len], w)
  {
    hide Be32;
    assert b[..len][..12] == b[..12] && b[..len][16..] == b[16..len];
    assert SetChecksum(b, w) == SetChecksum(b[..len], w) + b[len..];
  }

  // A header or image head that fixsum has patched sums to zero.
  lemma FixSumZero(b: seq<byte>, size: nat)
    requires 16 <= size <= |b|
    ensures SumWords(FixSum(b, size)[..size]) == 0
  {
    hide SumWords, SetChecksum;
    var s := SumWords(SetChecksum(b, 0)[..size]);
    SumWithChecksum(b, 0, size);
    SumWithChecksum(b, Negated(s), size);
    Cancel(SumWords(b[..12]) + SumWords(b[16..size]), s);
  }

  lemma Cancel(x: nat, s: nat)
    requires s == x % WORD_RANGE
    ensures (x + Negated(s)) % WORD_RANGE == 0
  {
  }
}
