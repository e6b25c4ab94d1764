// The whole image: superblock, nodes, padding, and the checksum over its head.
module RomfsImage {
  import opened Common
  import opened Powers
  import opened RomfsBytes
  import opened RomfsLayout

  const HEAD: nat := 512
  const MAGIC0: nat := 0x2d726f6d
  const MAGIC1: nat := 0x3166732d
  const BLOCK: nat := 1024

  function SuperLen(vol: seq<byte>): nat { 16 + Up16(|vol| + 1) }

  // What dumpdata has been given once a tree is dumped, before the head is patched.
  function Stream(vol: seq<byte>, ns: seq<FileNode>, lastoff: nat): seq<byte> {
    RawHeader(MAGIC0, MAGIC1, lastoff, vol) + EmitAll(ns) + Zeros(ToBlock(lastoff))
  }

  function ToBlock(lastoff: nat): nat {
    if lastoff % BLOCK == 0 then 0 else BLOCK - lastoff % BLOCK
  }

  // The size field of a superblock at the start of b.
  function SizeField(b: seq<byte>): nat
    requires |b| >= 12
  {
    FromBe(b[8..12])
  }

  function Min(a: nat, b: nat): nat { if a < b then a else b }

  // The first 512 bytes with the checksum over as many of them as the image has.
  function FixHead(b: seq<byte>): (r: seq<byte>)
    requires |b| == HEAD && SizeField(b) >= 16
    ensures |r| == HEAD && r[..12] == b[..12] && r[16..] == b[16..]
  {
    FixSum(b, Min(HEAD, SizeField(b)))
  }

  // What the output file holds after the bytes s have been passed to dumpdata.
  function File(s: seq<byte>): (f: seq<byte>)
    requires |s| >= HEAD ==> SizeField(s[..HEAD]) >= 16
    ensures |s| >= HEAD ==> |f| == |s|
  {
    if |s| < HEAD then [] else FixHead(s[..HEAD]) + s[HEAD..]
  }

  // Passing bytes through the head buffer is appending, except for the four bytes of the
  // superblock's checksum.
  lemma FileIsStream(s: seq<byte>)
    requires |s| >= HEAD && SizeField(s[..HEAD]) >= 16
    ensures forall i | 0 <= i < |s| && !(12 <= i < 16) :: File(s)[i] == s[i]
  {
    var h, b := FixHead(s[..HEAD]), s[..HEAD];
    forall i | 0 <= i < |s| && !(12 <= i < 16)
      ensures File(s)[i] == s[i]
    {
      if i < 12 {
        assert File(s)[i] == h[..12][i] == b[..12][i];
      } else if i < HEAD {
        assert File(s)[i] == h[16..][i - 16] == b[16..][i - 16];
      }
    }
  }

  // The first min(512, size) bytes of the file sum to zero.
  lemma HeadSumsToZero(s: seq<byte>)
    requires |s| >= HEAD && SizeField(s[..HEAD]) >= 16
    ensures SumWords(File(s)[..Min(HEAD, SizeField(s[..HEAD]))]) == 0
  {
    var size := Min(HEAD, SizeField(s[..HEAD]));
    FixSumZero(s[..HEAD], size);
    assert File(s)[..size] == FixHead(s[..HEAD])[..size];
  }

  // Every node header sums to zero, too.
  lemma HeaderSumsToZero(n: FileNode, next: nat)
    ensures SumWords(Header(n, next)) == 0
  {
    hide RawHeader, FixSum, SumWords, TypeBits, ExecBit, Spec, Data;
    var raw := RawHeader(next + TypeBits(n) + ExecBit(n), Spec(n), |Data(n)|, n.name);
    FixSumZero(raw, HeadLen(n));
    assert Header(n, next)[..HeadLen(n)] == Header(n, next);
  }

  lemma AtElsewhere(img: seq<byte>, img2: seq<byte>, pos: nat, bs: seq<byte>)
    requires At(img, pos, bs) && |img2| == |img| && pos >= 16
    requires forall i | 16 <= i < |img| :: img2[i] == img[i]
    ensures At(img2, pos, bs)
  {
    assert img2[pos..pos + |bs|] == img[pos..pos + |bs|];
  }

  // ---------- the image of a laid out tree ----------

  lemma StreamFacts(vol: seq<byte>, ns: seq<FileNode>)
    requires AllAlignsOk(ns)
    requires LayoutAll(ns, SuperLen(vol)).1 < WORD_RANGE
    ensures var (ps, lastoff) := LayoutAll(ns, SuperLen(vol)); var s := Stream(vol, ps, lastoff);
      && |s| == lastoff + ToBlock(lastoff) && |s| % BLOCK == 0 && |s| >= BLOCK && SuperLen(vol) <= lastoff
      && SizeField(s[..HEAD]) == lastoff && lastoff >= 32
      && At(s, SuperLen(vol), EmitAll(ps))
  {
    hide LayoutAll, EmitAll, AllAlignsOk, RawHeader, SizeField, At;
    EmittedLengthAll(ns, SuperLen(vol));
    var (ps, lastoff) := LayoutAll(ns, SuperLen(vol));
    StreamParts(RawHeader(MAGIC0, MAGIC1, lastoff, vol), EmitAll(ps), lastoff);
    SizeStored(MAGIC0, MAGIC1, lastoff, vol);
  }

  lemma SizeStored(w0: nat, w1: nat, size: nat, name: seq<byte>)
    requires size < WORD_RANGE
    ensures |RawHeader(w0, w1, size, name)| >= 12 && SizeField(RawHeader(w0, w1, size, name)) == size
  {
    hide NamePart, Be32;
    assert RawHeader(w0, w1, size, name)[8..12] == Word(size);
    WordRoundTrip(size);
  }

  lemma StreamParts(head: seq<byte>, body: seq<byte>, lastoff: nat)
    requires |head| >= 32 && |head| + |body| == lastoff
    ensures var s := head + body + Zeros(ToBlock(lastoff));
      && |s| == lastoff + ToBlock(lastoff) && |s| % BLOCK == 0 && |s| >= BLOCK
      && SizeField(s[..HEAD]) == SizeField(head) && At(s, |head|, body)
  {
    var s := head + body + Zeros(ToBlock(lastoff));
    assert s[..HEAD][8..12] == head[8..12];
    assert s[|head|..|head| + |body|] == body;
  }

  // The file holds every node where the first pass put it, it is as long as the next
  // multiple of 1024 allows, and its head sums to zero.
  lemma ImageCorrect(vol: seq<byte>, ns: seq<FileNode>)
    requires AllAlignsOk(ns)
    requires LayoutAll(ns, SuperLen(vol)).1 < WORD_RANGE
    ensures var (ps, lastoff) := LayoutAll(ns, SuperLen(vol)); var s := Stream(vol, ps, lastoff);
      && |s| >= HEAD && SizeField(s[..HEAD]) == lastoff && lastoff >= 32
      && (var f := File(s);
          && |f| == lastoff + ToBlock(lastoff) && |f| % BLOCK == 0 && lastoff <= |f| < lastoff + BLOCK
          && StoredAll(f, ps)
          && SumWords(f[..Min(HEAD, lastoff)]) == 0
          && (forall i | 0 <= i < |f| && !(12 <= i < 16) :: f[i] == s[i]))
  {
    hide LayoutAll, EmitAll, AllAlignsOk, StoredAll, SumWords, Stream, File;
    StreamFacts(vol, ns);
    var (ps, lastoff) := LayoutAll(ns, SuperLen(vol));
    var s := Stream(vol, ps, lastoff);
    FileIsStream(s);
    HeadSumsToZero(s);
    AtElsewhere(s, File(s), SuperLen(vol), EmitAll(ps));
    EmittedStoredAll(ns, SuperLen(vol), File(s));
  }
}
