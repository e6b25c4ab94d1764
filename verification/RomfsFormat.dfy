// The romfs format in numbers: what stands in an image, byte by byte, for each node of the
// tree that it was made from.
module RomfsFormat {
  import opened Common
  import opened Powers
  import opened RomfsBytes
  import opened RomfsLayout
  import opened RomfsImage

  // ---------- the format ----------

  // The big-endian number at an offset.
  function Number(img: seq<byte>, o: nat): nat
    requires o + 4 <= |img|
  {
    img[o] as int * 0x1000000 + img[o + 1] as int * 0x10000 + img[o + 2] as int * 0x100 + img[o + 3] as int
  }

  // A name takes its bytes, a zero and more zeroes up to a multiple of 16.
  function NameEnd(o: nat, name: seq<byte>): nat {
    o + (|name| / 16 + 1) * 16
  }

  ghost predicate NameAt(img: seq<byte>, o: nat, name: seq<byte>) {
    && NameEnd(o, name) <= |img| && img[o..o + |name|] == name
    && forall i | o + |name| <= i < NameEnd(o, name) :: img[i] == 0
  }

  // The bytes of a file or of the target of a link, and zeroes up to a multiple of 16.
  ghost predicate BytesAt(img: seq<byte>, o: nat, bs: seq<byte>) {
    && o + (|bs| + 15) / 16 * 16 <= |img| && img[o..o + |bs|] == bs
    && forall i | o + |bs| <= i < o + (|bs| + 15) / 16 * 16 :: img[i] == 0
  }

  // The low three bits of the first word.
  function TypeCode(b: Body): nat {
    match b
    case Hard(_) => 0
    case Dir(_) => 1
    case Reg(_) => 2
    case Sym(_) => 3
    case Special(Block, _) => 4
    case Special(Character, _) => 5
    case Special(Socket, _) => 6
    case Special(Fifo, _) => 7
  }

  // The second word: where a directory's entries start (at the directory itself when it has
  // none), where a hard link leads, or the number of a device.
  function SpecInfo(o: nat, b: Body): nat {
    match b
    case Dir(cs) => if |cs| > 0 then cs[0].offset else o
    case Hard(link) => link
    case Special(Block, dev) => dev
    case Special(Character, dev) => dev
    case _ => 0
  }

  // The sum of k words from an offset on.
  function SumFrom(img: seq<byte>, o: nat, k: nat): nat
    requires o + 4 * k <= |img|
  {
    if k == 0 then 0 else SumFrom(img, o, k - 1) + Number(img, o + 4 * (k - 1))
  }

  // A node at its offset, the next entry of its directory being at `next` (0 if none).
  ghost predicate NodeAt(img: seq<byte>, n: FileNode, next: nat) {
    var o := n.offset; var data := NameEnd(o + 16, n.name);
    && o % 16 == 0 && o + 16 <= |img| && NameAt(img, o + 16, n.name)
    && Number(img, o) / 16 * 16 == next && Number(img, o) % 8 == TypeCode(n.body)
    && (Number(img, o) / 8 % 2 == 1 <==> n.exec && (n.body.Dir? || n.body.Reg?))
    && Number(img, o + 4) == SpecInfo(o, n.body) % 0x100000000
    && SumFrom(img, o, (data - o) / 4) % 0x100000000 == 0
    && match n.body
       case Reg(d) => Number(img, o + 8) == |d| && BytesAt(img, data, d)
       case Sym(t) => Number(img, o + 8) == |t| && BytesAt(img, data, t)
       case _ => Number(img, o + 8) == 0
  }

  ghost predicate TreeAt(img: seq<byte>, ns: seq<FileNode>)
    decreases ns
  {
    ns == [] ||
    (&& NodeAt(img, ns[0], if |ns| > 1 then ns[1].offset else 0)
     && (ns[0].body.Dir? ==> TreeAt(img, ns[0].body.children))
     && TreeAt(img, ns[1..]))
  }

  // The two trees are one but for offsets and paddings.
  predicate SameTree(ns: seq<FileNode>, ps: seq<FileNode>)
    decreases ns
  {
    |ns| == |ps| &&
    (ns == [] ||
     (var n, p := ns[0], ps[0];
      && n.name == p.name && n.exec == p.exec && n.align == p.align
      && (if n.body.Dir? then p.body.Dir? && SameTree(n.body.children, p.body.children) else p.body == n.body)
      && SameTree(ns[1..], ps[1..])))
  }

  // The superblock: magic, size, checksum over the first 512 bytes, volume name.
  ghost predicate SuperAt(img: seq<byte>, vol: seq<byte>, size: nat) {
    && |img| % 1024 == 0 && size <= |img| < size + 1024 && 32 <= size && |img| >= 1024
    && img[..8] == [0x2d, 0x72, 0x6f, 0x6d, 0x31, 0x66, 0x73, 0x2d]
    && Number(img, 8) == size && NameAt(img, 16, vol)
    && SumFrom(img, 0, if size < 512 then size / 4 else 128) % 0x100000000 == 0
  }

  // ---------- the first pass ----------

  // Every node ends at or before lim and starts at a multiple of 16.
  predicate Placed(n: FileNode, lim: nat)
    decreases n, 1
  {
    && 0 < n.offset && n.offset % 16 == 0 && n.offset + Space(n) <= lim
    && (n.body.Dir? ==> AllPlaced(n.body.children, lim))
  }

  predicate AllPlaced(ns: seq<FileNode>, lim: nat)
    decreases ns, 0
  {
    ns == [] || (Placed(ns[0], lim) && AllPlaced(ns[1..], lim))
  }

  lemma {:induction false} LayoutPlaced(ns: seq<FileNode>, cur: nat, lim: nat)
    requires AllAlignsOk(ns) && cur % 16 == 0 && cur > 0
    requires LayoutAll(ns, cur).1 <= lim
    ensures AllPlaced(LayoutAll(ns, cur).0, lim)
    decreases ns
  {
    hide Layout, LayoutAll, AlignsOk, AllAlignsOk, PadFor, Space, AllPlaced, Placed;
    if ns != [] {
      LayoutAllStep(ns, cur);
      LayoutFields(ns[0], cur);
      LayoutBounds(ns, cur);
      var (p, c) := Layout(ns[0], cur);
      if p.body.Dir? {
        SpaceMultiple(p);
        LayoutPlaced(ns[0].body.children, p.offset + Space(p), lim);
      }
      LayoutPlaced(ns[1..], c, lim);
      PlacedCons(LayoutAll(ns, cur).0, lim);
    } else {
      PlacedNil(ns, cur, lim);
    }
  }

  lemma PlacedNil(ns: seq<FileNode>, cur: nat, lim: nat)
    requires ns == []
    ensures AllAlignsOk(ns) && LayoutAll(ns, cur).0 == [] && AllPlaced([], lim)
  {
  }

  lemma PlacedCons(ps: seq<FileNode>, lim: nat)
    requires ps != []
    requires 0 < ps[0].offset && ps[0].offset % 16 == 0 && ps[0].offset + Space(ps[0]) <= lim
    requires ps[0].body.Dir? ==> AllPlaced(ps[0].body.children, lim)
    requires AllPlaced(ps[1..], lim)
    ensures AllPlaced(ps, lim)
  {
    hide Space;
    assert Placed(ps[0], lim);
  }

  lemma PlacedStep(ps: seq<FileNode>, lim: nat)
    requires ps != [] && AllPlaced(ps, lim)
    ensures Placed(ps[0], lim) && AllPlaced(ps[1..], lim)
    ensures 0 < ps[0].offset < lim && ps[0].offset % 16 == 0
    ensures NextOf(ps) % 16 == 0 && NextOf(ps) + 16 <= lim
    ensures ps[0].body.Dir? ==> AllPlaced(ps[0].body.children, lim)
  {
    hide Data;
    if |ps| > 1 {
      assert Placed(ps[1..][0], lim);
    }
  }

  // The first pass gives every node a place and changes nothing else.
  lemma {:induction false} LayoutSame(ns: seq<FileNode>, cur: nat)
    requires AllAlignsOk(ns)
    ensures SameTree(ns, LayoutAll(ns, cur).0)
    decreases ns
  {
    if ns != [] {
      hide Layout, LayoutAll, AlignsOk, AllAlignsOk, PadFor, Data, Space, HeadLen;
      LayoutAllStep(ns, cur);
      LayoutFields(ns[0], cur);
      var (p, c) := Layout(ns[0], cur);
      if ns[0].body.Dir? {
        LayoutSame(ns[0].body.children, p.offset + Space(p));
      }
      LayoutSame(ns[1..], c);
    }
  }

  // ---------- what is stored is the format ----------

  lemma HeaderWords(n: FileNode, next: nat)
    ensures Header(n, next)[..4] == Word(next + TypeBits(n) + ExecBit(n))
    ensures Header(n, next)[4..8] == Word(Spec(n)) && Header(n, next)[8..12] == Word(|Data(n)|)
    ensures Header(n, next)[16..] == NamePart(n.name)
  {
    hide FixSum, NamePart, Word, TypeBits, ExecBit, Spec, Data;
    var w := next + TypeBits(n) + ExecBit(n);
    var raw, h := RawHeader(w, Spec(n), |Data(n)|, n.name), Header(n, next);
    RawParts(w, Spec(n), |Data(n)|, n.name);
    assert h[..4] == h[..12][..4] && h[4..8] == h[..12][4..8] && h[8..12] == h[..12][8..];
    assert raw[..4] == raw[..12][..4] && raw[4..8] == raw[..12][4..8] && raw[8..12] == raw[..12][8..];
  }

  lemma RawParts(w: nat, spec: nat, size: nat, name: seq<byte>)
    ensures var raw := RawHeader(w, spec, size, name);
      raw[..4] == Word(w) && raw[4..8] == Word(spec) && raw[8..12] == Word(size) && raw[16..] == NamePart(name)
  {
    hide NamePart, Word;
  }

  lemma NumberIs(img: seq<byte>, o: nat)
    requires o + 4 <= |img|
    ensures Number(img, o) == FromBe(img[o..o + 4])
  {
  }

  lemma WordIs(w: nat)
    ensures FromBe(Word(w)) == w % 0x100000000
  {
    WordRoundTrip(w % WORD_RANGE);
  }

  lemma TypeIs(n: FileNode)
    ensures TypeBits(n) == TypeCode(n.body) < 8 && ExecBit(n) == if n.exec && (n.body.Dir? || n.body.Reg?) then 8 else 0
    ensures Spec(n) == SpecInfo(n.offset, n.body)
    ensures |Data(n)| == match n.body case Reg(d) => |d| case Sym(t) => |t| case _ => 0
  {
  }

  lemma FirstWord(next: nat, t: nat, x: bool)
    requires next % 16 == 0 && t < 8 && next + 16 <= 0x100000000
    ensures var w := next + t + (if x then 8 else 0);
      w % 0x100000000 == w && w / 16 * 16 == next && w % 8 == t && (w / 8 % 2 == 1 <==> x)
  {
    var q, b := next / 16, if x then 1 else 0;
    assert next == 16 * q;
    Fields(q, b, t);
  }

  // A number with the fields q, b and t from the top, of which b has one bit and t three.
  lemma Fields(q: nat, b: nat, t: nat)
    requires b < 2 && t < 8
    ensures var w := 16 * q + 8 * b + t; w / 16 == q && w % 8 == t && w / 8 % 2 == b
  {
    By16(q, 8 * b + t);
    By8(2 * q + b, t);
    By2(q, b);
  }

  lemma By16(q: nat, r: nat)
    requires r < 16
    ensures (16 * q + r) / 16 == q
  {
  }

  lemma By8(q: nat, r: nat)
    requires r < 8
    ensures (8 * q + r) / 8 == q && (8 * q + r) % 8 == r
  {
  }

  lemma By2(q: nat, r: nat)
    requires r < 2
    ensures (2 * q + r) % 2 == r
  {
  }

  lemma EndIs(n: FileNode)
    ensures NameEnd(n.offset + 16, n.name) == n.offset + HeadLen(n)
  {
    UpIs(n.name);
  }

  lemma UpIs(name: seq<byte>)
    ensures Up16(|name| + 1) == (|name| / 16 + 1) * 16
  {
  }

  lemma NameIs(img: seq<byte>, o: nat, name: seq<byte>)
    requires At(img, o, NamePart(name))
    ensures NameAt(img, o, name)
  {
    UpIs(name);
    var part := NamePart(name);
    forall i | o <= i < o + |part| ensures img[i] == part[i - o] {
      assert img[o..o + |part|][i - o] == img[i];
    }
  }

  lemma BytesIs(img: seq<byte>, o: nat, bs: seq<byte>)
    requires At(img, o, bs + Zeros(Up16(|bs|) - |bs|))
    ensures BytesAt(img, o, bs)
  {
    var part := bs + Zeros(Up16(|bs|) - |bs|);
    forall i | o <= i < o + |part| ensures img[i] == part[i - o] {
      assert img[o..o + |part|][i - o] == img[i];
    }
  }

  // Summing words by their offsets is summing them one after another.
  lemma {:induction false} SumIs(img: seq<byte>, o: nat, k: nat)
    requires o + 4 * k <= |img|
    ensures SumFrom(img, o, k) % 0x100000000 == SumWords(img[o..o + 4 * k])
    decreases k
  {
    hide FromBe, SumWords, Number;
    if k > 0 {
      SumIs(img, o, k - 1);
      var a, b := img[o..o + 4 * (k - 1)], img[o + 4 * (k - 1)..o + 4 * k];
      assert img[o..o + 4 * k] == a + b;
      SumWordsConcat(a, b);
      OneWord(b);
      NumberIs(img, o + 4 * (k - 1));
      ModPlus(SumFrom(img, o, k - 1), SumWords(a), FromBe(b));
    } else {
      assert img[o..o + 4 * 0] == [];
      NoWords();
    }
  }

  lemma NoWords()
    ensures SumWords([]) == 0
  {
  }

  lemma ModPlus(x: nat, y: nat, z: nat)
    requires x % 0x100000000 == y
    ensures (x + z) % 0x100000000 == (y + z) % 0x100000000
  {
  }

  lemma OneWord(b: seq<byte>)
    requires |b| == 4
    ensures SumWords(b) == FromBe(b)
  {
    assert b[..4] == b;
  }

  // A header stored with its contents behind it is the node in the format.
  lemma NodeWritten(img: seq<byte>, n: FileNode, next: nat)
    requires At(img, n.offset, Header(n, next)) && At(img, n.offset + HeadLen(n), Content(n)) && n.offset % 16 == 0
    requires next % 16 == 0 && next + 16 <= 0x100000000 && |Data(n)| < 0x100000000
    ensures NodeAt(img, n, next)
  {
    hide Header, Content, At, FromBe, TypeBits, ExecBit, Spec, Data, Up16, NameAt, BytesAt, SumFrom, SumWords, HeadLen;
    hide Number, TypeCode, SpecInfo, NameEnd;
    HeaderParts(img, n, next);
    EndIs(n);
    FirstWordIs(img, n, next);
    SumIsZero(img, n, next);
    ContentIs(img, n);
    TypeIs(n);
  }

  lemma FirstWordIs(img: seq<byte>, n: FileNode, next: nat)
    requires At(img, n.offset, Header(n, next)) && next % 16 == 0 && next + 16 <= 0x100000000
    ensures n.offset + 16 <= |img|
    ensures var w := Number(img, n.offset);
      && w / 16 * 16 == next && w % 8 == TypeCode(n.body)
      && (w / 8 % 2 == 1 <==> n.exec && (n.body.Dir? || n.body.Reg?))
  {
    hide Header, At, TypeBits, ExecBit, Spec, Data, NameAt, Number, TypeCode, SpecInfo;
    HeaderParts(img, n, next);
    TypeIs(n);
    FirstWord(next, TypeCode(n.body), n.exec && (n.body.Dir? || n.body.Reg?));
  }

  lemma SumIsZero(img: seq<byte>, n: FileNode, next: nat)
    requires At(img, n.offset, Header(n, next))
    ensures n.offset + HeadLen(n) <= |img| && HeadLen(n) / 4 * 4 == HeadLen(n)
    ensures SumFrom(img, n.offset, HeadLen(n) / 4) % 0x100000000 == 0
  {
    hide Header, At, NameAt, Number, SumFrom, SumWords, HeadLen, FromBe, TypeBits, ExecBit, Spec, Data;
    HeaderParts(img, n, next);
    InFours(n);
    SumIs(img, n.offset, HeadLen(n) / 4);
    HeaderSumsToZero(n, next);
  }

  lemma InFours(n: FileNode)
    ensures HeadLen(n) / 4 * 4 == HeadLen(n)
  {
    var u := Up16(|n.name| + 1);
    hide Up16;
    Fours(u);
  }

  lemma Fours(u: nat)
    requires u % 16 == 0
    ensures (16 + u) / 4 * 4 == 16 + u
  {
    assert u == 16 * (u / 16);
    assert 16 + u == 4 * (4 + 4 * (u / 16));
  }

  lemma HeaderParts(img: seq<byte>, n: FileNode, next: nat)
    requires At(img, n.offset, Header(n, next))
    ensures var o := n.offset;
      && o + HeadLen(n) <= |img| && NameAt(img, o + 16, n.name)
      && Number(img, o) == (next + TypeBits(n) + ExecBit(n)) % 0x100000000
      && Number(img, o + 4) == Spec(n) % 0x100000000 && Number(img, o + 8) == |Data(n)| % 0x100000000
      && img[o..o + HeadLen(n)] == Header(n, next)
  {
    var o, h := n.offset, Header(n, next);
    hide Header, FromBe, TypeBits, ExecBit, Spec, Data, NamePart, NameAt;
    HeaderWords(n, next);
    PartOf(img, o, h, 0, 4);
    PartOf(img, o, h, 4, 8);
    PartOf(img, o, h, 8, 12);
    PartOf(img, o, h, 16, |h|);
    NumberIs(img, o);
    NumberIs(img, o + 4);
    NumberIs(img, o + 8);
    WordIs(next + TypeBits(n) + ExecBit(n));
    WordIs(Spec(n));
    WordIs(|Data(n)|);
    assert h[16..|h|] == h[16..];
    NameIs(img, o + 16, n.name);
  }

  lemma PartOf(img: seq<byte>, o: nat, h: seq<byte>, i: nat, j: nat)
    requires At(img, o, h) && i <= j <= |h|
    ensures o + j <= |img| && img[o + i..o + j] == h[i..j] && At(img, o + i, h[i..j])
  {
    var d := img[o..o + |h|];
    forall k | 0 <= k < j - i ensures img[o + i..o + j][k] == h[i..j][k] {
      assert d[i + k] == img[o + (i + k)];
    }
  }

  lemma ContentIs(img: seq<byte>, n: FileNode)
    requires At(img, n.offset + HeadLen(n), Content(n))
    ensures n.body.Reg? ==> BytesAt(img, n.offset + HeadLen(n), n.body.data)
    ensures n.body.Sym? ==> BytesAt(img, n.offset + HeadLen(n), n.body.target)
  {
    hide At, BytesAt, HeadLen;
    if n.body.Reg? { BytesIs(img, n.offset + HeadLen(n), n.body.data); }
    if n.body.Sym? { BytesIs(img, n.offset + HeadLen(n), n.body.target); }
  }

  lemma {:induction false} TreeWritten(img: seq<byte>, ps: seq<FileNode>, lim: nat)
    requires StoredAll(img, ps) && AllPlaced(ps, lim) && lim < WORD_RANGE
    ensures TreeAt(img, ps)
    decreases ps
  {
    hide At, Header, Content, HeadLen, Space, Data, NodeAt, AllPlaced, Placed;
    if ps != [] {
      PlacedStep(ps, lim);
      DataFits(ps, lim);
      StoredParts(img, ps);
      NodeWritten(img, ps[0], NextOf(ps));
      if ps[0].body.Dir? { TreeWritten(img, ps[0].body.children, lim); }
      TreeWritten(img, ps[1..], lim);
    }
  }

  lemma StoredParts(img: seq<byte>, ps: seq<FileNode>)
    requires ps != [] && StoredAll(img, ps)
    ensures At(img, ps[0].offset, Header(ps[0], NextOf(ps))) && StoredAll(img, ps[1..])
    ensures At(img, ps[0].offset + HeadLen(ps[0]), Content(ps[0]))
    ensures ps[0].body.Dir? ==> StoredAll(img, ps[0].body.children)
  {
    hide At, Header, Content, HeadLen;
  }

  lemma DataFits(ps: seq<FileNode>, lim: nat)
    requires ps != [] && AllPlaced(ps, lim) && lim < WORD_RANGE
    ensures |Data(ps[0])| < WORD_RANGE
  {
    hide Data;
  }

  // ---------- the image ----------

  // What genromfs writes for the entries ns of the root directory.
  ghost function Image(vol: seq<byte>, ns: seq<FileNode>): seq<byte>
    requires AllAlignsOk(ns) && LayoutAll(ns, SuperLen(vol)).1 < WORD_RANGE
  {
    StreamFacts(vol, ns);
    File(Stream(vol, LayoutAll(ns, SuperLen(vol)).0, LayoutAll(ns, SuperLen(vol)).1))
  }

  // The image is in the format: its superblock, and for each node of the tree what the
  // format asks for, the first node standing behind the superblock and its own padding.
  lemma ImageFormat(vol: seq<byte>, ns: seq<FileNode>)
    requires AllAlignsOk(ns) && LayoutAll(ns, SuperLen(vol)).1 < WORD_RANGE
    ensures var (ps, size) := LayoutAll(ns, SuperLen(vol));
      && SuperAt(Image(vol, ns), vol, size) && TreeAt(Image(vol, ns), ps) && SameTree(ns, ps)
      && (ns != [] ==> ps[0].offset == NameEnd(16, vol) + ps[0].pad)
  {
    hide LayoutAll, Layout, AllAlignsOk, EmitAll, StoredAll, SumWords, Stream, File, AllPlaced, TreeAt, SameTree;
    hide SizeField, At;
    var ps, size := LayoutAll(ns, SuperLen(vol)).0, LayoutAll(ns, SuperLen(vol)).1;
    var f := Image(vol, ns);
    ImageCorrect(vol, ns);
    UpIs(vol);
    LayoutPlaced(ns, SuperLen(vol), size);
    TreeWritten(f, ps, size);
    LayoutSame(ns, SuperLen(vol));
    SuperWritten(vol, ns);
    if ns != [] { FirstStart(ns, SuperLen(vol)); }
  }

  lemma SuperWritten(vol: seq<byte>, ns: seq<FileNode>)
    requires AllAlignsOk(ns) && LayoutAll(ns, SuperLen(vol)).1 < WORD_RANGE
    ensures SuperAt(Image(vol, ns), vol, LayoutAll(ns, SuperLen(vol)).1)
  {
    hide LayoutAll, AllAlignsOk, EmitAll, StoredAll, SumWords, Stream, File, SizeField, At, NameAt, SumFrom;
    hide Number, FromBe, Image, Be32, Word, RawHeader, NamePart;
    var ps, size := LayoutAll(ns, SuperLen(vol)).0, LayoutAll(ns, SuperLen(vol)).1;
    var f, s := Image(vol, ns), Stream(vol, ps, size);
    ImageCorrect(vol, ns);
    ImageIs(vol, ns);
    EndMultiple(vol, ns);
    StreamStarts(vol, ps, size);
    SameHead(f, s, vol);
    NumberIs(f, 8);
    WordIs(size);
    SumIs(f, 0, if size < 512 then size / 4 else 128);
    assert f[0..Min(HEAD, size)] == f[..Min(HEAD, size)];
  }

  lemma ImageIs(vol: seq<byte>, ns: seq<FileNode>)
    requires AllAlignsOk(ns) && LayoutAll(ns, SuperLen(vol)).1 < WORD_RANGE
    ensures var (ps, size) := LayoutAll(ns, SuperLen(vol)); var s := Stream(vol, ps, size);
      |s| >= HEAD && SizeField(s[..HEAD]) >= 16 && Image(vol, ns) == File(s)
  {
    StreamFacts(vol, ns);
    hide LayoutAll, AllAlignsOk, Stream, File, SizeField, EmitAll;
  }

  lemma EndMultiple(vol: seq<byte>, ns: seq<FileNode>)
    requires AllAlignsOk(ns)
    ensures LayoutAll(ns, SuperLen(vol)).1 % 16 == 0
  {
    hide LayoutAll, AllAlignsOk;
    LayoutEnd(ns, SuperLen(vol));
  }

  // How the stream starts.
  lemma StreamStarts(vol: seq<byte>, ps: seq<FileNode>, size: nat)
    ensures var s := Stream(vol, ps, size);
      && |s| >= 32 && s[..8] == [0x2d, 0x72, 0x6f, 0x6d, 0x31, 0x66, 0x73, 0x2d] && s[8..12] == Word(size)
      && At(s, 16, NamePart(vol))
  {
    hide EmitAll, NamePart, RawHeader, At;
    var raw := RawHeader(MAGIC0, MAGIC1, size, vol);
    RawParts(MAGIC0, MAGIC1, size, vol);
    assert Stream(vol, ps, size) == raw + (EmitAll(ps) + Zeros(ToBlock(size)));
    HeadOf(raw, EmitAll(ps) + Zeros(ToBlock(size)));
    Magic();
  }

  lemma Magic()
    ensures Word(MAGIC0) + Word(MAGIC1) == [0x2d, 0x72, 0x6f, 0x6d, 0x31, 0x66, 0x73, 0x2d]
  {
  }

  lemma HeadOf(raw: seq<byte>, rest: seq<byte>)
    requires |raw| >= 32
    ensures var s := raw + rest;
      s[..8] == raw[..4] + raw[4..8] && s[8..12] == raw[8..12] && At(s, 16, raw[16..])
  {
    var s := raw + rest;
    assert s[..|raw|] == raw;
    assert s[16..16 + |raw[16..]|] == s[..|raw|][16..];
  }

  lemma SameHead(f: seq<byte>, s: seq<byte>, vol: seq<byte>)
    requires |f| == |s| >= 32 && At(s, 16, NamePart(vol))
    requires forall i | 0 <= i < |f| && !(12 <= i < 16) :: f[i] == s[i]
    ensures f[..8] == s[..8] && f[8..12] == s[8..12] && NameAt(f, 16, vol)
  {
    var part := NamePart(vol);
    assert f[16..16 + |part|] == s[16..16 + |part|];
    NameIs(f, 16, vol);
  }

  lemma FirstStart(ns: seq<FileNode>, cur: nat)
    requires AllAlignsOk(ns) && ns != []
    ensures LayoutAll(ns, cur).0 != [] && LayoutAll(ns, cur).0[0].offset == cur + LayoutAll(ns, cur).0[0].pad
  {
    hide LayoutAll, Layout, AlignsOk, AllAlignsOk, PadFor;
    LayoutAllStep(ns, cur);
    LayoutFields(ns[0], cur);
  }
}
