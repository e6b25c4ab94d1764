// From a tree through both passes of the writer to the image, and back through the reader.
module RomfsRoundTrip {
  import opened Common
  import opened Powers
  import opened RomfsBytes
  import opened RomfsLayout
  import opened RomfsImage
  import opened RomfsFormat
  import opened RomfsPaths
  import opened RomfsReader

  // A name without zeroes whose end lies in the sector that starts at its header.
  predicate NameOk(name: seq<byte>) {
    16 + |name| < SECTOR && forall i | 0 <= i < |name| :: name[i] != 0
  }

  // Device numbers and link offsets fit a word.
  predicate Proper(n: FileNode)
    decreases n, 1
  {
    && NameOk(n.name)
    && (n.body.Special? ==> n.body.dev < WORD_RANGE)
    && (n.body.Hard? ==> n.body.link < WORD_RANGE)
    && (n.body.Dir? ==> AllProper(n.body.children))
  }

  predicate AllProper(ns: seq<FileNode>)
    decreases ns, 0
  {
    ns == [] || (Proper(ns[0]) && AllProper(ns[1..]))
  }

  // ---------- the first pass keeps the tree ----------

  lemma {:induction false} LayoutProper(ns: seq<FileNode>, cur: nat)
    requires AllAlignsOk(ns) && AllProper(ns)
    ensures AllProper(LayoutAll(ns, cur).0)
    decreases ns
  {
    hide Layout, LayoutAll, AlignsOk, AllAlignsOk, PadFor, Space, AllProper, Proper;
    if ns != [] {
      LayoutAllStep(ns, cur);
      LayoutFields(ns[0], cur);
      ProperStep(ns);
      var (p, c) := Layout(ns[0], cur);
      if p.body.Dir? {
        LayoutProper(ns[0].body.children, p.offset + Space(p));
      }
      LayoutProper(ns[1..], c);
      ProperCons(ns[0], LayoutAll(ns, cur).0);
    } else {
      NilProper(ns, cur);
    }
  }

  lemma NilProper(ns: seq<FileNode>, cur: nat)
    requires ns == []
    ensures AllAlignsOk(ns) && LayoutAll(ns, cur).0 == [] && AllProper([])
  {
  }

  lemma ProperStep(ns: seq<FileNode>)
    requires ns != [] && AllProper(ns)
    ensures Proper(ns[0]) && AllProper(ns[1..])
    ensures ns[0].body.Dir? ==> AllProper(ns[0].body.children)
  {
  }

  lemma ProperCons(n: FileNode, ps: seq<FileNode>)
    requires Proper(n) && ps != []
    requires ps[0] == n.(offset := ps[0].offset, pad := ps[0].pad, body := ps[0].body)
    requires ps[0].body.Dir? == n.body.Dir? && (!n.body.Dir? ==> ps[0].body == n.body)
    requires ps[0].body.Dir? ==> AllProper(ps[0].body.children)
    requires AllProper(ps[1..])
    ensures AllProper(ps)
  {
    hide NameOk;
    assert Proper(ps[0]);
  }

  // ---------- what is stored can be read ----------

  lemma WordMasked(next: nat, bits: nat)
    requires next % 16 == 0 && next + 16 <= WORD_RANGE && bits < 16
    ensures Masked(FromBe(Word(next + bits))) == next
  {
    hide FromBe, Be32;
    WordRoundTrip(next + bits);
  }

  lemma BitsSmall(n: FileNode)
    requires Proper(n)
    ensures TypeBits(n) + ExecBit(n) < 16
  {
  }

  lemma NameEnds(dev: seq<byte>, o: nat, name: seq<byte>)
    requires NameOk(name) && o + SECTOR <= |dev| && At(dev, o + 16, NamePart(name))
    ensures CStr(dev[o + 16..o + SECTOR]) == name
  {
    hide CStr, At, NamePart;
    var s := dev[o + 16..o + SECTOR];
    NameInside(dev, o + 16, name);
    forall i | 0 <= i < |name| ensures s[i] == name[i] {
      assert s[i] == dev[o + 16 + i];
    }
    assert s == name + s[|name|..];
    CStrOf(name, s[|name|..]);
  }

  lemma NameInside(dev: seq<byte>, pos: nat, name: seq<byte>)
    requires At(dev, pos, NamePart(name))
    ensures pos + |name| < |dev| && dev[pos + |name|] == 0
    ensures forall i {:trigger name[i]} | 0 <= i < |name| :: dev[pos + i] == name[i]
  {
    var part := NamePart(name);
    assert dev[pos..pos + |part|][|name|] == dev[pos + |name|];
    forall i {:trigger name[i]} | 0 <= i < |name| ensures dev[pos + i] == name[i] {
      assert dev[pos..pos + |part|][i] == dev[pos + i] && part[..|name|][i] == part[i];
    }
  }

  lemma AtSlice(dev: seq<byte>, o: nat, h: seq<byte>, i: nat, j: nat)
    requires At(dev, o, h) && i <= j <= |h|
    ensures o + j <= |dev| && dev[o + i..o + j] == h[i..j]
  {
    var d := dev[o..o + |h|];
    forall k | 0 <= k < j - i ensures dev[o + i..o + j][k] == h[i..j][k] {
      assert d[i + k] == dev[o + (i + k)];
    }
  }

  lemma HeaderAt(dev: seq<byte>, o: nat, h: seq<byte>)
    requires At(dev, o, h) && |h| >= 16
    ensures o + 16 <= |dev|
    ensures dev[o..o + 4] == h[..4] && dev[o + 4..o + 8] == h[4..8] && dev[o + 8..o + 12] == h[8..12]
    ensures At(dev, o + 16, h[16..])
  {
    AtSlice(dev, o, h, 0, 4);
    AtSlice(dev, o, h, 4, 8);
    AtSlice(dev, o, h, 8, 12);
    AtSlice(dev, o, h, 16, |h|);
  }

  lemma NodeReads(dev: seq<byte>, n: FileNode, next: nat)
    requires At(dev, n.offset, Header(n, next)) && n.offset + SECTOR <= |dev| && Proper(n)
    requires next % 16 == 0 && next + 16 <= WORD_RANGE && Spec(n) < WORD_RANGE && |Data(n)| < WORD_RANGE
    ensures var o := n.offset;
      && Masked(FromBe(dev[o..o + 4])) == next && FromBe(dev[o + 4..o + 8]) == Spec(n)
      && FromBe(dev[o + 8..o + 12]) == |Data(n)| && CStr(dev[o + 16..o + SECTOR]) == n.name
  {
    hide Header, At, FromBe, Be32, CStr, Masked, NamePart, Spec, Data, TypeBits, ExecBit, Proper, NameOk;
    var o := n.offset;
    HeaderAt(dev, o, Header(n, next));
    HeaderWords(n, next);
    BitsSmall(n);
    WordMasked(next, TypeBits(n) + ExecBit(n));
    WordRoundTrip(Spec(n));
    WordRoundTrip(|Data(n)|);
    ProperName(n);
    NameEnds(dev, o, n.name);
  }

  lemma ProperName(n: FileNode)
    requires Proper(n)
    ensures NameOk(n.name)
  {
  }

  lemma SpecSmall(n: FileNode, lim: nat)
    requires Proper(n) && Placed(n, lim) && lim < WORD_RANGE
    ensures Spec(n) < WORD_RANGE && |Data(n)| < WORD_RANGE
  {
    if n.body.Dir? && n.body.children != [] {
      assert Placed(n.body.children[0], lim);
    }
  }

  // Whatever the second pass has stored where the first pass placed it, the reader can read.
  lemma {:induction false} StoredReadable(dev: seq<byte>, storage: nat, ps: seq<FileNode>, lim: nat)
    requires StoredAll(dev, ps) && AllPlaced(ps, lim) && AllProper(ps)
    requires lim <= storage && lim + SECTOR <= |dev| && lim < WORD_RANGE
    ensures ReadableAll(dev, storage, ps)
    decreases ps
  {
    if ps != [] {
      hide StoredAll, AllPlaced, AllProper, ReadableAll, Header, Proper, Placed;
      hide At, Space, FromBe, CStr, Masked, Spec, Data, Content, NextOf;
      StoredStep(dev, ps);
      ProperStep(ps);
      PlacedStep(ps, lim);
      SpecSmall(ps[0], lim);
      NodeReads(dev, ps[0], NextOf(ps));
      if ps[0].body.Dir? {
        StoredReadable(dev, storage, ps[0].body.children, lim);
      }
      StoredReadable(dev, storage, ps[1..], lim);
      ReadableCons(dev, storage, ps);
    }
  }

  lemma StoredStep(dev: seq<byte>, ps: seq<FileNode>)
    requires ps != [] && StoredAll(dev, ps)
    ensures At(dev, ps[0].offset, Header(ps[0], NextOf(ps))) && StoredAll(dev, ps[1..])
    ensures At(dev, ps[0].offset + HeadLen(ps[0]), Content(ps[0]))
    ensures ps[0].body.Dir? ==> StoredAll(dev, ps[0].body.children)
  {
    hide At, Header, Content, HeadLen;
  }

  lemma ReadableCons(dev: seq<byte>, storage: nat, ps: seq<FileNode>)
    requires ps != [] && 0 < ps[0].offset < storage && ps[0].offset + SECTOR <= |dev| && ps[0].offset % 16 == 0
    requires var o := ps[0].offset;
      && Masked(FromBe(dev[o..o + 4])) == NextOf(ps) && FromBe(dev[o + 4..o + 8]) == Spec(ps[0])
      && FromBe(dev[o + 8..o + 12]) == |Data(ps[0])| && CStr(dev[o + 16..o + SECTOR]) == ps[0].name
    requires ps[0].body.Dir? ==> ReadableAll(dev, storage, ps[0].body.children)
    requires ReadableAll(dev, storage, ps[1..])
    ensures ReadableAll(dev, storage, ps)
  {
    hide FromBe, CStr, Masked, Spec, Data, NextOf;
    assert Readable(dev, storage, ps[0], NextOf(ps));
  }

  // ---------- searching before and after the first pass ----------

  // Two searches that find nodes of the same name with the same bytes, or nothing.
  predicate SameFound(a: Option<FileNode>, b: Option<FileNode>) {
    match a
    case None => b == None
    case Some(n) => b.Some? && SameNode(n, b.value)
  }

  // The first pass does not change what is found.
  lemma {:induction false} LookupLaidOut(ns: seq<FileNode>, cur: nat, comps: seq<seq<byte>>)
    requires AllAlignsOk(ns) && comps != []
    ensures SameFound(Lookup(ns, comps), Lookup(LayoutAll(ns, cur).0, comps))
    decreases ns
  {
    if ns != [] {
      hide Layout, LayoutAll, AlignsOk, AllAlignsOk, PadFor, Data, Space, HeadLen;
      LayoutAllStep(ns, cur);
      LayoutFields(ns[0], cur);
      var (p, c) := Layout(ns[0], cur);
      if ns[0].name != comps[0] {
        LookupLaidOut(ns[1..], c, comps);
      } else if |comps| > 1 && ns[0].body.Dir? {
        LookupLaidOut(ns[0].body.children, p.offset + Space(ns[0]), comps[1..]);
      }
    } else {
      NilLayout(cur);
    }
  }

  // Nor whether a path is ordinary.
  lemma {:induction false} OrdinaryLaidOut(ns: seq<FileNode>, cur: nat, comps: seq<seq<byte>>)
    requires AllAlignsOk(ns) && comps != []
    ensures Ordinary(ns, comps) <==> Ordinary(LayoutAll(ns, cur).0, comps)
    decreases ns
  {
    if ns != [] {
      hide Layout, LayoutAll, AlignsOk, AllAlignsOk, PadFor, Data, Space, HeadLen;
      LayoutAllStep(ns, cur);
      LayoutFields(ns[0], cur);
      var (p, c) := Layout(ns[0], cur);
      if ns[0].name != comps[0] {
        OrdinaryLaidOut(ns[1..], c, comps);
      } else if |comps| > 1 && ns[0].body.Dir? {
        if ns[0].body.children == [] {
          NilLayout(p.offset + Space(ns[0]));
        } else {
          LayoutAllStep(ns[0].body.children, p.offset + Space(ns[0]));
          OrdinaryLaidOut(ns[0].body.children, p.offset + Space(ns[0]), comps[1..]);
        }
      }
    } else {
      NilLayout(cur);
    }
  }

  // romfs_get_daddr
  function GetDaddr(i: Inode): nat {
    (|i.name| + 16) / 16 * 16 + 16 + i.daddr
  }

  // What is found is stored, and romfs_get_daddr says where its bytes begin.
  lemma {:induction false} FoundStored(dev: seq<byte>, root: seq<FileNode>, ps: seq<FileNode>, comps: seq<seq<byte>>)
    requires comps != [] && StoredAll(dev, root) && StoredAll(dev, ps) && Walk(root, ps, comps).Some?
    ensures var n := Walk(root, ps, comps).value;
      At(dev, GetDaddr(Inode(n.name, |Data(n)|, n.offset)), Content(n))
    decreases |comps|, ps
  {
    hide StoredAll, At, Content, Header, Data, Below;
    StoredStep(dev, ps);
    if ps[0].name != comps[0] {
      FoundStored(dev, root, ps[1..], comps);
    } else if |comps| > 1 {
      BelowStored(dev, root, ps);
      FoundStored(dev, root, Below(root, ps), comps[1..]);
    }
  }

  lemma BelowStored(dev: seq<byte>, root: seq<FileNode>, ps: seq<FileNode>)
    requires ps != [] && StoredAll(dev, root) && StoredAll(dev, ps)
    ensures StoredAll(dev, Below(root, ps))
  {
    hide At, Content, Header, Data;
    StoredFrom(dev, root, Masked(Spec(ps[0])));
  }

  lemma {:induction false} StoredFrom(dev: seq<byte>, ps: seq<FileNode>, o: nat)
    requires StoredAll(dev, ps)
    ensures StoredAll(dev, NodesAt(ps, o))
    decreases ps
  {
    if ps != [] && ps[0].offset != o {
      StoredStep(dev, ps);
      hide StoredAll;
      if ps[0].body.Dir? { StoredFrom(dev, ps[0].body.children, o); }
      StoredFrom(dev, ps[1..], o);
    }
  }

  // ---------- the image on a device ----------

  // A tree the writer can lay out, whose image lies at the start of the device with a
  // sector to spare.
  ghost predicate OnDevice(vol: seq<byte>, ns: seq<FileNode>, dev: seq<byte>, storage: nat) {
    && AllAlignsOk(ns) && AllProper(ns) && NameOk(vol)
    && var end := LayoutAll(ns, SuperLen(vol)).1;
    && end < WORD_RANGE && end <= storage && end + SECTOR <= |dev|
    && Image(vol, ns) <= dev
  }

  lemma AtDevice(s: seq<byte>, f: seq<byte>, dev: seq<byte>, pos: nat, bs: seq<byte>)
    requires At(s, pos, bs) && pos >= 16 && |f| == |s| && f <= dev
    requires forall i | 0 <= i < |s| && !(12 <= i < 16) :: f[i] == s[i]
    ensures At(dev, pos, bs)
  {
    forall k | 0 <= k < |bs| ensures dev[pos..pos + |bs|][k] == bs[k] {
      assert dev[pos + k] == f[pos + k] == s[pos + k] == s[pos..pos + |bs|][k];
    }
  }

  // The device holds the emitted nodes and the volume name.
  lemma DeviceHolds(vol: seq<byte>, ns: seq<FileNode>, dev: seq<byte>, storage: nat)
    requires OnDevice(vol, ns, dev, storage)
    ensures At(dev, SuperLen(vol), EmitAll(LayoutAll(ns, SuperLen(vol)).0)) && At(dev, 16, NamePart(vol))
    ensures |dev| >= SECTOR
  {
    hide AllAlignsOk, LayoutAll, EmitAll, AllProper, NameOk, NamePart, At, File, Stream, SizeField;
    StreamFacts(vol, ns);
    var ps, end := LayoutAll(ns, SuperLen(vol)).0, LayoutAll(ns, SuperLen(vol)).1;
    var s := Stream(vol, ps, end);
    FileIsStream(s);
    StreamStarts(vol, ps, end);
    AtDevice(s, File(s), dev, 16, NamePart(vol));
    AtDevice(s, File(s), dev, SuperLen(vol), EmitAll(ps));
  }

  lemma FirstIsSuperLen(vol: seq<byte>, dev: seq<byte>)
    requires NameOk(vol) && At(dev, 16, NamePart(vol)) && |dev| >= SECTOR
    ensures FirstHeader(dev[..SECTOR]) == SuperLen(vol)
  {
    hide NamePart, CStr, At, NameOk;
    NameEnds(dev, 0, vol);
    assert dev[..SECTOR][16..] == dev[16..SECTOR];
  }

  // What the two passes leave on the device, the reader can read from the first header on.
  lemma DeviceReadable(vol: seq<byte>, ns: seq<FileNode>, dev: seq<byte>, storage: nat)
    requires OnDevice(vol, ns, dev, storage)
    ensures var ps := LayoutAll(ns, SuperLen(vol)).0;
      ReadableAll(dev, storage, ps) && StoredAll(dev, ps)
    ensures |dev| >= SECTOR && FirstHeader(dev[..SECTOR]) == SuperLen(vol)
  {
    hide LayoutAll, EmitAll, AllAlignsOk, AllProper, NameOk, Image;
    hide At, StoredAll, ReadableAll, AllPlaced, FirstHeader, NamePart;
    DeviceHolds(vol, ns, dev, storage);
    FirstIsSuperLen(vol, dev);
    EmittedStoredAll(ns, SuperLen(vol), dev);
    LayoutPlaced(ns, SuperLen(vol), LayoutAll(ns, SuperLen(vol)).1);
    LayoutProper(ns, SuperLen(vol));
    StoredReadable(dev, storage, LayoutAll(ns, SuperLen(vol)).0, LayoutAll(ns, SuperLen(vol)).1);
  }

  // ---------- the round trip ----------

  // What the reader should return for a node of the tree: its name, how many bytes it has,
  // and where they are.
  ghost predicate Returns(r: Option<Inode>, dev: seq<byte>, found: Option<FileNode>) {
    match found
    case None => r == None
    case Some(n) =>
      && r.Some? && r.value.name == n.name
      && match n.body
         case Reg(d) => r.value.dsize == |d| && At(dev, GetDaddr(r.value), d)
         case Sym(t) => r.value.dsize == |t| && At(dev, GetDaddr(r.value), t)
         case _ => r.value.dsize == 0
  }

  // A node of the same kind, name and bytes.
  predicate SameNode(n: FileNode, m: FileNode) {
    n.name == m.name && match n.body
      case Reg(d) => m.body == Reg(d)
      case Sym(t) => m.body == Sym(t)
      case _ => !m.body.Reg? && !m.body.Sym?
  }

  // The nodes of the tree as they lie on the device.
  ghost function OnImage(vol: seq<byte>, ns: seq<FileNode>): seq<FileNode>
    requires AllAlignsOk(ns)
  {
    LayoutAll(ns, SuperLen(vol)).0
  }

  // The device holds the tree in the format.
  lemma DeviceFormat(vol: seq<byte>, ns: seq<FileNode>, dev: seq<byte>, storage: nat)
    requires OnDevice(vol, ns, dev, storage)
    ensures AllAlignsOk(ns) && TreeAt(dev, OnImage(vol, ns)) && SameTree(ns, OnImage(vol, ns))
  {
    hide LayoutAll, AllAlignsOk, AllProper, NameOk, Image, StoredAll, ReadableAll, AllPlaced, TreeAt, SameTree;
    DeviceReadable(vol, ns, dev, storage);
    LayoutPlaced(ns, SuperLen(vol), LayoutAll(ns, SuperLen(vol)).1);
    TreeWritten(dev, OnImage(vol, ns), LayoutAll(ns, SuperLen(vol)).1);
    LayoutSame(ns, SuperLen(vol));
  }

  // A path the reader takes for what it is, through directories with entries and files.
  predicate Clear(ns: seq<FileNode>, buf: seq<byte>, path: seq<byte>)
    requires |buf| == MAX_FILE_NAME && Short(Split(path))
  {
    Rising(buf, Split(path)) && Ordinary(ns, Split(path))
  }

  // Reading a path from the image of a tree finds what the reader's search of the tree
  // finds, with its size and the place of its bytes, unless the first entry is padded.
  // When the path is clear and no earlier component equals the last, or nothing stands at
  // the earlier one, that is what a plain search for the path finds.
  method ReadBack(vol: seq<byte>, ghost ns: seq<FileNode>, dev: seq<byte>, storage: nat, path: seq<byte>,
                  name: array<byte>)
    returns (r: Option<Inode>)
    requires OnDevice(vol, ns, dev, storage) && ns != [] && ns[0].align > 0 && PadFor(ns[0], SuperLen(vol)) == 0
    requires name.Length == MAX_FILE_NAME && name[MAX_FILE_NAME - 1] == 0 && 0 !in path && Short(Split(path))
    requires Clear(ns, name[..], path)
      || Plain(OnImage(vol, ns), OnImage(vol, ns), Truncate(Names(name[..], Split(path))))
    modifies name
    ensures AllAlignsOk(ns)
    ensures TreeAt(dev, OnImage(vol, ns)) && SameTree(ns, OnImage(vol, ns))
    ensures var found := Walk(OnImage(vol, ns), OnImage(vol, ns), Truncate(old(Names(name[..], Split(path)))));
      Returns(r, dev, found) && (found.Some? ==> r.value.daddr == found.value.offset)
    ensures old(Clear(ns, name[..], path)) ==>
      LastIsNew(Split(path)) || Lookup(ns, Truncate(Split(path))) == None ==> Returns(r, dev, Lookup(ns, Split(path)))
  {
    hide OnDevice, LayoutAll, Layout, AllAlignsOk, Plain, Lookup, Walk, ReadableAll, StoredAll, Returns, Clear;
    hide FirstHeader, PadFor, Truncate, Split, LastIsNew, Names, Short, TreeAt, SameTree, AllPlaced;
    DeviceFormat(vol, ns, dev, storage);
    ghost var ps, buf := LaidOut(vol, ns, dev, storage), name[..];
    if Clear(ns, buf, path) { ClearPlain(ns, SuperLen(vol), buf, path); }
    r := Namei(dev, storage, path, name, ps);
    FoundReturned(dev, ps, Truncate(Names(buf, Split(path))), r);
    if Clear(ns, buf, path) { WholePath(dev, ns, SuperLen(vol), buf, path, r); }
  }

  lemma ClearPlain(ns: seq<FileNode>, cur: nat, buf: seq<byte>, path: seq<byte>)
    requires AllAlignsOk(ns) && |buf| == MAX_FILE_NAME && Short(Split(path)) && 0 !in path && Clear(ns, buf, path)
    ensures Names(buf, Split(path)) == Split(path) && Ordinary(LayoutAll(ns, cur).0, Split(path))
    ensures var ps := LayoutAll(ns, cur).0; Plain(ps, ps, Truncate(Split(path)))
  {
    hide LayoutAll, AllAlignsOk, Split, Plain, Walk, Lookup, Ordinary, Rising, Names, Short, NoZero;
    var ps, comps := LayoutAll(ns, cur).0, Split(path);
    NoZeroSplit(path);
    NamesExactly(buf, comps);
    OrdinaryLaidOut(ns, cur, comps);
    OrdinaryCut(ps, comps, Last(comps));
    OrdinaryWalk(ps, ps, Truncate(comps));
  }

  lemma WholePath(dev: seq<byte>, ns: seq<FileNode>, cur: nat, buf: seq<byte>, path: seq<byte>, r: Option<Inode>)
    requires AllAlignsOk(ns) && |buf| == MAX_FILE_NAME && Short(Split(path)) && 0 !in path && Clear(ns, buf, path)
    requires var ps := LayoutAll(ns, cur).0; Returns(r, dev, Walk(ps, ps, Truncate(Names(buf, Split(path)))))
    ensures LastIsNew(Split(path)) || Lookup(ns, Truncate(Split(path))) == None ==>
      Returns(r, dev, Lookup(ns, Split(path)))
  {
    hide LayoutAll, AllAlignsOk, Walk, Lookup, At, GetDaddr, Data, Split, Ordinary, Clear, LastIsNew, Truncate, Names;
    var ps, comps := LayoutAll(ns, cur).0, Split(path);
    ClearPlain(ns, cur, buf, path);
    LookupLaidOut(ns, cur, comps);
    LookupLaidOut(ns, cur, Truncate(comps));
    ReaderExactly(ps, ps, comps);
  }

  ghost function LaidOut(vol: seq<byte>, ns: seq<FileNode>, dev: seq<byte>, storage: nat): (ps: seq<FileNode>)
    requires OnDevice(vol, ns, dev, storage) && ns != [] && ns[0].align > 0
    ensures AllAlignsOk(ns) && ps == LayoutAll(ns, SuperLen(vol)).0 && ps != []
    ensures ReadableAll(dev, storage, ps) && StoredAll(dev, ps)
    ensures |dev| >= SECTOR && FirstHeader(dev[..SECTOR]) == SuperLen(vol)
    ensures ps[0].offset == SuperLen(vol) + PadFor(ns[0], SuperLen(vol))
  {
    DeviceReadable(vol, ns, dev, storage);
    FirstPlace(ns, SuperLen(vol));
    LayoutAll(ns, SuperLen(vol)).0
  }

  lemma FirstPlace(ns: seq<FileNode>, cur: nat)
    requires AllAlignsOk(ns) && ns != [] && ns[0].align > 0
    ensures LayoutAll(ns, cur).0 != [] && LayoutAll(ns, cur).0[0].offset == cur + PadFor(ns[0], cur)
  {
    hide LayoutAll, Layout, AlignsOk, AllAlignsOk, PadFor;
    LayoutAllStep(ns, cur);
    LayoutFields(ns[0], cur);
  }

  lemma FoundReturned(dev: seq<byte>, ps: seq<FileNode>, comps: seq<seq<byte>>, r: Option<Inode>)
    requires comps != [] && StoredAll(dev, ps) && r == ToInode(Walk(ps, ps, comps))
    ensures Returns(r, dev, Walk(ps, ps, comps))
  {
    hide Walk, StoredAll, At, Data, GetDaddr;
    if Walk(ps, ps, comps).Some? {
      var n := Walk(ps, ps, comps).value;
      FoundStored(dev, ps, ps, comps);
      AtSplit(dev, GetDaddr(Inode(n.name, |Data(n)|, n.offset)), Data(n), Zeros(Up16(|Data(n)|) - |Data(n)|));
      DataIs(n);
    }
  }

  lemma DataIs(n: FileNode)
    ensures Data(n) == match n.body case Reg(d) => d case Sym(t) => t case _ => []
  {
  }

  // ---------- a padded first entry ----------

  // The node the reader sees at o when the 16 bytes there are zeroes.
  function Blank(name: seq<byte>, o: nat): FileNode {
    FileNode(name, false, 16, o, 0, Hard(0))
  }

  lemma ZeroesRead(dev: seq<byte>, storage: nat, o: nat)
    requires 0 < o < storage && o + SECTOR <= |dev| && o % 16 == 0
    requires forall i | o <= i < o + 16 :: dev[i] == 0
    ensures ReadableAll(dev, storage, [Blank(CStr(dev[o + 16..o + SECTOR]), o)])
  {
    hide FromBe, CStr, ReadableAll;
    var n := Blank(CStr(dev[o + 16..o + SECTOR]), o);
    ZeroWord(dev, o);
    ZeroWord(dev, o + 4);
    ZeroWord(dev, o + 8);
    NoneReadable(dev, storage);
    assert [n][1..] == [];
    ReadableCons(dev, storage, [n]);
  }

  lemma ZeroWord(dev: seq<byte>, o: nat)
    requires o + 4 <= |dev| && forall i | o <= i < o + 4 :: dev[i] == 0
    ensures FromBe(dev[o..o + 4]) == 0
  {
  }

  lemma EmptyCStr(b: seq<byte>)
    requires b != [] && b[0] == 0
    ensures CStr(b) == []
  {
  }

  lemma PaddedStart(ps: seq<FileNode>, dev: seq<byte>, o: nat)
    requires ps != [] && At(dev, o, EmitAll(ps)) && ps[0].pad >= 16 && Proper(ps[0])
    ensures o + 16 < |dev| && forall i | o <= i < o + 16 :: dev[i] == 0
    ensures ps[0].pad > 16 || NextOf(ps) + 16 <= 0x1000000 ==> dev[o + 16] == 0
  {
    hide EmitAll, Content, Header, TypeBits, ExecBit, Proper;
    var h := Header(ps[0], NextOf(ps));
    EmitStarts(ps);
    var e, z := EmitAll(ps), Zeros(ps[0].pad);
    AtSplit(dev, o, z + h, e[|z| + |h|..]);
    AtSplit(dev, o, z, h);
    forall i | o <= i < o + |z| ensures dev[i] == 0 {
      assert dev[o..o + |z|][i - o] == dev[i];
    }
    if |z| == 16 {
      assert dev[o + |z|..o + |z| + |h|][0] == dev[o + 16];
      if NextOf(ps) + 16 <= 0x1000000 { FirstHeaderByte(ps[0], NextOf(ps)); }
    }
  }

  lemma EmitStarts(ps: seq<FileNode>)
    requires ps != []
    ensures var zh := Zeros(ps[0].pad) + Header(ps[0], NextOf(ps));
      |zh| <= |EmitAll(ps)| && EmitAll(ps) == zh + EmitAll(ps)[|zh|..]
  {
    hide Content, Header;
    var zh := Zeros(ps[0].pad) + Header(ps[0], NextOf(ps));
    var sub := if ps[0].body.Dir? then EmitAll(ps[0].body.children) else [];
    assert EmitNode(ps[0], NextOf(ps)) == zh + Content(ps[0]) + sub;
    assert EmitAll(ps) == EmitNode(ps[0], NextOf(ps)) + EmitAll(ps[1..]);
    hide EmitAll, EmitNode;
    Prefix(zh, Content(ps[0]), sub, EmitAll(ps[1..]));
  }

  lemma Prefix(a: seq<byte>, b: seq<byte>, c: seq<byte>, d: seq<byte>)
    ensures |a| <= |a + b + c + d| && a + b + c + d == a + (a + b + c + d)[|a|..]
  {
    assert a + b + c + d == a + (b + c + d);
  }

  lemma FirstHeaderByte(n: FileNode, next: nat)
    requires next + 16 <= 0x1000000 && Proper(n)
    ensures Header(n, next)[0] == 0
  {
    hide Header, Proper, TypeBits, ExecBit;
    HeaderWords(n, next);
    BitsSmall(n);
    assert Header(n, next)[0] == Header(n, next)[..4][0] == Word(next + TypeBits(n) + ExecBit(n))[0];
  }

  // The name the reader sees 16 bytes into the padding.
  function PaddingName(vol: seq<byte>, dev: seq<byte>): seq<byte>
    requires SuperLen(vol) + SECTOR <= |dev|
  {
    CStr(dev[SuperLen(vol) + 16..SuperLen(vol) + SECTOR])
  }

  lemma PaddedReadable(vol: seq<byte>, ns: seq<FileNode>, dev: seq<byte>, storage: nat)
    requires OnDevice(vol, ns, dev, storage) && ns != [] && ns[0].align > 0 && PadFor(ns[0], SuperLen(vol)) != 0
    ensures SuperLen(vol) + SECTOR <= |dev|
    ensures ReadableAll(dev, storage, [Blank(PaddingName(vol, dev), SuperLen(vol))])
    ensures AllAlignsOk(ns) && FirstHeader(dev[..SECTOR]) == SuperLen(vol)
    ensures PadFor(ns[0], SuperLen(vol)) > 16 || LayoutAll(ns, SuperLen(vol)).1 <= 0x1000000 ==>
      PaddingName(vol, dev) == []
  {
    hide LayoutAll, EmitAll, AllAlignsOk, AllProper, AllPlaced, NameOk, Image, At, ReadableAll, FirstHeader, NamePart;
    hide PadFor, CStr;
    var o, ps, lim := SuperLen(vol), LayoutAll(ns, SuperLen(vol)).0, LayoutAll(ns, SuperLen(vol)).1;
    DeviceHolds(vol, ns, dev, storage);
    FirstIsSuperLen(vol, dev);
    FirstPad(ns, o);
    LayoutPlaced(ns, o, lim);
    LayoutProper(ns, o);
    PlacedStep(ps, lim);
    ProperStep(ps);
    PaddedStart(ps, dev, o);
    ZeroesRead(dev, storage, o);
    if dev[o + 16] == 0 { EmptyCStr(dev[o + 16..o + SECTOR]); }
  }

  lemma FirstPad(ns: seq<FileNode>, cur: nat)
    requires AllAlignsOk(ns) && ns != [] && ns[0].align > 0 && PadFor(ns[0], cur) != 0 && cur % 16 == 0
    ensures LayoutAll(ns, cur).0 != [] && LayoutAll(ns, cur).0[0].pad == PadFor(ns[0], cur) >= 16
    ensures LayoutAll(ns, cur).0[0].offset == cur + LayoutAll(ns, cur).0[0].pad
  {
    hide LayoutAll, Layout, AlignsOk, AllAlignsOk, PadFor;
    LayoutAllStep(ns, cur);
    LayoutFields(ns[0], cur);
    PadMultiple(ns[0], cur);
  }

  // With padding before the first entry the reader takes the padding for the only entry.
  // It finds nothing that the tree holds: either nothing at all, or the padding itself,
  // by the name it seems to have, which is no name unless the padding is 16 bytes and the
  // image above 16 MB.
  method ReadPadded(vol: seq<byte>, ghost ns: seq<FileNode>, dev: seq<byte>, storage: nat, path: seq<byte>,
                    name: array<byte>)
    returns (r: Option<Inode>)
    requires OnDevice(vol, ns, dev, storage) && ns != [] && ns[0].align > 0 && PadFor(ns[0], SuperLen(vol)) != 0
    requires name.Length == MAX_FILE_NAME && name[MAX_FILE_NAME - 1] == 0 && 0 !in path && Short(Split(path))
    modifies name
    ensures AllAlignsOk(ns) && SuperLen(vol) + SECTOR <= |dev|
    ensures r == if Truncate(old(Names(name[..], Split(path)))) == [PaddingName(vol, dev)]
                 then Some(Inode(PaddingName(vol, dev), 0, SuperLen(vol))) else None
    ensures PadFor(ns[0], SuperLen(vol)) > 16 || LayoutAll(ns, SuperLen(vol)).1 <= 0x1000000 ==>
      PaddingName(vol, dev) == []
  {
    hide OnDevice, LayoutAll, AllAlignsOk, ReadableAll, FirstHeader, PadFor, Truncate, Split, CStr, PaddingName, Names;
    PaddedReadable(vol, ns, dev, storage);
    ghost var comps := Truncate(Names(name[..], Split(path)));
    BlankWalk(PaddingName(vol, dev), SuperLen(vol), comps);
    r := Namei(dev, storage, path, name, [Blank(PaddingName(vol, dev), SuperLen(vol))]);
  }

  lemma BlankWalk(name: seq<byte>, o: nat, comps: seq<seq<byte>>)
    requires comps != []
    ensures var ns := [Blank(name, o)];
      Plain(ns, ns, comps) && Walk(ns, ns, comps) == if comps == [name] then Some(ns[0]) else None
  {
    var ns := [Blank(name, o)];
    assert ns[1..] == [] && Below(ns, ns) == [] && Leads(ns, ns[0]);
    assert Plain(ns, [], comps) && Walk(ns, [], comps) == None;
    if |comps| > 1 {
      assert Plain(ns, [], comps[1..]) && Walk(ns, [], comps[1..]) == None;
    }
  }
}
