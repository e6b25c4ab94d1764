// genromfs as a whole: the first pass, step by step, and the second pass behind it.
module RomfsGenerator {
  import opened Common
  import opened Powers
  import opened RomfsBytes
  import opened RomfsLayout
  import opened RomfsImage
  import opened RomfsFormat
  import opened RomfsWriter
  import opened RomfsRoundTrip

  // alignnode: moves the node up to its alignment. Alignments are powers of two, for
  // which masking with align - 1 is the remainder.
  method AlignNode(n: FileNode, curroffset: nat, extraspace: nat) returns (m: FileNode, c: nat)
    requires n.align > 0 && n.offset == curroffset && n.pad == 0
    ensures c == m.offset && m == n.(offset := curroffset + m.pad, pad := m.pad)
    ensures m.pad < n.align && Rem(c + extraspace, n.align) == 0
    ensures var d := Rem(curroffset + extraspace, n.align);
      m.pad == if d == 0 then 0 else n.align - d
  {
    hide Rem;
    m, c := n, curroffset;
    var align, d := n.align, Rem(curroffset + extraspace, n.align);
    if d != 0 {
      RemFills(curroffset + extraspace, n.align);
      align := align - d;
      c := c + align;
      m := m.(offset := m.offset + align, pad := align);
    }
  }

  lemma RemFills(x: nat, a: nat)
    requires a > 0 && Rem(x, a) != 0
    ensures Rem(x + (a - Rem(x, a)), a) == 0
  {
    hide Rem;
    var k := RemQuotient(x, a);
    assert (k + 1) * a == k * a + a;
    RemUnique(x + (a - Rem(x, a)), a, k + 1, 0);
  }

  // processdir on the entries of one directory.
  method ProcessDir(ns: seq<FileNode>, curroffset: nat) returns (placed: seq<FileNode>, end: nat)
    requires AllAlignsOk(ns)
    ensures (placed, end) == LayoutAll(ns, curroffset)
    decreases ns, 1
  {
    hide LayoutAll, Layout, AllAlignsOk, AlignsOk;
    placed, end := [], curroffset;
    var i := 0;
    assert ns[0..] == ns;
    ghost var whole := LayoutAll(ns, curroffset);
    assert [] + whole.0 == whole.0;
    while i < |ns|
      invariant 0 <= i <= |ns| && AllAlignsOk(ns[i..])
      invariant whole.0 == placed + LayoutAll(ns[i..], end).0 && whole.1 == LayoutAll(ns[i..], end).1
    {
      EntryStep(ns, i, end, placed);
      var n, c := ProcessEntry(ns[i], end);
      placed, end, i := placed + [n], c, i + 1;
    }
    NoEntry(ns[i..], end, placed);
  }

  // One entry: a new node at the running offset, aligned, and its own entries behind it.
  method ProcessEntry(entry: FileNode, curroffset: nat) returns (n: FileNode, end: nat)
    requires AlignsOk(entry)
    ensures (n, end) == Layout(entry, curroffset)
    decreases entry, 0
  {
    AlignFacts(entry);
    n := entry.(offset := curroffset, pad := 0);
    var c: nat;
    if n.body.Reg? {
      n, c := AlignNode(n, curroffset, 16 + Up16(|n.name| + 1));
    } else {
      n, c := AlignNode(n, curroffset, 0);
    }
    end := c + Space(n);
    if n.body.Dir? {
      var children: seq<FileNode>;
      children, end := ProcessDir(n.body.children, end);
      n := n.(body := Dir(children));
    }
  }

  lemma EntryStep(ns: seq<FileNode>, i: nat, cur: nat, placed: seq<FileNode>)
    requires i < |ns| && AllAlignsOk(ns[i..])
    ensures AlignsOk(ns[i]) && AllAlignsOk(ns[i + 1..])
    ensures var (p, c) := Layout(ns[i], cur);
      && placed + LayoutAll(ns[i..], cur).0 == placed + [p] + LayoutAll(ns[i + 1..], c).0
      && LayoutAll(ns[i..], cur).1 == LayoutAll(ns[i + 1..], c).1
  {
    hide LayoutAll, Layout, AllAlignsOk, AlignsOk;
    assert ns[i..][0] == ns[i] && ns[i..][1..] == ns[i + 1..];
    LayoutAllStep(ns[i..], cur);
  }

  lemma NoEntry(ns: seq<FileNode>, cur: nat, placed: seq<FileNode>)
    requires ns == [] && AllAlignsOk(ns)
    ensures placed + LayoutAll(ns, cur).0 == placed && LayoutAll(ns, cur).1 == cur
  {
  }

  // What the scratch buffer has room for, throughout a tree laid out.
  predicate Fits(n: FileNode)
    decreases n, 1
  {
    && n.pad <= BIGBUF && HeadLen(n) <= BIGBUF && (n.body.Sym? ==> |n.body.target| <= BIGBUF)
    && (n.body.Dir? ==> AllFits(n.body.children))
  }

  predicate AllFits(ns: seq<FileNode>)
    decreases ns, 0
  {
    ns == [] || (Fits(ns[0]) && AllFits(ns[1..]))
  }

  lemma FitsStep(ps: seq<FileNode>)
    requires ps != [] && AllFits(ps)
    ensures ps[0].pad <= BIGBUF && HeadLen(ps[0]) <= BIGBUF && (ps[0].body.Sym? ==> |ps[0].body.target| <= BIGBUF)
    ensures AllFits(ps[1..]) && (ps[0].body.Dir? ==> AllFits(ps[0].body.children))
  {
  }

  lemma {:induction false} LayoutDumpable(ns: seq<FileNode>, cur: nat)
    requires AllAlignsOk(ns) && AllFits(LayoutAll(ns, cur).0) && cur > 0
    ensures AllDumpable(LayoutAll(ns, cur).0)
    decreases ns
  {
    hide Layout, LayoutAll, AlignsOk, AllAlignsOk, PadFor, AllFits, Fits, Dumpable, AllDumpable, Space, HeadLen, Data;
    if ns != [] {
      LayoutAllStep(ns, cur);
      LayoutFields(ns[0], cur);
      FitsStep(LayoutAll(ns, cur).0);
      var p := Layout(ns[0], cur).0;
      if p.body.Dir? {
        LayoutDumpable(ns[0].body.children, p.offset + Space(ns[0]));
      }
      LayoutLater(ns[0], cur);
      LayoutDumpable(ns[1..], Layout(ns[0], cur).1);
      DumpableCons(LayoutAll(ns, cur).0);
    } else {
      DumpableNil(ns, cur);
    }
  }

  lemma LayoutLater(n: FileNode, cur: nat)
    requires AlignsOk(n)
    ensures Layout(n, cur).1 >= cur
  {
    hide Layout, AlignsOk, EmitNode;
    EmittedLength(n, cur, 0);
  }

  lemma DumpableNil(ns: seq<FileNode>, cur: nat)
    requires ns == []
    ensures AllAlignsOk(ns) && LayoutAll(ns, cur).0 == [] && AllDumpable([])
  {
  }

  lemma DumpableCons(ps: seq<FileNode>)
    requires ps != [] && ps[0].offset > 0 && ps[0].pad <= BIGBUF && HeadLen(ps[0]) <= BIGBUF
    requires ps[0].body.Sym? ==> |ps[0].body.target| <= BIGBUF
    requires (ps[0].body.Dir? ==> AllDumpable(ps[0].body.children)) && AllDumpable(ps[1..])
    ensures AllDumpable(ps)
  {
    hide HeadLen;
  }

  // The whole program: lay the tree out, then dump it.
  method Genromfs(vol: seq<byte>, ns: seq<FileNode>) returns (img: seq<byte>)
    requires AllAlignsOk(ns) && AllFits(LayoutAll(ns, SuperLen(vol)).0) && SuperLen(vol) <= BIGBUF
    requires LayoutAll(ns, SuperLen(vol)).1 < WORD_RANGE
    ensures img == Image(vol, ns)
    ensures var (ps, size) := LayoutAll(ns, SuperLen(vol));
      SuperAt(img, vol, size) && TreeAt(img, ps) && SameTree(ns, ps)
  {
    hide LayoutAll, AllAlignsOk, AllFits, AllDumpable, Stream, File, EmitAll, SizeField, SuperAt, TreeAt, SameTree;
    ImageFormat(vol, ns);
    var placed, lastoff := ProcessDir(ns, SuperLen(vol));
    LayoutDumpable(ns, SuperLen(vol));
    StreamFacts(vol, ns);
    var w := new Writer();
    w.DumpAll(vol, placed, lastoff);
    img := w.out;
  }
}
