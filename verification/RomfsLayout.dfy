// The tree that genromfs builds, the offsets its first pass assigns and the bytes its
// second pass emits.
module RomfsLayout {
  import opened Common
  import opened Powers
  import opened RomfsBytes

  const ROMFH_HRD: nat := 0
  const ROMFH_DIR: nat := 1
  const ROMFH_REG: nat := 2
  const ROMFH_LNK: nat := 3
  const ROMFH_BLK: nat := 4
  const ROMFH_CHR: nat := 5
  const ROMFH_SCK: nat := 6
  const ROMFH_FIF: nat := 7
  const ROMFH_EXEC: nat := 8

  datatype Kind = Block | Character | Socket | Fifo

  // What a node is: a directory, a regular file, a symbolic link, a device with its number,
  // a socket or a fifo, or a hard link to the node at an offset.
  datatype Body =
    | Dir(children: seq<FileNode>)
    | Reg(data: seq<byte>)
    | Sym(target: seq<byte>)
    | Special(kind: Kind, dev: nat)
    | Hard(link: nat)

  // struct filenode; align is what findalign returns for the node.
  datatype FileNode = FileNode(name: seq<byte>, exec: bool, align: nat, offset: nat, pad: nat, body: Body)

  // ---------- one node ----------

  function Data(n: FileNode): seq<byte> {
    match n.body
    case Reg(d) => d
    case Sym(t) => t
    case _ => []
  }

  // The node's bytes after its header, padded to 16.
  function Content(n: FileNode): (r: seq<byte>)
    ensures |r| == Up16(|Data(n)|)
  {
    Data(n) + Zeros(Up16(|Data(n)|) - |Data(n)|)
  }

  function NamePart(name: seq<byte>): (r: seq<byte>)
    ensures |r| == Up16(|name| + 1) && r[..|name|] == name && r[|name|] == 0
  {
    name + Zeros(Up16(|name| + 1) - |name|)
  }

  function HeadLen(n: FileNode): nat { 16 + Up16(|n.name| + 1) }

  // spaceneeded
  function Space(n: FileNode): nat { HeadLen(n) + Up16(|Data(n)|) }

  function TypeBits(n: FileNode): nat {
    match n.body
    case Dir(_) => ROMFH_DIR
    case Reg(_) => ROMFH_REG
    case Sym(_) => ROMFH_LNK
    case Special(Block, _) => ROMFH_BLK
    case Special(Character, _) => ROMFH_CHR
    case Special(Socket, _) => ROMFH_SCK
    case Special(Fifo, _) => ROMFH_FIF
    case Hard(_) => ROMFH_HRD
  }

  function ExecBit(n: FileNode): nat {
    if n.exec && (n.body.Dir? || n.body.Reg?) then ROMFH_EXEC else 0
  }

  function Spec(n: FileNode): nat {
    match n.body
    case Dir(cs) => if cs == [] then n.offset else cs[0].offset
    case Special(kind, dev) => if kind.Block? || kind.Character? then dev else 0
    case Hard(link) => link
    case _ => 0
  }

  // htonl of an unsigned 32-bit value.
  function Word(w: nat): (r: seq<byte>)
    ensures |r| == 4
  {
    Be32(w % WORD_RANGE)
  }

  function RawHeader(next: nat, spec: nat, size: nat, name: seq<byte>): (r: seq<byte>)
    ensures |r| == 16 + Up16(|name| + 1)
  {
    Word(next) + Word(spec) + Word(size) + Word(0x55555555) + NamePart(name)
  }

  // The header of a node whose next sibling is at `next`, a multiple of 16 (0 if none).
  function Header(n: FileNode, next: nat): (r: seq<byte>)
    ensures |r| == HeadLen(n)
  {
    FixSum(RawHeader(next + TypeBits(n) + ExecBit(n), Spec(n), |Data(n)|, n.name), HeadLen(n))
  }

  // ---------- first pass ----------

  // alignnode: the data of a regular file, the header of any other node is aligned.
  function PadFor(n: FileNode, cur: nat): (pad: nat)
    requires n.align > 0
    ensures pad < n.align
  {
    var d := Rem(cur + (if n.body.Reg? then HeadLen(n) else 0), n.align);
    if d == 0 then 0 else n.align - d
  }

  // Alignments are multiples of 16 throughout the tree.
  predicate AlignsOk(n: FileNode)
    decreases n, 1
  {
    n.align > 0 && n.align % 16 == 0 && (n.body.Dir? ==> AllAlignsOk(n.body.children))
  }

  predicate AllAlignsOk(ns: seq<FileNode>)
    decreases ns, 0
  {
    ns == [] || (AlignsOk(ns[0]) && AllAlignsOk(ns[1..]))
  }

  // The node with its offset and padding, and its descendants with theirs, when the
  // node may start at cur; and where the next node may start.
  function Layout(n: FileNode, cur: nat): (r: (FileNode, nat))
    requires AlignsOk(n)
    decreases n, 1
  {
    var pad := PadFor(n, cur);
    var placed := n.(offset := cur + pad, pad := pad);
    match n.body
    case Dir(cs) =>
      var (ps, end) := LayoutAll(cs, cur + pad + Space(n));
      (placed.(body := Dir(ps)), end)
    case _ => (placed, cur + pad + Space(n))
  }

  function LayoutAll(ns: seq<FileNode>, cur: nat): (r: (seq<FileNode>, nat))
    requires AllAlignsOk(ns)
    ensures |r.0| == |ns|
    decreases ns, 0
  {
    if ns == [] then ([], cur)
    else
      var (p, c) := Layout(ns[0], cur);
      var (ps, end) := LayoutAll(ns[1..], c);
      ([p] + ps, end)
  }

  // ---------- second pass ----------

  function NextOf(ns: seq<FileNode>): nat
    requires ns != []
  {
    if |ns| > 1 then ns[1].offset else 0
  }

  // dumpnode
  function EmitNode(n: FileNode, next: nat): seq<byte>
    decreases n, 1
  {
    Zeros(n.pad) + Header(n, next) + Content(n) + (if n.body.Dir? then EmitAll(n.body.children) else [])
  }

  function EmitAll(ns: seq<FileNode>): seq<byte>
    decreases ns, 0
  {
    if ns == [] then [] else EmitNode(ns[0], NextOf(ns)) + EmitAll(ns[1..])
  }

  // ---------- what an image holds ----------

  ghost predicate At(img: seq<byte>, pos: nat, bs: seq<byte>) {
    pos + |bs| <= |img| && img[pos..pos + |bs|] == bs
  }

  // The header of the node stands at its offset, its bytes follow, and so for all its
  // descendants.
  ghost predicate Stored(img: seq<byte>, n: FileNode, next: nat)
    decreases n, 1
  {
    && At(img, n.offset, Header(n, next)) && At(img, n.offset + HeadLen(n), Content(n))
    && (n.body.Dir? ==> StoredAll(img, n.body.children))
  }

  ghost predicate StoredAll(img: seq<byte>, ns: seq<FileNode>)
    decreases ns, 0
  {
    ns == [] || (Stored(img, ns[0], NextOf(ns)) && StoredAll(img, ns[1..]))
  }

  lemma AtSplit(img: seq<byte>, pos: nat, a: seq<byte>, b: seq<byte>)
    requires At(img, pos, a + b)
    ensures At(img, pos, a) && At(img, pos + |a|, b)
  {
    assert img[pos..pos + |a| + |b|][..|a|] == img[pos..pos + |a|];
    assert (a + b)[..|a|] == a;
    assert img[pos..pos + |a| + |b|][|a|..] == img[pos + |a|..pos + |a| + |b|];
    assert (a + b)[|a|..] == b;
  }

  // ---------- the passes one step at a time ----------

  lemma LayoutFields(n: FileNode, cur: nat)
    requires AlignsOk(n)
    ensures var p, c := Layout(n, cur).0, Layout(n, cur).1;
      && p == n.(offset := cur + PadFor(n, cur), pad := PadFor(n, cur), body := p.body)
      && HeadLen(p) == HeadLen(n) && Data(p) == Data(n) && Space(p) == Space(n)
      && p.body.Dir? == n.body.Dir? && p.body.Reg? == n.body.Reg?
      && (n.body.Dir? ==>
            && AllAlignsOk(n.body.children)
            && (p.body.children, c) == LayoutAll(n.body.children, p.offset + Space(n)))
      && (!n.body.Dir? ==> p.body == n.body && c == p.offset + Space(n))
  {
  }

  lemma LayoutAllStep(ns: seq<FileNode>, cur: nat)
    requires AllAlignsOk(ns) && ns != []
    ensures AlignsOk(ns[0]) && AllAlignsOk(ns[1..])
    ensures LayoutAll(ns, cur).0 ==
      [Layout(ns[0], cur).0] + LayoutAll(ns[1..], Layout(ns[0], cur).1).0
    ensures LayoutAll(ns, cur).1 == LayoutAll(ns[1..], Layout(ns[0], cur).1).1
    ensures LayoutAll(ns, cur).0[0] == Layout(ns[0], cur).0
    ensures LayoutAll(ns, cur).0[1..] == LayoutAll(ns[1..], Layout(ns[0], cur).1).0
  {
  }

  // ---------- the two passes agree ----------

  // Where the first pass says the next node may start is where the second pass stands.
  lemma {:induction false} EmittedLength(n: FileNode, cur: nat, next: nat)
    requires AlignsOk(n)
    ensures |EmitNode(Layout(n, cur).0, next)| == Layout(n, cur).1 - cur
    decreases n, 1
  {
    hide Layout, LayoutAll, Header, EmitAll, PadFor, AlignsOk, AllAlignsOk, Up16, Content;
    LayoutFields(n, cur);
    if n.body.Dir? {
      EmittedLengthAll(n.body.children, Layout(n, cur).0.offset + Space(n));
    }
  }

  lemma {:induction false} EmittedLengthAll(ns: seq<FileNode>, cur: nat)
    requires AllAlignsOk(ns)
    ensures |EmitAll(LayoutAll(ns, cur).0)| == LayoutAll(ns, cur).1 - cur
    decreases ns, 0
  {
    if ns != [] {
      hide Layout, LayoutAll, EmitNode, AlignsOk, AllAlignsOk;
      LayoutAllStep(ns, cur);
      EmittedLength(ns[0], cur, NextOf(LayoutAll(ns, cur).0));
      EmittedLengthAll(ns[1..], Layout(ns[0], cur).1);
    }
  }

  // Every header stands at the offset the first pass gave its node.
  lemma {:induction false} EmittedStored(n: FileNode, cur: nat, next: nat, img: seq<byte>)
    requires AlignsOk(n) && At(img, cur, EmitNode(Layout(n, cur).0, next))
    ensures Stored(img, Layout(n, cur).0, next)
    decreases n, 1
  {
    hide Layout, LayoutAll, Header, Content, EmitAll, EmitNode;
    hide StoredAll, PadFor, AlignsOk, AllAlignsOk, At, HeadLen, Space;
    LayoutFields(n, cur);
    var p := Layout(n, cur).0;
    NodeParts(p, cur, next, img);
    if n.body.Dir? {
      EmittedStoredAll(n.body.children, p.offset + Space(n), img);
    }
  }

  lemma NodeParts(p: FileNode, cur: nat, next: nat, img: seq<byte>)
    requires At(img, cur, EmitNode(p, next)) && p.offset == cur + p.pad
    ensures At(img, p.offset, Header(p, next)) && At(img, p.offset + HeadLen(p), Content(p))
    ensures p.body.Dir? ==> At(img, p.offset + Space(p), EmitAll(p.body.children))
  {
    hide Header, Content, EmitAll, At, Up16, Data, Zeros;
    var rest := if p.body.Dir? then EmitAll(p.body.children) else [];
    assert EmitNode(p, next) == Zeros(p.pad) + (Header(p, next) + (Content(p) + rest));
    AtSplit(img, cur, Zeros(p.pad), Header(p, next) + (Content(p) + rest));
    AtSplit(img, p.offset, Header(p, next), Content(p) + rest);
    AtSplit(img, p.offset + HeadLen(p), Content(p), rest);
  }

  lemma {:induction false} EmittedStoredAll(ns: seq<FileNode>, cur: nat, img: seq<byte>)
    requires AllAlignsOk(ns) && At(img, cur, EmitAll(LayoutAll(ns, cur).0))
    ensures StoredAll(img, LayoutAll(ns, cur).0)
    decreases ns, 0
  {
    hide Layout, LayoutAll, EmitNode, EmitAll, AlignsOk, AllAlignsOk, At, Stored, PadFor, Header, Content;
    if ns == [] {
      NilLayout(cur);
    } else {
      LayoutAllStep(ns, cur);
      var ps := LayoutAll(ns, cur).0;
      EmitAllStep(ps);
      EmittedLength(ns[0], cur, NextOf(ps));
      AtSplit(img, cur, EmitNode(ps[0], NextOf(ps)), EmitAll(ps[1..]));
      EmittedStored(ns[0], cur, NextOf(ps), img);
      EmittedStoredAll(ns[1..], Layout(ns[0], cur).1, img);
    }
  }

  lemma NilLayout(cur: nat)
    ensures AllAlignsOk([]) && LayoutAll([], cur).0 == []
  {
  }

  lemma EmitAllStep(ps: seq<FileNode>)
    requires ps != []
    ensures EmitAll(ps) == EmitNode(ps[0], NextOf(ps)) + EmitAll(ps[1..])
  {
    hide EmitNode;
  }

  // ---------- extents and alignment ----------

  datatype Extent = Extent(start: nat, end: nat)

  // The bytes from header to padded end of each node, in pre-order.
  function ExtentsOf(n: FileNode): seq<Extent>
    decreases n, 1
  {
    [Extent(n.offset, n.offset + Space(n))] + (if n.body.Dir? then Extents(n.body.children) else [])
  }

  function Extents(ns: seq<FileNode>): seq<Extent>
    decreases ns, 0
  {
    if ns == [] then [] else ExtentsOf(ns[0]) + Extents(ns[1..])
  }

  ghost predicate Ascending(es: seq<Extent>, lo: nat, hi: nat) {
    && lo <= hi
    && (forall i | 0 <= i < |es| :: lo <= es[i].start < es[i].end <= hi && es[i].start % 16 == 0)
    && (forall i, j | 0 <= i < j < |es| :: es[i].end <= es[j].start)
  }

  lemma AscendingJoin(a: seq<Extent>, b: seq<Extent>, lo: nat, mid: nat, hi: nat)
    requires Ascending(a, lo, mid) && Ascending(b, mid, hi)
    ensures Ascending(a + b, lo, hi)
  {
  }

  // Offsets increase in pre-order, are multiples of 16, and no two nodes overlap.
  lemma {:induction false} LayoutAscending(ns: seq<FileNode>, cur: nat)
    requires AllAlignsOk(ns) && cur % 16 == 0
    ensures Ascending(Extents(LayoutAll(ns, cur).0), cur, LayoutAll(ns, cur).1)
    ensures LayoutAll(ns, cur).1 % 16 == 0
    decreases ns
  {
    hide Layout, LayoutAll, AlignsOk, AllAlignsOk, PadFor, Ascending, Extents, ExtentsOf, Space, HeadLen, Data, Rem;
    if ns != [] {
      LayoutAllStep(ns, cur);
      LayoutFields(ns[0], cur);
      PadMultiple(ns[0], cur);
      var p, c := Layout(ns[0], cur).0, Layout(ns[0], cur).1;
      var own := p.offset + Space(p);
      OwnAscending(p, cur, own);
      if p.body.Dir? {
        LayoutAscending(ns[0].body.children, own);
      }
      LayoutAscending(ns[1..], c);
      NodeAscending(p, cur, own, c);
      ConsAscending(LayoutAll(ns, cur).0, cur, c, LayoutAll(ns, cur).1);
    } else {
      NilAscending(ns, cur);
    }
  }

  lemma NilAscending(ns: seq<FileNode>, cur: nat)
    requires ns == []
    ensures AllAlignsOk(ns) && LayoutAll(ns, cur) == ([], cur) && Ascending(Extents([]), cur, cur)
  {
  }

  lemma ConsAscending(ps: seq<FileNode>, cur: nat, c: nat, end: nat)
    requires ps != [] && Ascending(ExtentsOf(ps[0]), cur, c) && Ascending(Extents(ps[1..]), c, end)
    ensures Ascending(Extents(ps), cur, end)
  {
    hide Ascending, ExtentsOf;
    assert Extents(ps) == ExtentsOf(ps[0]) + Extents(ps[1..]);
    hide Extents;
    AscendingJoin(ExtentsOf(ps[0]), Extents(ps[1..]), cur, c, end);
  }

  lemma NodeAscending(p: FileNode, cur: nat, own: nat, c: nat)
    requires own == p.offset + Space(p) && Ascending([Extent(p.offset, own)], cur, own)
    requires if p.body.Dir? then Ascending(Extents(p.body.children), own, c) else c == own
    ensures Ascending(ExtentsOf(p), cur, c)
  {
    if p.body.Dir? {
      AscendingJoin([Extent(p.offset, own)], Extents(p.body.children), cur, own, c);
    } else {
      assert ExtentsOf(p) == [Extent(p.offset, own)];
    }
  }

  lemma OwnAscending(p: FileNode, cur: nat, own: nat)
    requires cur <= p.offset && p.offset % 16 == 0 && own == p.offset + Space(p)
    ensures Ascending([Extent(p.offset, own)], cur, own) && own % 16 == 0
  {
  }

  lemma PadMultiple(n: FileNode, cur: nat)
    requires AlignsOk(n) && cur % 16 == 0
    ensures PadFor(n, cur) % 16 == 0
    ensures n.align > 0 && Rem(cur + PadFor(n, cur) + (if n.body.Reg? then HeadLen(n) else 0), n.align) == 0
  {
    hide Up16, AlignsOk, Rem;
    AlignFacts(n);
    PadArith(cur + (if n.body.Reg? then HeadLen(n) else 0), n.align);
  }

  lemma AlignFacts(n: FileNode)
    requires AlignsOk(n)
    ensures n.align > 0 && n.align % 16 == 0 && (n.body.Dir? ==> AllAlignsOk(n.body.children))
  {
  }

  lemma PadArith(x: nat, a: nat)
    requires a > 0 && a % 16 == 0 && x % 16 == 0
    ensures Rem(x, a) % 16 == 0
    ensures Rem(x, a) != 0 ==> Rem(x + (a - Rem(x, a)), a) == 0
  {
    hide Rem;
    var k := RemQuotient(x, a);
    SixteenTimes(k, a / 16, a);
    DifferenceOfMultiples(x, k * a, Rem(x, a));
    if Rem(x, a) != 0 {
      NextMultiple(k, a);
      RemUnique(x + (a - Rem(x, a)), a, k + 1, 0);
    }
  }

  lemma DifferenceOfMultiples(x: nat, y: nat, d: nat)
    requires x == y + d && x % 16 == 0 && y % 16 == 0
    ensures d % 16 == 0
  {
  }

  lemma NextMultiple(k: nat, a: nat)
    ensures (k + 1) * a == k * a + a
  {
  }

  lemma SixteenTimes(k: nat, q: nat, a: nat)
    requires a == 16 * q
    ensures k * a == 16 * (k * q) && k * a % 16 == 0
  {
  }

  lemma SumOfMultiples(a: nat, b: nat)
    requires a % 16 == 0 && b % 16 == 0
    ensures (a + b) % 16 == 0
  {
  }

  // A node lies between where it may start and where the next one may.
  lemma NodeBounds(n: FileNode, cur: nat)
    requires AlignsOk(n) && cur % 16 == 0
    ensures var p := Layout(n, cur).0;
      && cur <= p.offset && p.offset % 16 == 0
      && p.offset + Space(p) <= Layout(n, cur).1 && Layout(n, cur).1 % 16 == 0
  {
    hide Layout, LayoutAll, AlignsOk, AllAlignsOk, PadFor, Space, Data, HeadLen, Rem;
    LayoutFields(n, cur);
    PadMultiple(n, cur);
    var p := Layout(n, cur).0;
    SpaceMultiple(p);
    SumOfMultiples(cur, PadFor(n, cur));
    SumOfMultiples(p.offset, Space(p));
    if n.body.Dir? {
      LayoutEnd(n.body.children, p.offset + Space(p));
    }
  }

  // The first node lies before the second may start, and that before the end.
  lemma LayoutBounds(ns: seq<FileNode>, cur: nat)
    requires AllAlignsOk(ns) && cur % 16 == 0 && ns != []
    ensures AlignsOk(ns[0])
    ensures var p := Layout(ns[0], cur).0;
      && cur <= p.offset && p.offset % 16 == 0
      && p.offset + Space(p) <= Layout(ns[0], cur).1 <= LayoutAll(ns, cur).1 && Layout(ns[0], cur).1 % 16 == 0
  {
    hide Layout, LayoutAll, AlignsOk, AllAlignsOk, Space;
    LayoutAllStep(ns, cur);
    NodeBounds(ns[0], cur);
    LayoutEnd(ns[1..], Layout(ns[0], cur).1);
  }

  lemma LayoutEnd(ns: seq<FileNode>, cur: nat)
    requires AllAlignsOk(ns) && cur % 16 == 0
    ensures cur <= LayoutAll(ns, cur).1 && LayoutAll(ns, cur).1 % 16 == 0
  {
    hide AllAlignsOk, LayoutAll, Extents;
    LayoutAscending(ns, cur);
  }

  // Every node is where its alignment wants it: regular files with their data, others
  // with their header.
  ghost predicate Aligned(ns: seq<FileNode>)
    decreases ns
  {
    ns == [] ||
    (&& ns[0].align > 0
     && Rem(ns[0].offset + (if ns[0].body.Reg? then HeadLen(ns[0]) else 0), ns[0].align) == 0
     && ns[0].pad < ns[0].align
     && (ns[0].body.Dir? ==> Aligned(ns[0].body.children)) && Aligned(ns[1..]))
  }

  lemma {:induction false} LayoutAligned(ns: seq<FileNode>, cur: nat)
    requires AllAlignsOk(ns) && cur % 16 == 0
    ensures Aligned(LayoutAll(ns, cur).0)
    decreases ns
  {
    hide Layout, LayoutAll, AlignsOk, AllAlignsOk, PadFor, Space, HeadLen, Aligned, Rem, Data;
    if ns != [] {
      LayoutAllStep(ns, cur);
      LayoutFields(ns[0], cur);
      NodeBounds(ns[0], cur);
      var p := Layout(ns[0], cur).0;
      if p.body.Dir? {
        SpaceMultiple(p);
        SumOfMultiples(p.offset, Space(p));
        LayoutAligned(ns[0].body.children, p.offset + Space(p));
      }
      LayoutAligned(ns[1..], Layout(ns[0], cur).1);
      AlignedCons(ns[0], cur, LayoutAll(ns, cur).0);
    } else {
      AlignedNil(ns, cur);
    }
  }

  lemma AlignedNil(ns: seq<FileNode>, cur: nat)
    requires ns == []
    ensures AllAlignsOk(ns) && LayoutAll(ns, cur).0 == [] && Aligned([])
  {
  }

  lemma SpaceMultiple(p: FileNode)
    ensures Space(p) % 16 == 0
  {
  }

  lemma AlignedCons(n: FileNode, cur: nat, ps: seq<FileNode>)
    requires AlignsOk(n) && cur % 16 == 0 && ps != []
    requires ps[0] == n.(offset := cur + PadFor(n, cur), pad := PadFor(n, cur), body := ps[0].body)
    requires ps[0].body.Reg? == n.body.Reg? && HeadLen(ps[0]) == HeadLen(n)
    requires (ps[0].body.Dir? ==> Aligned(ps[0].body.children)) && Aligned(ps[1..])
    ensures Aligned(ps)
  {
    hide PadFor, HeadLen, Rem;
    PadMultiple(n, cur);
    AlignFacts(n);
  }
}
