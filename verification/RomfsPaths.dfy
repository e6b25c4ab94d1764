// Paths, the names the reader takes from them, and its search of a tree compared with a
// plain one.
module RomfsPaths {
  import opened Common
  import opened RomfsBytes
  import opened RomfsLayout

  const MAX_FILE_NAME: nat := 128
  const SLASH: byte := 47

  // ---------- paths ----------

  // The components of a path, empty ones included.
  function Split(p: seq<byte>): (r: seq<seq<byte>>)
    ensures |r| >= 1
  {
    if p == [] then [[]]
    else
      var r := Split(p[1..]);
      if p[0] == SLASH then [[]] + r else [[p[0]] + r[0]] + r[1..]
  }

  // Components put together with slashes between them.
  function Joined(comps: seq<seq<byte>>): seq<byte>
    requires comps != []
  {
    if |comps| == 1 then comps[0] else comps[0] + [0x2f] + Joined(comps[1..])
  }

  // The components are the parts without slashes that make up the path.
  lemma {:induction false} SplitExactly(p: seq<byte>, comps: seq<seq<byte>>)
    ensures comps == Split(p) <==> comps != [] && Joined(comps) == p && forall c :: c in comps ==> 0x2f !in c
    decreases |p|
  {
    SplitJoins(p);
    if comps != [] && Joined(comps) == p && forall c :: c in comps ==> 0x2f !in c {
      JoinedSplits(comps);
    }
  }

  lemma {:induction false} SplitJoins(p: seq<byte>)
    ensures Joined(Split(p)) == p && forall c :: c in Split(p) ==> 0x2f !in c
  {
    if p != [] {
      var r := Split(p[1..]);
      SplitJoins(p[1..]);
      assert r[0] in r && forall c :: c in r[1..] ==> c in r;
      if p[0] == SLASH {
        assert Split(p)[1..] == r;
        assert Joined(Split(p)) == [] + [0x2f] + Joined(r);
      } else {
        assert Split(p)[1..] == r[1..];
        assert [p[0]] + r[0] + [0x2f] == [p[0]] + (r[0] + [0x2f]);
      }
    }
  }

  lemma {:induction false} JoinedSplits(comps: seq<seq<byte>>)
    requires comps != [] && forall c :: c in comps ==> 0x2f !in c
    ensures Split(Joined(comps)) == comps
    decreases |comps|
  {
    var c := comps[0];
    assert comps == [c] + comps[1..] && c in comps;
    if |comps| == 1 {
      SplitWhole(c);
    } else {
      JoinedSplits(comps[1..]);
      SplitFirst(c, Joined(comps[1..]));
      assert c + [0x2f] + Joined(comps[1..]) == c + ([0x2f] + Joined(comps[1..]));
    }
  }

  lemma {:induction false} SplitWhole(c: seq<byte>)
    requires 0x2f !in c
    ensures Split(c) == [c]
  {
    if c != [] {
      SplitWhole(c[1..]);
      assert c == [c[0]] + c[1..];
    }
  }

  lemma {:induction false} SplitFirst(c: seq<byte>, rest: seq<byte>)
    requires 0x2f !in c
    ensures Split(c + ([0x2f] + rest)) == [c] + Split(rest)
  {
    var p := c + ([0x2f] + rest);
    if c == [] {
      assert p[1..] == rest;
    } else {
      assert p[1..] == c[1..] + ([0x2f] + rest);
      SplitFirst(c[1..], rest);
      assert c == [c[0]] + c[1..];
    }
  }

  function Last<T>(s: seq<T>): T
    requires s != []
  {
    s[|s| - 1]
  }

  // Up to the first component that equals the last one.
  function UpTo(comps: seq<seq<byte>>, last: seq<byte>): (r: seq<seq<byte>>)
    requires comps != [] && Last(comps) == last
    ensures r != [] && r[0] == comps[0]
  {
    if comps[0] == last then [comps[0]] else [comps[0]] + UpTo(comps[1..], last)
  }

  // It ends where the last component first occurs.
  lemma {:induction false} UpToFirst(comps: seq<seq<byte>>, last: seq<byte>, k: nat)
    requires k < |comps| && comps[k] == last == Last(comps) && forall i | 0 <= i < k :: comps[i] != last
    ensures UpTo(comps, last) == comps[..k + 1]
  {
    if k > 0 {
      UpToFirst(comps[1..], last, k - 1);
      assert comps[..k + 1] == [comps[0]] + comps[1..][..k];
    }
  }

  function Truncate(comps: seq<seq<byte>>): (r: seq<seq<byte>>)
    requires comps != []
    ensures r != [] && r[0] == comps[0]
  {
    UpTo(comps, Last(comps))
  }

  lemma {:induction false} UpToExactly(comps: seq<seq<byte>>, last: seq<byte>)
    requires comps != [] && Last(comps) == last
    ensures |UpTo(comps, last)| <= |comps|
    ensures UpTo(comps, last) == comps <==> forall i | 0 <= i < |comps| - 1 :: comps[i] != last
  {
    if comps[0] != last {
      UpToExactly(comps[1..], last);
      assert comps == [comps[0]] + comps[1..];
      assert forall i | 0 < i < |comps| - 1 :: comps[i] == comps[1..][i - 1];
      assert forall i | 0 <= i < |comps[1..]| - 1 :: comps[1..][i] == comps[i + 1];
    }
  }

  // ---------- searching the tree ----------

  // The first node of that name, its first child of the next name, and so on.
  function Lookup(ns: seq<FileNode>, comps: seq<seq<byte>>): Option<FileNode>
    requires comps != []
    decreases ns
  {
    if ns == [] then None
    else if ns[0].name == comps[0] then
      if |comps| == 1 then Some(ns[0])
      else if ns[0].body.Dir? then Lookup(ns[0].body.children, comps[1..])
      else None
    else Lookup(ns[1..], comps)
  }

  // The node found for a component is the first of that name, and what is left of the path
  // is searched among its entries.
  lemma {:induction false} LookupFirst(ns: seq<FileNode>, comps: seq<seq<byte>>, i: nat)
    requires comps != [] && i < |ns| && ns[i].name == comps[0] && forall j | 0 <= j < i :: ns[j].name != comps[0]
    ensures Lookup(ns, comps) ==
      if |comps| == 1 then Some(ns[i])
      else if ns[i].body.Dir? then Lookup(ns[i].body.children, comps[1..]) else None
    decreases i
  {
    if i > 0 { LookupFirst(ns[1..], comps, i - 1); }
  }

  lemma {:induction false} LookupNone(ns: seq<FileNode>, comps: seq<seq<byte>>)
    requires comps != [] && forall j | 0 <= j < |ns| :: ns[j].name != comps[0]
    ensures Lookup(ns, comps) == None
    decreases |ns|
  {
    if ns != [] { LookupNone(ns[1..], comps); }
  }

  function Masked(w: nat): nat { w / 16 * 16 }

  // The nodes of the tree from the one at that offset on, among its siblings.
  function NodesAt(ns: seq<FileNode>, o: nat): (r: seq<FileNode>)
    ensures r != [] ==> r[0].offset == o
    decreases ns
  {
    if ns == [] || ns[0].offset == o then ns
    else
      var sub := if ns[0].body.Dir? then NodesAt(ns[0].body.children, o) else [];
      if sub != [] then sub else NodesAt(ns[1..], o)
  }

  // What the reader goes on with below the first node: whatever stands at the offset in
  // its second word. For a directory these are its children, or, when there are none, the
  // directory itself and the nodes behind it; for a link, the node linked to and the
  // nodes behind that one. Files have no second word and end the search.
  function Below(root: seq<FileNode>, ns: seq<FileNode>): (r: seq<FileNode>)
    requires ns != []
  {
    if ns[0].body.Dir? then (if ns[0].body.children == [] then ns else ns[0].body.children)
    else if Spec(ns[0]) < 16 then []
    else NodesAt(root, Masked(Spec(ns[0])))
  }

  // The search of the nodes ns of the tree root, going on below as the reader does.
  function Walk(root: seq<FileNode>, ns: seq<FileNode>, comps: seq<seq<byte>>): Option<FileNode>
    requires comps != []
    decreases |comps|, ns
  {
    if ns == [] then None
    else if ns[0].name == comps[0] then
      if |comps| == 1 then Some(ns[0]) else Walk(root, Below(root, ns), comps[1..])
    else Walk(root, ns[1..], comps)
  }

  // Wherever the search goes on, a node of the tree stands at the offset. Links keep to
  // that; the number of a device need not.
  predicate Plain(root: seq<FileNode>, ns: seq<FileNode>, comps: seq<seq<byte>>)
    requires comps != []
    decreases |comps|, ns
  {
    ns == [] ||
    (if ns[0].name == comps[0] then
       |comps| == 1 || (Leads(root, ns[0]) && Plain(root, Below(root, ns), comps[1..]))
     else Plain(root, ns[1..], comps))
  }

  predicate Leads(root: seq<FileNode>, n: FileNode) {
    n.body.Dir? || Spec(n) < 16 || NodesAt(root, Masked(Spec(n))) != []
  }

  // Every link of the tree is to a node of it, and no device number looks like an offset.
  predicate AllLead(root: seq<FileNode>, ns: seq<FileNode>)
    decreases ns
  {
    ns == [] ||
    (&& Leads(root, ns[0]) && (ns[0].body.Dir? ==> AllLead(root, ns[0].body.children))
     && AllLead(root, ns[1..]))
  }

  lemma {:induction false} LeadFrom(root: seq<FileNode>, ns: seq<FileNode>, o: nat)
    requires AllLead(root, ns)
    ensures AllLead(root, NodesAt(ns, o))
    decreases ns
  {
    if ns != [] && ns[0].offset != o {
      hide Leads;
      if ns[0].body.Dir? { LeadFrom(root, ns[0].body.children, o); }
      LeadFrom(root, ns[1..], o);
    }
  }

  // In such a tree no path meets an offset where nothing stands.
  lemma {:induction false} AllPathsPlain(root: seq<FileNode>, ns: seq<FileNode>, comps: seq<seq<byte>>)
    requires AllLead(root, root) && AllLead(root, ns) && comps != []
    ensures Plain(root, ns, comps)
    decreases |comps|, ns
  {
    if ns != [] {
      hide Leads;
      if ns[0].name != comps[0] {
        AllPathsPlain(root, ns[1..], comps);
      } else if |comps| > 1 {
        LeadFrom(root, root, Masked(Spec(ns[0])));
        AllPathsPlain(root, Below(root, ns), comps[1..]);
      }
    }
  }

  // ---------- when the two searches agree ----------

  // Of the nodes whose names are not in seen, the first of each name is a directory with
  // entries, these being straight, too, or a node below which the search ends.
  predicate Straight(root: seq<FileNode>, ns: seq<FileNode>, seen: set<seq<byte>>)
    decreases ns
  {
    ns == [] ||
    (&& (ns[0].name in seen ||
         (if ns[0].body.Dir? && ns[0].body.children != [] then Straight(root, ns[0].body.children, {})
          else Below(root, ns) == []))
     && Straight(root, ns[1..], seen + {ns[0].name}))
  }

  lemma {:induction false} StraightWalk(root: seq<FileNode>, ns: seq<FileNode>, seen: set<seq<byte>>,
                                        comps: seq<seq<byte>>)
    requires comps != [] && Straight(root, ns, seen) && comps[0] !in seen
    ensures Walk(root, ns, comps) == Lookup(ns, comps)
    decreases ns
  {
    if ns != [] {
      if ns[0].name != comps[0] {
        StraightWalk(root, ns[1..], seen + {ns[0].name}, comps);
      } else if |comps| > 1 && ns[0].body.Dir? && ns[0].body.children != [] {
        StraightWalk(root, ns[0].body.children, {}, comps[1..]);
      }
    }
  }

  // Below a node that is not straight, the name of what the reader goes on with there is
  // found by the reader only.
  lemma {:induction false} Misled(root: seq<FileNode>, ns: seq<FileNode>, seen: set<seq<byte>>)
    returns (comps: seq<seq<byte>>)
    requires !Straight(root, ns, seen)
    ensures comps != [] && comps[0] !in seen && Walk(root, ns, comps) != Lookup(ns, comps)
    decreases ns
  {
    var n := ns[0];
    if n.name in seen || (if n.body.Dir? && n.body.children != [] then Straight(root, n.body.children, {})
                          else Below(root, ns) == []) {
      comps := Misled(root, ns[1..], seen + {n.name});
    } else if n.body.Dir? && n.body.children != [] {
      var rest := Misled(root, n.body.children, {});
      comps := [n.name] + rest;
      assert comps[1..] == rest;
    } else {
      comps := [n.name, Below(root, ns)[0].name];
      assert comps[1..] == [Below(root, ns)[0].name];
    }
  }

  // For all paths below a list of nodes the reader's search is the plain one exactly when
  // the list is straight: no path leads to an empty directory, or to a link or device from
  // which the search would go on.
  lemma WalkExactly(root: seq<FileNode>, ns: seq<FileNode>)
    ensures (forall comps: seq<seq<byte>> | comps != [] :: Walk(root, ns, comps) == Lookup(ns, comps))
      <==> Straight(root, ns, {})
  {
    if Straight(root, ns, {}) {
      forall comps: seq<seq<byte>> | comps != [] ensures Walk(root, ns, comps) == Lookup(ns, comps) {
        StraightWalk(root, ns, {}, comps);
      }
    } else {
      var comps := Misled(root, ns, {});
    }
  }

  // Every node met before the last component is a directory with entries, or has no
  // offset in its second word.
  predicate Ordinary(ns: seq<FileNode>, comps: seq<seq<byte>>)
    requires comps != []
    decreases ns
  {
    ns == [] ||
    (if ns[0].name != comps[0] then Ordinary(ns[1..], comps)
     else
       |comps| == 1 ||
       (if ns[0].body.Dir? then ns[0].body.children != [] && Ordinary(ns[0].body.children, comps[1..])
        else Spec(ns[0]) < 16))
  }

  // On such a path the two searches agree, in any tree.
  lemma {:induction false} OrdinaryWalk(root: seq<FileNode>, ns: seq<FileNode>, comps: seq<seq<byte>>)
    requires comps != [] && Ordinary(ns, comps)
    ensures Walk(root, ns, comps) == Lookup(ns, comps) && Plain(root, ns, comps)
    decreases ns
  {
    if ns != [] {
      if ns[0].name != comps[0] {
        OrdinaryWalk(root, ns[1..], comps);
      } else if |comps| > 1 && ns[0].body.Dir? {
        OrdinaryWalk(root, ns[0].body.children, comps[1..]);
      }
    }
  }

  lemma {:induction false} OrdinaryCut(ns: seq<FileNode>, comps: seq<seq<byte>>, last: seq<byte>)
    requires comps != [] && Last(comps) == last && Ordinary(ns, comps)
    ensures Ordinary(ns, UpTo(comps, last))
    decreases ns
  {
    if ns != [] {
      if ns[0].name != comps[0] {
        OrdinaryCut(ns[1..], comps, last);
      } else if comps[0] != last {
        UpToStep(comps, last);
        if ns[0].body.Dir? { OrdinaryCut(ns[0].body.children, comps[1..], last); }
      }
    }
  }

  lemma UpToStep(comps: seq<seq<byte>>, last: seq<byte>)
    requires comps != [] && Last(comps) == last && comps[0] != last
    ensures |comps| > 1 && Last(comps[1..]) == last
    ensures |UpTo(comps, last)| > 1 && UpTo(comps, last)[0] == comps[0]
    ensures UpTo(comps, last)[1..] == UpTo(comps[1..], last)
  {
  }

  // With an empty directory in front, the reader searches for what is left of the path in
  // the list that holds the directory; a plain search finds nothing.
  lemma EmptyDirectory(root: seq<FileNode>, ns: seq<FileNode>, comps: seq<seq<byte>>)
    requires comps != [] && ns != [] && ns[0].body == Dir([])
    ensures Walk(root, ns, [ns[0].name] + comps) == Walk(root, ns, comps)
    ensures Lookup(ns, [ns[0].name] + comps) == None && !Straight(root, ns, {})
  {
    assert ([ns[0].name] + comps)[1..] == comps;
  }

  // An empty directory a and a file b behind it: the reader finds b as a/b.
  lemma FoundThroughEmpty(a: FileNode, b: FileNode)
    requires a.body == Dir([]) && b.body.Reg? && a.name != b.name
    ensures Walk([a, b], [a, b], [a.name, b.name]) == Some(b) && Lookup([a, b], [a.name, b.name]) == None
    ensures Walk([a, b], [a, b], Truncate([a.name, b.name])) == Some(b)
  {
    EmptyDirectory([a, b], [a, b], [b.name]);
    assert [a.name] + [b.name] == [a.name, b.name] && [a, b][1..] == [b];
    assert [a.name, b.name][1..] == [b.name];
    assert UpTo([a.name, b.name], b.name) == [a.name, b.name];
  }

  // A hard link l to the node b behind it in the same directory: the reader goes on with b
  // and the nodes behind that one, and finds b as l/b.
  lemma FoundThroughLink(l: FileNode, b: FileNode, rest: seq<FileNode>, comps: seq<seq<byte>>)
    requires l.body == Hard(b.offset) && b.offset % 16 == 0 && 16 <= b.offset != l.offset && comps != []
    ensures var ns := [l, b] + rest;
      && Walk(ns, ns, [l.name] + comps) == Walk(ns, [b] + rest, comps)
      && Walk(ns, ns, [l.name, b.name]) == Some(b) && Lookup(ns, [l.name] + comps) == None
  {
    var ns := [l, b] + rest;
    assert ns[1..] == [b] + rest && NodesAt(ns[1..], b.offset) == ns[1..];
    assert NodesAt(ns, b.offset) == ns[1..] && Below(ns, ns) == ns[1..];
    assert ([l.name] + comps)[1..] == comps && [l.name, b.name][1..] == [b.name];
  }

  // ---------- cutting a path off ----------

  // A chain of directories named after the components, with a file at the end.
  function Chain(comps: seq<seq<byte>>): (ns: seq<FileNode>)
    requires comps != []
    ensures |ns| == 1 && ns[0].name == comps[0]
  {
    [FileNode(comps[0], false, 16, 0, 0, if |comps| == 1 then Reg([]) else Dir(Chain(comps[1..])))]
  }

  // The whole path leads to the file, a path cut off before its end to a directory.
  lemma {:induction false} ChainLookup(comps: seq<seq<byte>>, last: seq<byte>)
    requires comps != [] && Last(comps) == last
    ensures Lookup(Chain(comps), comps).Some? && Lookup(Chain(comps), comps).value.body.Reg?
    ensures UpTo(comps, last) != comps ==>
      Lookup(Chain(comps), UpTo(comps, last)).Some? && Lookup(Chain(comps), UpTo(comps, last)).value.body.Dir?
  {
    if |comps| > 1 {
      ChainLookup(comps[1..], last);
      if comps[0] != last {
        assert UpTo(comps, last)[1..] == UpTo(comps[1..], last);
        assert comps == [comps[0]] + comps[1..];
      }
    } else {
      assert comps == [comps[0]];
    }
  }

  // Searching the path cut off at the first component that equals the last finds, in
  // every tree, what searching the whole path finds exactly when no earlier component
  // equals the last. Otherwise the chain of its components tells the two apart.
  lemma TruncateExactly(comps: seq<seq<byte>>)
    requires comps != []
    ensures (forall ns :: Lookup(ns, Truncate(comps)) == Lookup(ns, comps))
      <==> forall i | 0 <= i < |comps| - 1 :: comps[i] != Last(comps)
  {
    UpToExactly(comps, Last(comps));
    if Truncate(comps) != comps {
      ChainLookup(comps, Last(comps));
      assert Lookup(Chain(comps), Truncate(comps)) != Lookup(Chain(comps), comps);
    }
  }

  predicate LastIsNew(comps: seq<seq<byte>>)
    requires comps != []
  {
    forall i | 0 <= i < |comps| - 1 :: comps[i] != Last(comps)
  }

  // The nodes of a tree.
  function Weight(ns: seq<FileNode>): nat
    decreases ns
  {
    if ns == [] then 0
    else 1 + (if ns[0].body.Dir? then Weight(ns[0].body.children) else 0) + Weight(ns[1..])
  }

  lemma {:induction false} FoundLighter(ns: seq<FileNode>, comps: seq<seq<byte>>)
    requires comps != [] && Lookup(ns, comps).Some?
    ensures Weight([Lookup(ns, comps).value]) <= Weight(ns)
    decreases ns
  {
    if ns[0].name != comps[0] {
      FoundLighter(ns[1..], comps);
    } else if |comps| > 1 {
      FoundLighter(ns[0].body.children, comps[1..]);
    } else {
      assert [ns[0]][1..] == [];
    }
  }

  // A path that goes on behind a node found leads to another node or to none.
  lemma {:induction false} FurtherDown(ns: seq<FileNode>, comps: seq<seq<byte>>, last: seq<byte>)
    requires comps != [] && Last(comps) == last && UpTo(comps, last) != comps
    ensures Lookup(ns, UpTo(comps, last)) == Lookup(ns, comps) <==> Lookup(ns, UpTo(comps, last)) == None
    decreases ns
  {
    if ns != [] {
      if ns[0].name != comps[0] {
        FurtherDown(ns[1..], comps, last);
      } else if comps[0] != last {
        UpToStep(comps, last);
        if ns[0].body.Dir? {
          assert UpTo(comps[1..], last) != comps[1..] by { assert comps == [comps[0]] + comps[1..]; }
          FurtherDown(ns[0].body.children, comps[1..], last);
        }
      } else {
        UpToExactly(comps, last);
        if ns[0].body.Dir? && Lookup(ns[0].body.children, comps[1..]).Some? {
          FoundLighter(ns[0].body.children, comps[1..]);
          assert [ns[0]][1..] == [];
        }
      }
    }
  }

  // On an ordinary path the reader, which cuts it off and goes on its own way, finds what
  // a plain search of the whole path finds exactly when no earlier component equals the
  // last, or nothing stands at the path cut off.
  lemma ReaderExactly(root: seq<FileNode>, ns: seq<FileNode>, comps: seq<seq<byte>>)
    requires comps != [] && Ordinary(ns, comps)
    ensures Walk(root, ns, Truncate(comps)) == Lookup(ns, comps)
      <==> LastIsNew(comps) || Lookup(ns, Truncate(comps)) == None
  {
    OrdinaryCut(ns, comps, Last(comps));
    OrdinaryWalk(root, ns, Truncate(comps));
    UpToExactly(comps, Last(comps));
    if !LastIsNew(comps) { FurtherDown(ns, comps, Last(comps)); }
  }

  // ---------- the names the reader takes from a path ----------

  // A string as strcmp and strcpy see it: up to the first zero.
  function CStr(b: seq<byte>): (r: seq<byte>)
    ensures |r| <= |b|
  {
    if b == [] || b[0] == 0 then [] else [b[0]] + CStr(b[1..])
  }

  lemma {:induction false} CStrOf(name: seq<byte>, rest: seq<byte>)
    requires rest != [] && rest[0] == 0 && forall i | 0 <= i < |name| :: name[i] != 0
    ensures CStr(name + rest) == name
  {
    if name != [] {
      assert (name + rest)[1..] == name[1..] + rest;
      CStrOf(name[1..], rest);
    }
  }

  lemma {:induction false} CStrBehind(name: seq<byte>, rest: seq<byte>)
    requires 0 !in name
    ensures CStr(name + rest) == name + CStr(rest)
  {
    if name == [] {
      assert [] + rest == rest && [] + CStr(rest) == CStr(rest);
    } else {
      assert (name + rest)[1..] == name[1..] + rest;
      CStrBehind(name[1..], rest);
      assert name == [name[0]] + name[1..];
    }
  }

  predicate Short(comps: seq<seq<byte>>) {
    forall c :: c in comps ==> |c| < MAX_FILE_NAME
  }

  predicate NoZero(comps: seq<seq<byte>>) {
    forall c :: c in comps ==> 0 !in c
  }

  // The buffer with a component copied into it. Only the last one is copied with its zero.
  function Copied(buf: seq<byte>, c: seq<byte>, last: bool): (r: seq<byte>)
    requires |buf| == MAX_FILE_NAME && (last ==> |c| < MAX_FILE_NAME)
    ensures |r| == MAX_FILE_NAME
  {
    if last then c + [0] + buf[|c| + 1..]
    else
      var k := if |c| > MAX_FILE_NAME then MAX_FILE_NAME else |c|;
      c[..k] + buf[k..]
  }

  // Without its zero the copy reads as the component exactly when there was a zero behind
  // it; with its zero it always does.
  lemma CopiedReads(buf: seq<byte>, c: seq<byte>)
    requires |buf| == MAX_FILE_NAME && |c| < MAX_FILE_NAME && 0 !in c
    ensures CStr(Copied(buf, c, false)) == c <==> buf[|c|] == 0
    ensures CStr(Copied(buf, c, true)) == c
  {
    assert c[..|c|] == c;
    CStrBehind(c, buf[|c|..]);
    assert c + [0] + buf[|c| + 1..] == c + ([0] + buf[|c| + 1..]);
    CStrBehind(c, [0] + buf[|c| + 1..]);
  }

  // More than the buffer holds is cut off.
  lemma CopiedWhole(buf: seq<byte>, c: seq<byte>)
    requires |buf| == 128 <= |c|
    ensures Copied(buf, c, false) == c[..128]
  {
    assert c[..128] + buf[128..] == c[..128];
  }

  // A component behind a longer one ends in what is left of that one.
  lemma ShorterReads(buf: seq<byte>, a: seq<byte>, b: seq<byte>)
    requires |buf| == MAX_FILE_NAME && |b| < |a| < MAX_FILE_NAME && 0 !in a && 0 !in b && buf[|a|] == 0
    ensures CStr(Copied(Copied(buf, a, false), b, false)) == b + a[|b|..]
  {
    var c := b + a[|b|..];
    assert a[..|a|] == a && b[..|b|] == b;
    assert Copied(Copied(buf, a, false), b, false) == c + buf[|a|..];
    CStrBehind(c, buf[|a|..]);
  }

  // What the buffer reads as after each component has been copied.
  function Names(buf: seq<byte>, comps: seq<seq<byte>>): (r: seq<seq<byte>>)
    requires |buf| == MAX_FILE_NAME && Short(comps)
    ensures |r| == |comps|
    decreases |comps|
  {
    if comps == [] then []
    else
      var b := Copied(buf, comps[0], |comps| == 1);
      [CStr(b)] + Names(b, comps[1..])
  }

  // The last component is read as it is.
  lemma {:induction false} LastName(buf: seq<byte>, comps: seq<seq<byte>>)
    requires |buf| == MAX_FILE_NAME && Short(comps) && NoZero(comps) && comps != []
    ensures Last(Names(buf, comps)) == Last(comps)
    decreases comps
  {
    if |comps| == 1 {
      assert comps[0] in comps;
      CopiedReads(buf, comps[0]);
    } else {
      LastName(Copied(buf, comps[0], false), comps[1..]);
    }
  }

  // Behind each component but the last there is a zero at first, and none of the
  // components before it has been longer.
  predicate Rising(buf: seq<byte>, comps: seq<seq<byte>>)
    requires |buf| == MAX_FILE_NAME && Short(comps)
  {
    forall i | 0 <= i < |comps| - 1 ::
      comps[i] in comps && buf[|comps[i]|] == 0 && forall j | 0 <= j < i :: |comps[j]| <= |comps[i]|
  }

  // The reader takes all components for what they are exactly when they are that way.
  lemma {:induction false} NamesExactly(buf: seq<byte>, comps: seq<seq<byte>>)
    requires |buf| == MAX_FILE_NAME && Short(comps) && NoZero(comps) && comps != []
    ensures Names(buf, comps) == comps <==> Rising(buf, comps)
    decreases comps
  {
    assert comps[0] in comps;
    CopiedReads(buf, comps[0]);
    var rest := comps[1..];
    assert comps == [comps[0]] + rest;
    if rest != [] {
      var b := Copied(buf, comps[0], false);
      NamesExactly(b, rest);
      RisingStep(buf, comps);
    } else {
      assert Names(buf, comps) == [CStr(Copied(buf, comps[0], true))];
    }
  }

  lemma RisingStep(buf: seq<byte>, comps: seq<seq<byte>>)
    requires |buf| == MAX_FILE_NAME && Short(comps) && NoZero(comps) && |comps| > 1
    ensures Rising(buf, comps) <==>
      comps[0] in comps && buf[|comps[0]|] == 0 && Rising(Copied(buf, comps[0], false), comps[1..])
  {
    var c, rest := comps[0], comps[1..];
    var b := Copied(buf, c, false);
    assert c in comps && c[..|c|] == c;
    forall i | 0 <= i < |rest| - 1
      ensures rest[i] == comps[i + 1] && rest[i] in comps
      ensures b[|rest[i]|] == 0 <==> |c| <= |rest[i]| && buf[|rest[i]|] == 0
    {
      assert rest[i] == comps[i + 1];
      if |rest[i]| < |c| { assert b[|rest[i]|] == c[|rest[i]|]; }
    }
    if Rising(b, rest) && buf[|c|] == 0 {
      forall i | 0 <= i < |comps| - 1
        ensures comps[i] in comps && buf[|comps[i]|] == 0 && forall j | 0 <= j < i :: |comps[j]| <= |comps[i]|
      {
        if i > 0 {
          assert comps[i] == rest[i - 1];
          assert forall j | 1 <= j < i :: comps[j] == rest[j - 1];
        }
      }
    }
    if Rising(buf, comps) {
      forall i | 0 <= i < |rest| - 1
        ensures rest[i] in rest && b[|rest[i]|] == 0 && forall j | 0 <= j < i :: |rest[j]| <= |rest[i]|
      {
        assert forall j | 0 <= j < i :: rest[j] == comps[j + 1];
      }
    }
  }
}
