// The kernel's romfs reader, as it walks over sibling and child offsets on a device.
module RomfsReader {
  import opened Common
  import opened RomfsBytes
  import opened RomfsLayout
  import opened RomfsPaths

  const SECTOR: nat := 512

  // struct inode: the name, the size and the address of the header.
  datatype Inode = Inode(name: seq<byte>, dsize: nat, daddr: nat)

  // The words and the name at the node's offset are what the reader takes them for.
  ghost predicate Readable(dev: seq<byte>, storage: nat, n: FileNode, next: nat)
    decreases n, 1
  {
    && 0 < n.offset < storage && n.offset + SECTOR <= |dev| && n.offset % 16 == 0
    && Masked(FromBe(dev[n.offset..n.offset + 4])) == next
    && FromBe(dev[n.offset + 4..n.offset + 8]) == Spec(n)
    && FromBe(dev[n.offset + 8..n.offset + 12]) == |Data(n)|
    && CStr(dev[n.offset + 16..n.offset + SECTOR]) == n.name
    && (n.body.Dir? ==> ReadableAll(dev, storage, n.body.children))
  }

  ghost predicate ReadableAll(dev: seq<byte>, storage: nat, ns: seq<FileNode>)
    decreases ns, 0
  {
    ns == [] || (Readable(dev, storage, ns[0], NextOf(ns)) && ReadableAll(dev, storage, ns[1..]))
  }

  // ---------- the code ----------

  // bmap: the component before the first slash, as far as the buffer goes, is copied into
  // it, with a zero only when there is no slash. Returns what is behind the slash.
  method Bmap(tmp: array<byte>, dir: seq<byte>) returns (rest: Option<seq<byte>>)
    requires tmp.Length == MAX_FILE_NAME && (SLASH !in dir ==> |dir| < MAX_FILE_NAME)
    modifies tmp
    ensures Cut(dir, rest) && (rest.None? ==> |Split(dir)[0]| < MAX_FILE_NAME)
    ensures tmp[..] == Copied(old(tmp[..]), Split(dir)[0], rest.None?)
  {
    hide Split, Copied;
    ghost var buf := tmp[..];
    var n := 0;
    while n < |dir| && dir[n] != SLASH
      invariant 0 <= n <= |dir| && forall i | 0 <= i < n :: dir[i] != SLASH
    {
      n := n + 1;
    }
    FirstPart(dir, n);
    CopiedIs(buf, dir[..n]);
    if n == |dir| {
      rest := None;
      CopyTo(tmp, dir);
      tmp[n] := 0;
      assert dir[..n] == dir && tmp[..] == dir + [0] + buf[n + 1..];
    } else {
      rest := Some(dir[n + 1..]);
      ghost var c := dir[..n];
      n := if n > MAX_FILE_NAME then MAX_FILE_NAME else n;
      assert dir[..n] == c[..n];
      CopyTo(tmp, dir[..n]);
    }
  }

  lemma FirstPart(dir: seq<byte>, n: nat)
    requires n <= |dir| && forall i | 0 <= i < n :: dir[i] != SLASH
    requires n < |dir| ==> dir[n] == SLASH
    ensures Split(dir)[0] == dir[..n]
    ensures n == |dir| <==> |Split(dir)| == 1
    ensures n < |dir| ==> Split(dir)[1..] == Split(dir[n + 1..])
  {
    SplitPrefix(dir, n);
    assert dir[..n] + [] == dir[..n];
    if n < |dir| { assert dir[n..][1..] == dir[n + 1..]; }
  }

  lemma CopiedIs(buf: seq<byte>, c: seq<byte>)
    requires |buf| == MAX_FILE_NAME
    ensures |c| < MAX_FILE_NAME ==> Copied(buf, c, true) == c + [0] + buf[|c| + 1..]
    ensures var k := if |c| > MAX_FILE_NAME then MAX_FILE_NAME else |c|;
      Copied(buf, c, false) == c[..k] + buf[k..]
  {
  }

  method CopyTo(tmp: array<byte>, s: seq<byte>)
    requires |s| <= tmp.Length
    modifies tmp
    ensures tmp[..] == s + old(tmp[|s|..])
  {
    forall i | 0 <= i < |s| {
      tmp[i] := s[i];
    }
  }

  predicate Cut(dir: seq<byte>, rest: Option<seq<byte>>) {
    && (rest.None? <==> |Split(dir)| == 1)
    && (rest.Some? ==> Split(rest.value) == Split(dir)[1..])
  }

  lemma {:induction false} SplitPrefix(dir: seq<byte>, n: nat)
    requires n <= |dir| && forall i | 0 <= i < n :: dir[i] != SLASH
    ensures Split(dir)[0] == dir[..n] + Split(dir[n..])[0] && Split(dir)[1..] == Split(dir[n..])[1..]
    ensures |Split(dir)| == |Split(dir[n..])|
    decreases n
  {
    if n == 0 {
      assert dir[0..] == dir;
    } else {
      SplitPrefix(dir[1..], n - 1);
      assert dir[1..][n - 1..] == dir[n..];
      assert dir[..n] == [dir[0]] + dir[1..][..n - 1];
    }
  }

  // get_the_file_name: the component behind the last slash.
  method GetTheFileName(p: seq<byte>, name: array<byte>) returns (index: nat)
    requires name.Length == MAX_FILE_NAME && Short(Split(p))
    modifies name
    ensures index < name.Length && name[..index] == Last(Split(p)) && name[index] == 0
  {
    hide Split, Rest;
    index := 0;
    var i := 0;
    assert p[0..] == p;
    RestStart(p);
    while i < |p|
      invariant 0 <= i <= |p| && 0 <= index < name.Length
      invariant Rest(p[i..], name[..index]) == Last(Split(p))
      invariant forall c :: c in Split(p[i..])[1..] ==> |c| < MAX_FILE_NAME
      invariant index + |Split(p[i..])[0]| < MAX_FILE_NAME
    {
      ghost var before := name[..index];
      assert p[i..][1..] == p[i + 1..];
      if p[i] == SLASH {
        index := 0;
        RestSlash(p[i..], before);
      } else {
        RestChar(p[i..], before);
        name[index] := p[i];
        index := index + 1;
        assert name[..index] == before + [p[i]];
      }
      i := i + 1;
    }
    name[index] := 0;
    assert p[i..] == [];
    RestEnd(name[..index]);
  }

  // The last component of a path that goes on with p in a component begun with b.
  function Rest(p: seq<byte>, b: seq<byte>): seq<byte> {
    if |Split(p)| == 1 then b + Split(p)[0] else Last(Split(p))
  }

  lemma RestStart(p: seq<byte>)
    requires Short(Split(p))
    ensures Rest(p, []) == Last(Split(p)) && |Split(p)[0]| < MAX_FILE_NAME
    ensures forall c :: c in Split(p)[1..] ==> |c| < MAX_FILE_NAME
  {
    hide Split;
    assert Split(p)[0] in Split(p);
    assert [] + Split(p)[0] == Split(p)[0];
  }

  lemma RestEnd(b: seq<byte>)
    ensures Rest([], b) == b
  {
    assert b + [] == b;
  }

  lemma RestSlash(p: seq<byte>, b: seq<byte>)
    requires p != [] && p[0] == SLASH
    ensures Rest(p, b) == Rest(p[1..], [])
    ensures Split(p)[1..] == Split(p[1..]) && Split(p[1..])[0] in Split(p)[1..]
    ensures forall c :: c in Split(p[1..])[1..] ==> c in Split(p)[1..]
  {
    assert Split(p) == [[]] + Split(p[1..]);
    hide Split;
    assert [] + Split(p[1..])[0] == Split(p[1..])[0];
  }

  lemma RestChar(p: seq<byte>, b: seq<byte>)
    requires p != [] && p[0] != SLASH
    ensures Rest(p, b) == Rest(p[1..], b + [p[0]])
    ensures Split(p)[0] == [p[0]] + Split(p[1..])[0] && Split(p)[1..] == Split(p[1..])[1..]
  {
    hide Split;
    SplitChar(p);
    AddChar(b, p[0], Split(p[1..])[0]);
  }

  lemma SplitChar(p: seq<byte>)
    requires p != [] && p[0] != SLASH
    ensures var s, t := Split(p), Split(p[1..]);
      |s| == |t| && s[0] == [p[0]] + t[0] && s[1..] == t[1..] && (|t| > 1 ==> Last(s) == Last(t))
  {
  }

  lemma AddChar(b: seq<byte>, c: byte, t: seq<byte>)
    ensures b + ([c] + t) == b + [c] + t
  {
  }

  // romfs_get_first_file_header, on the sector read from address 0.
  function FirstHeader(sector: seq<byte>): nat
    requires |sector| == SECTOR
  {
    Masked(|CStr(sector[16..])| + 16 + 16)
  }

  function ToInode(found: Option<FileNode>): Option<Inode> {
    match found
    case None => None
    case Some(n) => Some(Inode(n.name, |Data(n)|, n.offset))
  }

  // What is readable is readable from each of its nodes on.
  lemma {:induction false} ReadableFrom(dev: seq<byte>, storage: nat, ns: seq<FileNode>, o: nat)
    requires ReadableAll(dev, storage, ns)
    ensures ReadableAll(dev, storage, NodesAt(ns, o))
    decreases ns
  {
    if ns != [] && ns[0].offset != o {
      Front(dev, storage, ns);
      hide ReadableAll;
      if ns[0].body.Dir? { ReadableFrom(dev, storage, ns[0].body.children, o); }
      ReadableFrom(dev, storage, ns[1..], o);
    }
  }

  // Where the reader goes next: the nodes it will see are `rest`.
  ghost predicate Heading(dev: seq<byte>, storage: nat, rest: seq<FileNode>, addr: nat) {
    && addr == (if rest == [] then 0 else rest[0].offset)
    && ReadableAll(dev, storage, rest)
  }

  // The names still to be matched: the buffer reads as the first of them, and the others
  // will be read from dir.
  ghost predicate Parsed(names: seq<seq<byte>>, last: seq<byte>, buf: seq<byte>, dir: Option<seq<byte>>) {
    && names != [] && Last(names) == last && |buf| == MAX_FILE_NAME && CStr(buf) == names[0]
    && (dir.None? <==> |names| == 1)
    && (dir.Some? ==> Short(Split(dir.value)) && Names(buf, Split(dir.value)) == names[1..])
  }

  // What bmap has taken from dir, and what it has left.
  lemma Parse(buf: seq<byte>, dir: seq<byte>, last: seq<byte>, rest: Option<seq<byte>>)
    requires |buf| == MAX_FILE_NAME && Short(Split(dir)) && Last(Names(buf, Split(dir))) == last
    requires Cut(dir, rest) && |Split(dir)[0]| < MAX_FILE_NAME
    ensures Parsed(Names(buf, Split(dir)), last, Copied(buf, Split(dir)[0], rest.None?), rest)
  {
    hide Split, Copied, CStr;
    var comps := Split(dir);
    assert Names(buf, comps)[1..] == Names(Copied(buf, comps[0], |comps| == 1), comps[1..]);
  }

  lemma NoSlash(dir: seq<byte>)
    requires Short(Split(dir))
    ensures SLASH !in dir ==> |dir| < MAX_FILE_NAME
    ensures |Split(dir)[0]| < MAX_FILE_NAME
  {
    assert Split(dir)[0] in Split(dir);
    if SLASH !in dir {
      SplitPrefix(dir, |dir|);
      assert dir[..|dir|] + [] == dir;
    }
  }

  // The search that is left gives the result wanted.
  ghost predicate Searching(root: seq<FileNode>, rest: seq<FileNode>, comps: seq<seq<byte>>,
                            last: seq<byte>, found: Option<FileNode>) {
    && comps != [] && Last(comps) == last
    && Plain(root, rest, UpTo(comps, last)) && Walk(root, rest, UpTo(comps, last)) == found
  }

  // simple_romfs_namei on a device whose nodes are readable from the first header on. The
  // buffer for names holds whatever the stack held, up to a zero.
  method Namei(dev: seq<byte>, storage: nat, path: seq<byte>, name: array<byte>, ghost ns: seq<FileNode>)
    returns (r: Option<Inode>)
    requires |dev| >= SECTOR && ns != [] && FirstHeader(dev[..SECTOR]) == ns[0].offset
    requires name.Length == MAX_FILE_NAME && name[MAX_FILE_NAME - 1] == 0
    requires 0 !in path && Short(Split(path)) && ReadableAll(dev, storage, ns)
    requires Plain(ns, ns, Truncate(Names(name[..], Split(path))))
    modifies name
    ensures r == ToInode(Walk(ns, ns, Truncate(old(Names(name[..], Split(path))))))
  {
    hide Parsed, Heading, Searching, Plain, Walk, Below, Readable, ReadableAll, Be32ToLe32, FromBe, Split, UpTo;
    hide CStr, Cut, Names, Copied, Short, NoZero;
    ghost var names, last := Names(name[..], Split(path)), Last(Split(path));
    ghost var found, buf := Walk(ns, ns, Truncate(names)), name[..];
    LastRead(buf, path);
    NoSlash(path);
    var buffer := new byte[MAX_FILE_NAME];
    var len := GetTheFileName(path, buffer);
    var fname := buffer[..len];
    var dir := Bmap(name, path);
    var next: nat := FirstHeader(dev[..SECTOR]);
    var first := true;
    ghost var rest := ns;
    FirstHeading(dev, storage, ns);
    Parse(buf, path, last, dir);
    StartSearch(ns, names, last);
    while true
      invariant Parsed(names, last, name[..], dir) && fname == last && next < WORD_RANGE
      invariant Heading(dev, storage, rest, if first then Masked(next) else Masked(Be32ToLe32(next)))
      invariant Searching(ns, rest, names, last, found)
      decreases |names|, rest
    {
      var tmp := if first then Masked(next) else Masked(Be32ToLe32(next));
      first := false;
      if tmp >= storage || tmp == 0 {
        Nothing(dev, storage, ns, rest, tmp, names, last, found);
        return None;
      }
      HereIs(dev, storage, rest, tmp);
      var p := dev[tmp..tmp + SECTOR];
      if CStr(p[16..]) == CStr(name[..]) {
        if CStr(name[..]) == fname {
          Match(ns, rest, names, last, found, name[..], dir);
          return Some(MakeInode(p, tmp));
        }
        Descend(dev, storage, ns, rest, tmp, names, last, found, name[..], dir);
        ghost var behind := dir.value;
        buf := name[..];
        NoSlash(behind);
        dir := Bmap(name, dir.value);
        next := LoadLe(p[4..8]);
        Parse(buf, behind, last, dir);
        rest, names := Below(ns, rest), names[1..];
        if dir == None {
          break;
        }
      } else {
        Sideways(dev, storage, ns, rest, tmp, names, last, found, name[..], dir);
        next := LoadLe(p[..4]);
        rest := rest[1..];
      }
    }
    r := FindInDirectory(dev, storage, next, name, ns, rest, names, last, found);
  }

  lemma {:induction false} NoZeroSplit(path: seq<byte>)
    requires 0 !in path
    ensures NoZero(Split(path))
  {
    if path != [] {
      var t := Split(path[1..]);
      NoZeroSplit(path[1..]);
      assert t[0] in t && forall c :: c in t[1..] ==> c in t;
    }
  }

  lemma LastRead(buf: seq<byte>, path: seq<byte>)
    requires |buf| == MAX_FILE_NAME && 0 !in path && Short(Split(path))
    ensures Last(Names(buf, Split(path))) == Last(Split(path))
  {
    NoZeroSplit(path);
    LastName(buf, Split(path));
  }

  lemma StartSearch(ns: seq<FileNode>, comps: seq<seq<byte>>, last: seq<byte>)
    requires comps != [] && Last(comps) == last && Plain(ns, ns, Truncate(comps))
    ensures Searching(ns, ns, comps, last, Walk(ns, ns, Truncate(comps)))
  {
    hide Plain, Walk, UpTo;
  }

  // The second loop: the last component is searched among the entries of one directory.
  method FindInDirectory(dev: seq<byte>, storage: nat, next0: nat, name: array<byte>, ghost root: seq<FileNode>,
                         ghost rest0: seq<FileNode>, ghost comps: seq<seq<byte>>, ghost last: seq<byte>,
                         ghost found: Option<FileNode>)
    returns (r: Option<Inode>)
    requires next0 < WORD_RANGE && Heading(dev, storage, rest0, Masked(Be32ToLe32(next0)))
    requires Searching(root, rest0, comps, last, found) && Parsed(comps, last, name[..], None)
    ensures r == ToInode(found)
  {
    hide Parsed, Heading, Searching, Plain, Walk, Readable, ReadableAll, Be32ToLe32, FromBe, Split, UpTo, CStr;
    var next: nat := next0;
    ghost var rest := rest0;
    while true
      invariant next < WORD_RANGE && Heading(dev, storage, rest, Masked(Be32ToLe32(next)))
      invariant Searching(root, rest, comps, last, found)
      decreases rest
    {
      var tmp := Masked(Be32ToLe32(next));
      if tmp == 0 {
        Nothing(dev, storage, root, rest, tmp, comps, last, found);
        return None;
      }
      HereIs(dev, storage, rest, tmp);
      var p := dev[tmp..tmp + SECTOR];
      if CStr(p[16..]) == CStr(name[..]) {
        Match(root, rest, comps, last, found, name[..], None);
        return Some(MakeInode(p, tmp));
      }
      Sideways(dev, storage, root, rest, tmp, comps, last, found, name[..], None);
      next := LoadLe(p[..4]);
      rest := rest[1..];
    }
  }

  // The inode filled in from the header in p, which was read at address tmp.
  function MakeInode(p: seq<byte>, tmp: nat): (i: Inode)
    requires |p| == SECTOR
    ensures i == Inode(CStr(p[16..]), FromBe(p[8..12]), tmp)
  {
    SwapReads(p[8..12]);
    Inode(CStr(p[16..]), Be32ToLe32(LoadLe(p[8..12])), tmp)
  }

  // What the first readable node of a list shows.
  lemma Front(dev: seq<byte>, storage: nat, rest: seq<FileNode>)
    requires rest != [] && ReadableAll(dev, storage, rest)
    ensures var o := rest[0].offset;
      && 0 < o < storage && o + SECTOR <= |dev| && o % 16 == 0
      && Masked(FromBe(dev[o..o + 4])) == NextOf(rest) && FromBe(dev[o + 4..o + 8]) == Spec(rest[0])
      && FromBe(dev[o + 8..o + 12]) == |Data(rest[0])| && CStr(dev[o + 16..o + SECTOR]) == rest[0].name
    ensures ReadableAll(dev, storage, rest[1..])
    ensures rest[0].body.Dir? ==> ReadableAll(dev, storage, rest[0].body.children)
  {
    hide FromBe, CStr, Data, Spec, Masked;
    var r := Readable(dev, storage, rest[0], NextOf(rest));
  }

  lemma FirstHeading(dev: seq<byte>, storage: nat, ns: seq<FileNode>)
    requires |dev| >= SECTOR && ns != [] && FirstHeader(dev[..SECTOR]) == ns[0].offset
    requires ReadableAll(dev, storage, ns)
    ensures FirstHeader(dev[..SECTOR]) < WORD_RANGE
    ensures Heading(dev, storage, ns, Masked(FirstHeader(dev[..SECTOR])))
  {
    Front(dev, storage, ns);
  }

  // Address 0 ends a list; the nodes of the tree lie below the end of the device.
  lemma Nothing(dev: seq<byte>, storage: nat, root: seq<FileNode>, rest: seq<FileNode>, tmp: nat,
                comps: seq<seq<byte>>, last: seq<byte>, found: Option<FileNode>)
    requires Heading(dev, storage, rest, tmp) && Searching(root, rest, comps, last, found)
    requires tmp >= storage || tmp == 0
    ensures found == None
  {
    if rest != [] {
      Front(dev, storage, rest);
      assert false;
    }
  }

  lemma HereIs(dev: seq<byte>, storage: nat, rest: seq<FileNode>, tmp: nat)
    requires Heading(dev, storage, rest, tmp) && tmp != 0
    ensures rest != [] && tmp == rest[0].offset && tmp + SECTOR <= |dev|
    ensures var p := dev[tmp..tmp + SECTOR];
      && CStr(p[16..]) == rest[0].name && FromBe(p[8..12]) == |Data(rest[0])|
      && FromBe(p[4..8]) == Spec(rest[0]) && Masked(FromBe(p[..4])) == NextOf(rest)
  {
    hide Readable, ReadableAll, FromBe, CStr, Masked, Data, Spec;
    var o := rest[0].offset;
    Front(dev, storage, rest);
    var p := dev[tmp..tmp + SECTOR];
    assert p[16..] == dev[o + 16..o + SECTOR] && p[8..12] == dev[o + 8..o + 12];
    assert p[4..8] == dev[o + 4..o + 8] && p[..4] == dev[o..o + 4];
  }

  lemma Match(root: seq<FileNode>, rest: seq<FileNode>, comps: seq<seq<byte>>, last: seq<byte>,
              found: Option<FileNode>, buf: seq<byte>, dir: Option<seq<byte>>)
    requires Searching(root, rest, comps, last, found) && Parsed(comps, last, buf, dir)
    requires rest != [] && rest[0].name == CStr(buf) && (CStr(buf) == last || dir.None?)
    ensures found == Some(rest[0])
  {
  }

  lemma Sideways(dev: seq<byte>, storage: nat, root: seq<FileNode>, rest: seq<FileNode>, tmp: nat,
                 comps: seq<seq<byte>>, last: seq<byte>, found: Option<FileNode>, buf: seq<byte>,
                 dir: Option<seq<byte>>)
    requires Heading(dev, storage, rest, tmp) && tmp != 0 && rest != [] && tmp + SECTOR <= |dev|
    requires Searching(root, rest, comps, last, found) && Parsed(comps, last, buf, dir) && rest[0].name != CStr(buf)
    requires Masked(FromBe(dev[tmp..tmp + SECTOR][..4])) == NextOf(rest)
    ensures Heading(dev, storage, rest[1..], Masked(Be32ToLe32(LoadLe(dev[tmp..tmp + SECTOR][..4]))))
    ensures Searching(root, rest[1..], comps, last, found)
  {
    SwapReads(dev[tmp..tmp + SECTOR][..4]);
  }

  lemma StepDown(root: seq<FileNode>, ns: seq<FileNode>, cs: seq<seq<byte>>)
    requires ns != [] && |cs| > 1 && ns[0].name == cs[0] && Plain(root, ns, cs)
    ensures Plain(root, Below(root, ns), cs[1..]) && Walk(root, ns, cs) == Walk(root, Below(root, ns), cs[1..])
    ensures Leads(root, ns[0])
  {
  }

  lemma BelowHeading(dev: seq<byte>, storage: nat, root: seq<FileNode>, rest: seq<FileNode>)
    requires rest != [] && ReadableAll(dev, storage, root) && ReadableAll(dev, storage, rest) && Leads(root, rest[0])
    ensures Heading(dev, storage, Below(root, rest), Masked(Spec(rest[0])))
  {
    hide ReadableAll;
    Front(dev, storage, rest);
    if rest[0].body.Dir? {
      if rest[0].body.children != [] {
        Front(dev, storage, rest[0].body.children);
      }
    } else if Spec(rest[0]) < 16 {
      NoneReadable(dev, storage);
    } else {
      ReadableFrom(dev, storage, root, Masked(Spec(rest[0])));
    }
  }

  lemma NoneReadable(dev: seq<byte>, storage: nat)
    ensures ReadableAll(dev, storage, [])
  {
  }

  lemma Descend(dev: seq<byte>, storage: nat, root: seq<FileNode>, rest: seq<FileNode>, tmp: nat,
                comps: seq<seq<byte>>, last: seq<byte>, found: Option<FileNode>, buf: seq<byte>,
                dir: Option<seq<byte>>)
    requires Heading(dev, storage, rest, tmp) && tmp != 0 && rest != [] && tmp + SECTOR <= |dev|
    requires Searching(root, rest, comps, last, found) && Parsed(comps, last, buf, dir)
    requires rest[0].name == CStr(buf) != last && ReadableAll(dev, storage, root)
    requires FromBe(dev[tmp..tmp + SECTOR][4..8]) == Spec(rest[0])
    ensures dir.Some? && |comps| > 1 && Short(Split(dir.value)) && Names(buf, Split(dir.value)) == comps[1..]
    ensures Last(comps[1..]) == last
    ensures Heading(dev, storage, Below(root, rest), Masked(Be32ToLe32(LoadLe(dev[tmp..tmp + SECTOR][4..8]))))
    ensures Searching(root, Below(root, rest), comps[1..], last, found)
  {
    hide Plain, Walk, Readable, ReadableAll, UpTo, Split, Be32ToLe32, LoadLe, FromBe, Below, Leads;
    SwapReads(dev[tmp..tmp + SECTOR][4..8]);
    UpToStep(comps, last);
    StepDown(root, rest, UpTo(comps, last));
    BelowHeading(dev, storage, root, rest);
  }
}
