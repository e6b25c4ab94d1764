// The second pass of genromfs, in place on its head buffer and scratch buffer.
module RomfsWriter {
  import opened Common
  import opened Powers
  import opened RomfsBytes
  import opened RomfsLayout
  import opened RomfsImage

  const BIGBUF: nat := 4096

  // The stream begins with a superblock that gives a sensible size.
  predicate Started(s: seq<byte>) {
    |s| >= 12 && SizeField(s) >= 16
  }

  lemma StartedStays(s: seq<byte>, t: seq<byte>)
    requires Started(s)
    ensures Started(s + t) && (|s| >= HEAD ==> SizeField(s[..HEAD]) == SizeField(s))
  {
    assert (s + t)[8..12] == s[8..12];
    if |s| >= HEAD { assert s[..HEAD][8..12] == s[8..12]; }
  }

  // What the writer needs of a node: an offset, a padding and a header that fit the
  // scratch buffer, and so for its descendants.
  predicate Dumpable(n: FileNode)
    decreases n, 1
  {
    && n.offset > 0 && n.pad <= BIGBUF && HeadLen(n) <= BIGBUF
    && (n.body.Sym? ==> |n.body.target| <= BIGBUF)
    && (n.body.Dir? ==> AllDumpable(n.body.children))
  }

  predicate AllDumpable(ns: seq<FileNode>)
    decreases ns, 0
  {
    ns == [] || (Dumpable(ns[0]) && AllDumpable(ns[1..]))
  }

  class Writer {
    // How many bytes have been passed to DumpData, the first 512 of them, and the file.
    var atoffs: nat
    const fixbuf: array<byte>
    const bigbuf: array<byte>
    var out: seq<byte>
    ghost var stream: seq<byte>

    ghost predicate Valid()
      reads this, fixbuf, bigbuf
    {
      && fixbuf.Length == HEAD && bigbuf.Length == BIGBUF && fixbuf != bigbuf
      && atoffs == |stream|
      && (|stream| < HEAD ==> out == [] && fixbuf[..|stream|] == stream)
      && (|stream| >= HEAD ==> SizeField(stream[..HEAD]) >= 16 && out == File(stream))
    }

    constructor ()
      ensures Valid() && stream == [] && fresh(fixbuf) && fresh(bigbuf)
    {
      atoffs, out, stream := 0, [], [];
      fixbuf := new byte[HEAD];
      bigbuf := new byte[BIGBUF];
    }

    // ---------- checksums in place ----------

    static method RomfsChecksum(data: array<byte>, size: nat) returns (sum: nat)
      requires size <= data.Length
      ensures sum == SumWords(data[..size])
    {
      hide FromBe;
      sum := 0;
      var i := 0;
      while i < size / 4
        invariant i <= size / 4 && sum == SumWords(data[..4 * i])
      {
        SumWordsGrows(data[..4 * i], data[4 * i..4 * i + 4]);
        assert data[..4 * i + 4] == data[..4 * i] + data[4 * i..4 * i + 4];
        sum := (sum + FromBe(data[4 * i..4 * i + 4])) % WORD_RANGE;
        i := i + 1;
      }
      assert data[..size] == data[..4 * i] + data[4 * i..size];
      SumWordsConcat(data[..4 * i], data[4 * i..size]);
    }

    static method StoreChecksum(data: array<byte>, w: nat)
      requires data.Length >= 16 && w < WORD_RANGE
      modifies data
      ensures data[..] == SetChecksum(old(data[..]), w)
    {
      var b := Be32(w);
      data[12], data[13], data[14], data[15] := b[0], b[1], b[2], b[3];
      assert data[..] == old(data[..])[..12] + b + old(data[..])[16..];
    }

    static method FixSumInPlace(data: array<byte>, size: nat)
      requires 16 <= size <= data.Length
      modifies data
      ensures data[..] == FixSum(old(data[..]), size)
    {
      ghost var b := data[..];
      StoreChecksum(data, 0);
      assert data[..size] == SetChecksum(b, 0)[..size];
      var sum := RomfsChecksum(data, size);
      StoreChecksum(data, Negated(sum));
      assert SetChecksum(SetChecksum(b, 0), Negated(sum)) == SetChecksum(b, Negated(sum));
    }

    // ---------- output ----------

    method DumpData(addr: seq<byte>)
      requires Valid() && Started(stream + addr)
      modifies this`atoffs, this`out, this`stream, fixbuf
      ensures Valid() && stream == old(stream) + addr
    {
      if |addr| == 0 {
        assert stream + addr == stream;
        return;
      }
      StartedStays(stream + addr, []);
      assert stream + addr + [] == stream + addr;
      if atoffs >= HEAD {
        FileGrows(stream, addr);
        out := out + addr;
        atoffs := atoffs + |addr|;
        stream := stream + addr;
        return;
      }
      ghost var s := stream + addr;
      var tocopy := Min(|addr|, HEAD - atoffs);
      CopyIn(addr, tocopy);
      if atoffs == HEAD {
        FlushHead(s);
      }
      if |addr| > tocopy {
        out := out + addr[tocopy..];
        atoffs := atoffs + |addr| - tocopy;
        assert s == stream + addr[tocopy..];
        FileGrows(stream, addr[tocopy..]);
      } else {
        assert s == stream;
      }
      stream := s;
    }

    // memcpy of the first bytes into the head buffer.
    method CopyIn(addr: seq<byte>, tocopy: nat)
      requires Valid() && tocopy <= |addr| && atoffs + tocopy <= HEAD && atoffs < HEAD
      modifies this`atoffs, this`stream, fixbuf
      ensures atoffs == old(atoffs) + tocopy <= HEAD && fixbuf.Length == HEAD
      ensures fixbuf[..atoffs] == stream && stream == old(stream) + addr[..tocopy] && atoffs == |stream|
    {
      forall i | 0 <= i < tocopy {
        fixbuf[atoffs + i] := addr[i];
      }
      ghost var s := stream;
      atoffs := atoffs + tocopy;
      stream := stream + addr[..tocopy];
      assert fixbuf[..atoffs] == stream;
    }

    // The head buffer is full: patch it and write it out. s is all that will follow.
    method FlushHead(ghost s: seq<byte>)
      requires fixbuf.Length == HEAD && atoffs == |stream| == HEAD && fixbuf[..HEAD] == stream && out == []
      requires Started(s) && |s| >= HEAD && s[..HEAD] == stream
      modifies this`out, fixbuf
      ensures SizeField(stream[..HEAD]) >= 16 && out == File(stream)
    {
      assert stream[..HEAD] == stream && stream[HEAD..] == [] && fixbuf[..] == stream;
      assert stream[8..12] == s[8..12];
      FixSumInPlace(fixbuf, Min(HEAD, FromBe(fixbuf[8..12])));
      out := out + fixbuf[..HEAD];
    }

    method DumpZero(len: nat)
      requires Valid() && len <= BIGBUF && Started(stream)
      modifies this`atoffs, this`out, this`stream, fixbuf, bigbuf
      ensures Valid() && stream == old(stream) + Zeros(len) && Started(stream)
    {
      StartedStays(stream, Zeros(len));
      forall i | 0 <= i < len {
        bigbuf[i] := 0;
      }
      assert bigbuf[..len] == Zeros(len);
      DumpData(bigbuf[..len]);
    }

    // Data followed by zeroes up to the next multiple of 16.
    method DumpDataA(addr: seq<byte>)
      requires Valid() && Started(stream)
      modifies this`atoffs, this`out, this`stream, fixbuf, bigbuf
      ensures Valid() && stream == old(stream) + (addr + Zeros(Up16(|addr|) - |addr|)) && Started(stream)
    {
      hide Started, File, SizeField;
      StartedStays(stream, addr);
      DumpData(addr);
      if |addr| % 16 != 0 {
        DumpZero(16 - |addr| % 16);
      } else {
        assert Zeros(Up16(|addr|) - |addr|) == [];
      }
    }

    // A header; the superblock, at offset 0, is left for the head buffer to patch.
    method DumpRi(next: nat, spec: nat, size: nat, name: seq<byte>, offset: nat)
      requires Valid() && 16 + Up16(|name| + 1) <= BIGBUF
      requires var raw := RawHeader(next, spec, size, name);
        Started(stream + raw) && Started(stream + FixSum(raw, |raw|))
      modifies this`atoffs, this`out, this`stream, fixbuf, bigbuf
      ensures var raw := RawHeader(next, spec, size, name);
        Valid() && stream == old(stream) + (if offset != 0 then FixSum(raw, |raw|) else raw)
    {
      ghost var raw := RawHeader(next, spec, size, name);
      hide RawHeader, FixSum, File, SizeField;
      var len := BuildHeader(next, spec, size, name);
      if offset != 0 {
        ghost var b := bigbuf[..];
        FixSumInPlace(bigbuf, len);
        FixSumPrefix(b, len);
        assert bigbuf[..len] == bigbuf[..][..len] && b[..len] == raw;
      }
      DumpData(bigbuf[..len]);
    }

    // The header with its name and the zeroes behind it, in the scratch buffer.
    method BuildHeader(next: nat, spec: nat, size: nat, name: seq<byte>) returns (len: nat)
      requires bigbuf.Length == BIGBUF && 16 + Up16(|name| + 1) <= BIGBUF
      modifies bigbuf
      ensures len == 16 + Up16(|name| + 1) && bigbuf[..len] == RawHeader(next, spec, size, name)
    {
      hide Word, NamePart, Zeros;
      var ri := Word(next) + Word(spec) + Word(size) + Word(0x55555555);
      len := |name| + 1;
      CopyTo(0, ri);
      CopyTo(16, name + [0]);
      if len % 16 != 0 {
        CopyTo(16 + len, Zeros(16 - len % 16));
        len := len + (16 - len % 16);
      }
      NamePadded(name, len);
      assert bigbuf[..16 + len] == ri + NamePart(name);
      len := len + 16;
    }

    // memcpy or memset into the scratch buffer.
    method CopyTo(at: nat, bytes: seq<byte>)
      requires bigbuf.Length == BIGBUF && at + |bytes| <= BIGBUF
      modifies bigbuf
      ensures bigbuf[..at + |bytes|] == old(bigbuf[..at]) + bytes
    {
      forall i | 0 <= i < |bytes| {
        bigbuf[at + i] := bytes[i];
      }
    }

    // ---------- the tree ----------

    // The bytes of a file, read and passed on in pieces, then zeroes up to a multiple of 16.
    method DumpFile(data: seq<byte>)
      requires Valid() && Started(stream)
      modifies this`atoffs, this`out, this`stream, fixbuf, bigbuf
      ensures Valid() && Started(stream)
      ensures stream == old(stream) + (data + Zeros(Up16(|data|) - |data|))
    {
      hide Started, File, SizeField;
      var offset := 0;
      var max := |data|;
      ghost var s0 := stream;
      assert s0 == s0 + data[..0];
      while offset < max
        invariant 0 <= offset <= max && Valid() && Started(stream) && stream == s0 + data[..offset]
      {
        var avail := Min(max - offset, BIGBUF);
        StartedStays(stream, data[offset..offset + avail]);
        assert data[..offset + avail] == data[..offset] + data[offset..offset + avail];
        DumpData(data[offset..offset + avail]);
        offset := offset + avail;
      }
      assert data[..offset] == data;
      max := Up16(|data|);
      while offset < max
        invariant |data| <= offset <= max && Valid() && Started(stream)
        invariant stream == s0 + (data + Zeros(offset - |data|))
      {
        var avail := Min(max - offset, BIGBUF);
        assert Zeros(offset - |data|) + Zeros(avail) == Zeros(offset + avail - |data|);
        DumpZero(avail);
        offset := offset + avail;
      }
    }

    // next is the offset of the sibling behind the node, 0 for the last.
    method DumpNode(n: FileNode, next: nat)
      requires Valid() && Started(stream) && Dumpable(n)
      modifies this`atoffs, this`out, this`stream, fixbuf, bigbuf
      ensures Valid() && Started(stream) && stream == old(stream) + EmitNode(n, next)
      decreases n, 1
    {
      hide Started, Header, Content, EmitNode, EmitAll, Dumpable, AllDumpable, File, SizeField;
      ghost var s0 := stream;
      DumpableParts(n);
      EmitParts(s0, n, next);
      if n.pad != 0 {
        DumpZero(n.pad);
      }
      DumpHeader(n, next, |Data(n)|);
      match n.body {
        case Dir(children) => DumpChildren(children);
        case Reg(data) => DumpFile(data);
        case Sym(target) => DumpDataA(target);
        case Special(_, _) =>
        case Hard(_) =>
      }
    }

    method DumpHeader(n: FileNode, next: nat, size: nat)
      requires Valid() && Started(stream) && n.offset > 0 && HeadLen(n) <= BIGBUF && size == |Data(n)|
      modifies this`atoffs, this`out, this`stream, fixbuf, bigbuf
      ensures Valid() && Started(stream) && stream == old(stream) + Header(n, next)
    {
      hide Started, RawHeader, FixSum, File, SizeField;
      ghost var raw := RawHeader(next + TypeBits(n) + ExecBit(n), Spec(n), size, n.name);
      StartedStays(stream, raw);
      StartedStays(stream, FixSum(raw, |raw|));
      DumpRi(next + TypeBits(n) + ExecBit(n), Spec(n), size, n.name, n.offset);
    }

    method DumpChildren(ns: seq<FileNode>)
      requires Valid() && Started(stream) && AllDumpable(ns)
      modifies this`atoffs, this`out, this`stream, fixbuf, bigbuf
      ensures Valid() && Started(stream) && stream == old(stream) + EmitAll(ns)
      decreases ns, 0
    {
      hide Started, EmitNode, EmitAll, Dumpable, AllDumpable, File, SizeField;
      ghost var s0 := stream;
      var i := 0;
      assert ns[0..] == ns;
      while i < |ns|
        invariant 0 <= i <= |ns| && Valid() && Started(stream) && AllDumpable(ns[i..])
        invariant s0 + EmitAll(ns) == stream + EmitAll(ns[i..])
      {
        ghost var s1 := stream;
        FirstChild(ns, i, s1);
        DumpNode(ns[i], if i + 1 < |ns| then ns[i + 1].offset else 0);
        i := i + 1;
      }
      NoChild(ns[i..], stream);
    }

    method DumpAll(vol: seq<byte>, ns: seq<FileNode>, lastoff: nat)
      requires Valid() && stream == [] && AllDumpable(ns)
      requires SuperLen(vol) <= BIGBUF && 16 <= lastoff < WORD_RANGE
      modifies this`atoffs, this`out, this`stream, fixbuf, bigbuf
      ensures Valid() && stream == Stream(vol, ns, lastoff)
    {
      ghost var raw := RawHeader(MAGIC0, MAGIC1, lastoff, vol);
      SizeStored(MAGIC0, MAGIC1, lastoff, vol);
      assert [] + raw == raw && [] + FixSum(raw, |raw|) == FixSum(raw, |raw|);
      assert FixSum(raw, |raw|)[8..12] == FixSum(raw, |raw|)[..12][8..] == raw[..12][8..] == raw[8..12];
      DumpRi(MAGIC0, MAGIC1, lastoff, vol, 0);
      DumpChildren(ns);
      if lastoff % BLOCK != 0 {
        DumpZero(BLOCK - lastoff % BLOCK);
      } else {
        assert Zeros(0) == [];
      }
    }
  }

  lemma NamePadded(name: seq<byte>, len: nat)
    requires len == Up16(|name| + 1)
    ensures NamePart(name) == name + [0] + Zeros(len - (|name| + 1))
  {
  }

  lemma DumpableParts(n: FileNode)
    requires Dumpable(n)
    ensures n.offset > 0 && n.pad <= BIGBUF && HeadLen(n) <= BIGBUF
    ensures n.body.Sym? ==> |n.body.target| <= BIGBUF
    ensures n.body.Dir? ==> AllDumpable(n.body.children)
  {
  }

  // Emitting the parts of a node one after another.
  lemma EmitParts(s: seq<byte>, n: FileNode, next: nat)
    ensures n.pad == 0 ==> s + Zeros(n.pad) == s
    ensures Content(n) == Data(n) + Zeros(Up16(|Data(n)|) - |Data(n)|)
    ensures var s1 := s + Zeros(n.pad) + Header(n, next);
      && (n.body.Dir? ==> s1 + EmitAll(n.body.children) == s + EmitNode(n, next))
      && (!n.body.Dir? ==> s1 + Content(n) == s + EmitNode(n, next))
      && (n.body.Special? || n.body.Hard? ==> s1 == s + EmitNode(n, next))
  {
    hide Header, EmitAll;
    var s1 := s + Zeros(n.pad) + Header(n, next);
    if n.body.Dir? {
      assert Content(n) == [];
      assert EmitNode(n, next) == Zeros(n.pad) + Header(n, next) + EmitAll(n.body.children);
    } else {
      assert EmitNode(n, next) == Zeros(n.pad) + Header(n, next) + Content(n);
      if n.body.Special? || n.body.Hard? {
        assert Content(n) == [];
        assert s1 + Content(n) == s1;
      }
    }
  }

  lemma FirstChild(ns: seq<FileNode>, i: nat, s: seq<byte>)
    requires i < |ns| && AllDumpable(ns[i..])
    ensures Dumpable(ns[i]) && AllDumpable(ns[i + 1..])
    ensures s + EmitAll(ns[i..]) ==
      s + EmitNode(ns[i], if i + 1 < |ns| then ns[i + 1].offset else 0) + EmitAll(ns[i + 1..])
  {
    var t := ns[i..];
    assert t[0] == ns[i] && t[1..] == ns[i + 1..] && t != [];
    assert |t| > 1 ==> t[1] == ns[i + 1];
    hide Dumpable, EmitNode;
    assert EmitAll(t) == EmitNode(t[0], NextOf(t)) + EmitAll(t[1..]);
  }

  lemma NoChild(ns: seq<FileNode>, s: seq<byte>)
    requires ns == []
    ensures s + EmitAll(ns) == s
  {
  }

  lemma FileGrows(s: seq<byte>, t: seq<byte>)
    requires |s| >= HEAD && SizeField(s[..HEAD]) >= 16
    ensures (s + t)[..HEAD] == s[..HEAD] && File(s + t) == File(s) + t
  {
    assert (s + t)[..HEAD] == s[..HEAD] && (s + t)[HEAD..] == s[HEAD..] + t;
  }

  lemma SumWordsGrows(a: seq<byte>, w: seq<byte>)
    requires |a| % 4 == 0 && |w| == 4
    ensures SumWords(a + w) == (SumWords(a) + FromBe(w)) % WORD_RANGE
  {
    hide FromBe, SumWords;
    SumWordsConcat(a, w);
    SumWordsOne(w);
  }

  // Bytes behind those summed do not matter.
  lemma FixSumPrefix(b: seq<byte>, len: nat)
    requires 16 <= len <= |b|
    ensures FixSum(b, len)[..len] == FixSum(b[..len], len)
  {
    hide SetChecksum, SumWords;
    ChecksumPrefix(b, 0, len);
    assert SetChecksum(b[..len], 0)[..len] == SetChecksum(b[..len], 0);
    ChecksumPrefix(b, Negated(SumWords(SetChecksum(b, 0)[..len])), len);
  }
}
