// The section page table that init_sys_mmu builds, and what it makes of addresses. Words
// and addresses are numbers below 2^32.
module Mmu {
  import opened Bits
  import opened Common
  import opened Powers

  const SECTION: nat := 0x100000
  const PAGE_TABLE_BASE_ADDR: nat := 0x33200000
  const BITS_L1_SECTION: nat := 0x2
  const AP_DEFAULT: nat := 0x400
  const NO_CACHE_AND_WB: nat := 0x0
  const DOMAIN_DEFAULT: nat := 0x0

  const PHYSICAL_MEM_ADDR: nat := 0x30000000
  const VIRTUAL_MEM_ADDR: nat := 0x30000000
  const MEM_MAP_SIZE: nat := 0x4000000
  const PHYSICAL_IO_ADDR: nat := 0x48000000
  const VIRTUAL_IO_ADDR: nat := 0x48000000
  const IO_MAP_SIZE: nat := 0x18000000
  const PHYSICAL_VECTOR_ADDR: nat := 0x30000000
  const VIRTUAL_VECTOR_ADDR: nat := 0x0
  const VECTOR_MAP_SIZE: nat := 0x100000

  const SECTION_MASK: nat := 0xfff00000
  const TABLE_MASK: nat := 0xffffc000

  // gen_l1_pte
  function GenL1Pte(paddr: nat): nat {
    Or(And(paddr, SECTION_MASK), BITS_L1_SECTION)
  }

  // gen_l1_pte_addr
  function GenL1PteAddr(baddr: nat, vaddr: nat): nat {
    Or(And(baddr, TABLE_MASK), Shr(And(vaddr, SECTION_MASK), 18))
  }

  // The parts of an address: the section it lies in, and the rest.
  lemma SectionMask(a: nat)
    requires a < WORD_RANGE
    ensures And(a, SECTION_MASK) == a / SECTION * SECTION && a / SECTION < 0x1000
  {
    MaskSizes();
    AndHigh(a / SECTION, a % SECTION, 20, 12);
  }

  lemma MaskSizes()
    ensures Pow2(12) == 0x1000 && Pow2(14) == 0x4000 && Pow2(18) == 0x40000 && Pow2(20) == 0x100000
  {
    Pow2Small();
    assert Pow2(12) == 16 * Pow2(8);
    assert Pow2(16) == 16 * Pow2(12);
    assert Pow2(20) == 16 * Pow2(16);
  }

  // A descriptor is the base of its section with the bits that make it a section and
  // those that allow access; the domain and cache bits are zero.
  lemma PteValue(paddr: nat)
    requires paddr < WORD_RANGE
    ensures GenL1Pte(paddr) == paddr / SECTION * SECTION + BITS_L1_SECTION
    ensures Or(GenL1Pte(paddr), AP_DEFAULT) == paddr / SECTION * SECTION + AP_DEFAULT + BITS_L1_SECTION
  {
    SectionMask(paddr);
    MaskSizes();
    var q := paddr / SECTION;
    OrLow(q, BITS_L1_SECTION, 20);
    PteBits(q);
  }

  lemma PteBits(q: nat)
    ensures Or(Compose(q, 2, 20), 0x400) == Compose(q, 0x402, 20)
  {
    hide Or;
    OrLow(q, 2, 20);
    OrAssociative(Compose(q, 0, 20), 2, 0x400);
    MaskSizes();
    Or402();
    OrLow(q, 0x402, 20);
  }

  lemma Or402()
    ensures Or(2, 0x400) == 0x402
  {
    OrUnfold(2, 0x400);
    OrUnfold(1, 0x200);
  }

  // A slot lies in the table, four bytes for each section number.
  lemma PteAddrValue(baddr: nat, vaddr: nat)
    requires baddr < WORD_RANGE && vaddr < WORD_RANGE
    ensures GenL1PteAddr(baddr, vaddr) == baddr / 0x4000 * 0x4000 + vaddr / SECTION * 4
  {
    hide Or, And, Shr;
    SectionMask(vaddr);
    MaskSizes();
    ShrCompose(4 * (vaddr / SECTION), 0, 18);
    AndHigh(baddr / 0x4000, baddr % 0x4000, 14, 18);
    OrLow(baddr / 0x4000, vaddr / SECTION * 4, 14);
  }

  // ---------- the translation (ARM Architecture Reference Manual DDI 0100, chapter B4) ----------

  // Bits 31 to 14 of the table base and bits 31 to 20 of the address pick the first-level
  // descriptor. A section descriptor ends in the bits 10, and its bits 31 to 20 replace
  // those of the address; anything else is not a section.
  function Translate(words: map<nat, nat>, ttb: nat, va: nat): Option<nat> {
    var a := ttb / 0x4000 * 0x4000 + va / SECTION * 4;
    if a in words && words[a] % 4 == 2 then Some(words[a] / SECTION * SECTION + va % SECTION) else None
  }

  // The access permission bits, the domain and the cache bits of a section.
  function Attributes(words: map<nat, nat>, ttb: nat, va: nat): Option<nat> {
    var a := ttb / 0x4000 * 0x4000 + va / SECTION * 4;
    if a in words then Some(words[a] % SECTION / 4) else None
  }

  // ---------- slots ----------

  // The slot of section number s.
  function Slot(s: nat): nat { PAGE_TABLE_BASE_ADDR + 4 * s }

  // Distinct sections have distinct slots, one after another.
  lemma SlotsDistinct(va1: nat, va2: nat)
    requires va1 < WORD_RANGE && va2 < WORD_RANGE
    ensures GenL1PteAddr(PAGE_TABLE_BASE_ADDR, va1) == Slot(va1 / SECTION)
    ensures GenL1PteAddr(PAGE_TABLE_BASE_ADDR, va1) == GenL1PteAddr(PAGE_TABLE_BASE_ADDR, va2)
      <==> va1 / SECTION == va2 / SECTION
  {
    hide GenL1PteAddr;
    PteAddrValue(PAGE_TABLE_BASE_ADDR, va1);
    PteAddrValue(PAGE_TABLE_BASE_ADDR, va2);
  }

  // The word at a is the slot of one of the n sections from number `first` on.
  predicate InWindow(a: nat, first: nat, n: nat) {
    a % 4 == 0 && Slot(first) <= a < Slot(first + n)
  }

  // The descriptor that maps a section to the one with physical number p.
  function Descriptor(p: nat): nat {
    p * SECTION + AP_DEFAULT + BITS_L1_SECTION
  }

  // Memory with the n sections from number `first` on mapped to those from number p on.
  function Mapped(words: map<nat, nat>, first: nat, p: nat, n: nat): map<nat, nat> {
    if n == 0 then words else Mapped(words, first, p, n - 1)[Slot(first + n - 1) := Descriptor(p + n - 1)]
  }

  // The words of the window are the descriptors; all other words are unchanged.
  lemma {:induction false} MappedWords(words: map<nat, nat>, first: nat, p: nat, n: nat)
    ensures forall s | first <= s < first + n ::
      Slot(s) in Mapped(words, first, p, n) && Mapped(words, first, p, n)[Slot(s)] == Descriptor(p + (s - first))
    ensures forall a: nat | !InWindow(a, first, n) ::
      (a in Mapped(words, first, p, n) <==> a in words) && (a in words ==> Mapped(words, first, p, n)[a] == words[a])
  {
    if n > 0 {
      MappedWords(words, first, p, n - 1);
    }
  }

  // A mapped section translates with its offset kept.
  lemma SectionTranslates(words: map<nat, nat>, first: nat, p: nat, n: nat, va: nat)
    requires first <= va / SECTION < first + n
    ensures Translate(Mapped(words, first, p, n), PAGE_TABLE_BASE_ADDR, va)
      == Some((p + (va / SECTION - first)) * SECTION + va % SECTION)
    ensures Attributes(Mapped(words, first, p, n), PAGE_TABLE_BASE_ADDR, va) == Some(AP_DEFAULT / 4)
  {
    hide Mapped;
    MappedWords(words, first, p, n);
    assert Slot(va / SECTION) == PAGE_TABLE_BASE_ADDR / 0x4000 * 0x4000 + va / SECTION * 4;
    DescriptorParts(p + (va / SECTION - first));
  }

  lemma DescriptorParts(p: nat)
    ensures Descriptor(p) % 4 == 2 && Descriptor(p) / SECTION == p && Descriptor(p) % SECTION / 4 == AP_DEFAULT / 4
  {
  }

  // Other windows do not matter.
  lemma OtherTranslates(words: map<nat, nat>, first: nat, p: nat, n: nat, va: nat)
    requires !(first <= va / SECTION < first + n)
    ensures Translate(Mapped(words, first, p, n), PAGE_TABLE_BASE_ADDR, va)
      == Translate(words, PAGE_TABLE_BASE_ADDR, va)
  {
    hide Mapped;
    MappedWords(words, first, p, n);
    assert Slot(va / SECTION) == PAGE_TABLE_BASE_ADDR / 0x4000 * 0x4000 + va / SECTION * 4;
    assert !InWindow(Slot(va / SECTION), first, n);
  }

  // ---------- init_sys_mmu ----------

  const VECTOR_SECTIONS: nat := VECTOR_MAP_SIZE / SECTION
  const MEM_SECTIONS: nat := MEM_MAP_SIZE / SECTION
  const IO_SECTIONS: nat := IO_MAP_SIZE / SECTION

  // Memory after the three loops.
  function Tables(words: map<nat, nat>): map<nat, nat> {
    var w1 := Mapped(words, VIRTUAL_VECTOR_ADDR / SECTION, PHYSICAL_VECTOR_ADDR / SECTION, VECTOR_SECTIONS);
    var w2 := Mapped(w1, VIRTUAL_MEM_ADDR / SECTION, PHYSICAL_MEM_ADDR / SECTION, MEM_SECTIONS);
    Mapped(w2, VIRTUAL_IO_ADDR / SECTION, PHYSICAL_IO_ADDR / SECTION, IO_SECTIONS)
  }

  predicate InMem(va: nat) { VIRTUAL_MEM_ADDR <= va < VIRTUAL_MEM_ADDR + MEM_MAP_SIZE }
  predicate InIo(va: nat) { VIRTUAL_IO_ADDR <= va < VIRTUAL_IO_ADDR + IO_MAP_SIZE }
  predicate InVector(va: nat) { va < VECTOR_MAP_SIZE }

  // Addresses of memory and of the registers are translated to themselves, the first
  // megabyte to the start of memory, and all others as before.
  lemma TablesTranslate(words: map<nat, nat>, va: nat)
    requires va < WORD_RANGE
    ensures Translate(Tables(words), PAGE_TABLE_BASE_ADDR, va) ==
      if InMem(va) || InIo(va) then Some(va)
      else if InVector(va) then Some(PHYSICAL_VECTOR_ADDR + va)
      else Translate(words, PAGE_TABLE_BASE_ADDR, va)
  {
    hide Mapped, Translate;
    var w1 := Mapped(words, 0, 0x300, 1);
    var w2 := Mapped(w1, 0x300, 0x300, 0x40);
    if InIo(va) {
      SectionTranslates(w2, 0x480, 0x480, 0x180, va);
    } else {
      OtherTranslates(w2, 0x480, 0x480, 0x180, va);
      if InMem(va) {
        SectionTranslates(w1, 0x300, 0x300, 0x40, va);
      } else {
        OtherTranslates(w1, 0x300, 0x300, 0x40, va);
        if InVector(va) {
          SectionTranslates(words, 0, 0x300, 1, va);
        } else {
          OtherTranslates(words, 0, 0x300, 1, va);
        }
      }
    }
  }

  // No word but the 449 slots is written.
  lemma TablesElsewhere(words: map<nat, nat>, a: nat)
    requires !InWindow(a, 0, 1) && !InWindow(a, 0x300, 0x40) && !InWindow(a, 0x480, 0x180)
    ensures (a in Tables(words) <==> a in words) && (a in words ==> Tables(words)[a] == words[a])
  {
    hide Mapped, InWindow;
    var w1 := Mapped(words, 0, 0x300, 1);
    var w2 := Mapped(w1, 0x300, 0x300, 0x40);
    MappedWords(words, 0, 0x300, 1);
    MappedWords(w1, 0x300, 0x300, 0x40);
    MappedWords(w2, 0x480, 0x480, 0x180);
  }

  // The table at 0x33200000 in numbers: each section of memory and of the registers has its
  // own number, the first one that of the start of memory; each may be read and written by
  // the kernel (access bits 01 from bit 10 on), in domain 0, not cached, not buffered.
  ghost predicate InTable(words: map<nat, nat>) {
    && 0x33200000 in words && words[0x33200000] == 0x30000402
    && forall s: nat {:trigger Slot(s)} | 0x300 <= s < 0x340 || 0x480 <= s < 0x600 ::
         Slot(s) == 0x33200000 + 4 * s && Slot(s) in words && words[Slot(s)] == s * 0x100000 + 0x402
  }

  // The words outside the table's 449 slots are as before.
  ghost predicate OthersKept(was: map<nat, nat>, words: map<nat, nat>) {
    forall a: nat |
      !(a % 4 == 0 && (a == 0x33200000 || 0x33200c00 <= a < 0x33200d00 || 0x33201200 <= a < 0x33201800)) ::
      (a in words <==> a in was) && (a in was ==> words[a] == was[a])
  }

  lemma TablesInTable(words: map<nat, nat>)
    ensures InTable(Tables(words)) && OthersKept(words, Tables(words))
  {
    hide Mapped, Tables, Descriptor;
    var w1 := Mapped(words, 0, 0x300, 1);
    var w2 := Mapped(w1, 0x300, 0x300, 0x40);
    TablesAre(words);
    MappedWords(words, 0, 0x300, 1);
    MappedWords(w1, 0x300, 0x300, 0x40);
    MappedWords(w2, 0x480, 0x480, 0x180);
    forall s: nat | 0x300 <= s < 0x340 || 0x480 <= s < 0x600
      ensures Slot(s) == 0x33200000 + 4 * s && Slot(s) in Tables(words)
      ensures Tables(words)[Slot(s)] == s * 0x100000 + 0x402
    {
      DescriptorIs(s);
      if s < 0x340 { assert !InWindow(Slot(s), 0x480, 0x180); }
    }
    DescriptorIs(0x300);
    assert Slot(0) == 0x33200000 && !InWindow(Slot(0), 0x300, 0x40) && !InWindow(Slot(0), 0x480, 0x180);
    forall a: nat |
      !(a % 4 == 0 && (a == 0x33200000 || 0x33200c00 <= a < 0x33200d00 || 0x33201200 <= a < 0x33201800))
      ensures (a in Tables(words) <==> a in words) && (a in words ==> Tables(words)[a] == words[a])
    {
      TablesElsewhere(words, a);
    }
  }

  lemma TablesAre(words: map<nat, nat>)
    ensures Tables(words) == Mapped(Mapped(Mapped(words, 0, 0x300, 1), 0x300, 0x300, 0x40), 0x480, 0x480, 0x180)
  {
    hide Mapped;
  }

  lemma DescriptorIs(p: nat)
    ensures Descriptor(p) == p * 0x100000 + 0x402
  {
  }

  // With these words an address of the first megabyte leads to the start of memory, and
  // addresses of memory and of the registers to themselves.
  ghost predicate Translated(words: map<nat, nat>) {
    && (forall va: nat | 0x30000000 <= va < 0x34000000 || 0x48000000 <= va < 0x60000000 ::
          Translate(words, 0x33200000, va) == Some(va) && Attributes(words, 0x33200000, va) == Some(0x100))
    && (forall va: nat | va < 0x100000 ::
          Translate(words, 0x33200000, va) == Some(0x30000000 + va) && Attributes(words, 0x33200000, va) == Some(0x100))
  }

  lemma TableTranslated(words: map<nat, nat>)
    requires InTable(words)
    ensures Translated(words)
  {
    forall va: nat | va < 0x100000 || 0x30000000 <= va < 0x34000000 || 0x48000000 <= va < 0x60000000
      ensures Translate(words, 0x33200000, va) == Some(if va < 0x100000 then 0x30000000 + va else va)
      ensures Attributes(words, 0x33200000, va) == Some(0x100)
    {
      var s := va / 0x100000;
      assert Slot(s) == 0x33200000 + 4 * s;
      WordParts(if va < 0x100000 then 0x300 else s, va % 0x100000);
    }
  }

  lemma WordParts(p: nat, r: nat)
    requires r < 0x100000
    ensures var w := p * 0x100000 + 0x402;
      && w % 4 == 2 && w % 0x100000 / 4 == 0x100 && w / 0x100000 * 0x100000 + r == p * 0x100000 + r
  {
  }

  class Memory {
    var words: map<nat, nat>

    constructor (w: map<nat, nat>)
      ensures words == w
    {
      words := w;
    }

    // The loop of init_sys_mmu over the sections of one window.
    method MapWindow(paddr: nat, vaddr: nat, size: nat)
      requires paddr % SECTION == 0 && vaddr % SECTION == 0 && size % SECTION == 0
      requires paddr + size <= WORD_RANGE && vaddr + size <= WORD_RANGE
      modifies this
      ensures words == Mapped(old(words), vaddr / SECTION, paddr / SECTION, size / SECTION)
    {
      hide GenL1Pte, GenL1PteAddr, Or, Descriptor, Slot;
      var j := 0;
      while j < size / SECTION
        invariant 0 <= j <= size / SECTION
        invariant words == Mapped(old(words), vaddr / SECTION, paddr / SECTION, j)
      {
        SectionStep(paddr, vaddr, j);
        var pte := GenL1Pte(paddr + j * SECTION);
        pte := Or(pte, AP_DEFAULT);
        pte := Or(pte, NO_CACHE_AND_WB);
        pte := Or(pte, DOMAIN_DEFAULT);
        var pteAddr := GenL1PteAddr(PAGE_TABLE_BASE_ADDR, vaddr + j * SECTION);
        words := words[pteAddr := pte];
        j := j + 1;
      }
    }

    method InitSysMmu()
      modifies this
      ensures words == Tables(old(words))
      ensures InTable(words) && OthersKept(old(words), words) && Translated(words)
    {
      hide Mapped, Translate, Tables, InTable, OthersKept, Translated;
      MapWindow(PHYSICAL_VECTOR_ADDR, VIRTUAL_VECTOR_ADDR, VECTOR_MAP_SIZE);
      MapWindow(PHYSICAL_MEM_ADDR, VIRTUAL_MEM_ADDR, MEM_MAP_SIZE);
      MapWindow(PHYSICAL_IO_ADDR, VIRTUAL_IO_ADDR, IO_MAP_SIZE);
      TablesAre(old(words));
      TablesInTable(old(words));
      TableTranslated(words);
    }
  }

  lemma SectionStep(paddr: nat, vaddr: nat, j: nat)
    requires paddr % SECTION == 0 && vaddr % SECTION == 0
    requires paddr + j * SECTION < WORD_RANGE && vaddr + j * SECTION < WORD_RANGE
    ensures Or(GenL1Pte(paddr + j * SECTION), AP_DEFAULT) == Descriptor(paddr / SECTION + j)
    ensures Or(Or(Descriptor(paddr / SECTION + j), NO_CACHE_AND_WB), DOMAIN_DEFAULT) == Descriptor(paddr / SECTION + j)
    ensures GenL1PteAddr(PAGE_TABLE_BASE_ADDR, vaddr + j * SECTION) == Slot(vaddr / SECTION + j)
  {
    hide Or, GenL1Pte, GenL1PteAddr;
    PteValue(paddr + j * SECTION);
    PteAddrValue(PAGE_TABLE_BASE_ADDR, vaddr + j * SECTION);
    OrZero(Descriptor(paddr / SECTION + j));
  }
}
