/** The software TLB and its summary of large pages (qemu-2.0/cputlb.c), for 64-bit guest addresses. */
module Tlb {
  type Addr = bv64

  const PAGE_SIZE: Addr := 0x1000
  const PAGE_MASK: Addr := 0xFFFF_FFFF_FFFF_F000
  const NONE: Addr := 0xFFFF_FFFF_FFFF_FFFF
  const TLB_INVALID: Addr := 0x8
  const TLB_NOTDIRTY: Addr := 0x10
  const TLB_MMIO: Addr := 0x20
  const TLB_BOTH: Addr := TLB_MMIO | TLB_NOTDIRTY
  const TAG_MASK: Addr := PAGE_MASK | TLB_INVALID
  const CPU_TLB_SIZE: nat := 256

  /** The three tags of an entry, NONE being no permission, and where its page is in host memory; the source keeps
      the difference of that to the guest address. */
  datatype Entry = Entry(read: Addr, write: Addr, code: Addr, host: Addr)

  const EMPTY: Entry := Entry(NONE, NONE, NONE, NONE)

  /** A guest page as it was installed. */
  datatype Page = Page(vaddr: Addr, size: Addr)

  /** What the memory section behind a page makes of its tags. */
  datatype Backing = Io | Rom | CleanRam | Ram

  function And(a: Addr, b: Addr): Addr { a & b }

  /** The address with flags in its low bits. */
  function With(a: Addr, flags: Addr): Addr { a | flags }

  /** The bits of an address that tell pages of the size apart. */
  function SizeMask(size: Addr): Addr { !(size - 1) }

  predicate PowerOfTwo(x: Addr) { x != 0 && x & (x - 1) == 0 }

  predicate Aligned(a: Addr) { And(a, PAGE_MASK) == a }

  predicate Covers(p: Page, v: Addr) { And(v, SizeMask(p.size)) == And(p.vaddr, SizeMask(p.size)) }

  /** A mask of high bits. */
  predicate HighMask(m: Addr) { !m & (!m + 1) == 0 }

  /** The addresses are the same in the bits of the mask. */
  predicate Agree(a: Addr, b: Addr, m: Addr) { (a ^ b) & m == 0 }

  predicate Inside(n: Addr, m: Addr) { And(n, m) == n }

  /** The bits of an address that select the slot. */
  function Slot(a: Addr): Addr { (a >> 12) & 0xff }

  function Index(a: Addr): (i: nat)
    ensures i < CPU_TLB_SIZE
  {
    Slot(a) as nat
  }

  /** The page a tag is for; an empty tag keeps its invalid bit. */
  function TagPage(tag: Addr): Addr { And(tag, TAG_MASK) }

  /** tlb_is_dirty_ram: a store may go straight to memory. */
  predicate DirtyRam(tag: Addr) { And(tag, TLB_INVALID | TLB_MMIO | TLB_NOTDIRTY) == 0 }

  /** Accesses through the tag go to a device, or through the check for watchpoints. */
  predicate Mmio(tag: Addr) { And(tag, TLB_MMIO) != 0 }

  predicate NotDirty(tag: Addr) { And(tag, TLB_NOTDIRTY) != 0 }

  /** What the flags in the tags of an entry must say. */
  predicate Flagged(e: Entry, rights: set<Right>, backing: Backing, watched: bool) {
    && (Read in rights ==> (Mmio(e.read) <==> backing.Io? || watched))
    && (Code in rights ==> (Mmio(e.code) <==> backing.Io?))
    && (Write in rights ==> (Mmio(e.write) <==> backing.Io? || backing.Rom? || watched))
    && (Write in rights ==> (NotDirty(e.write) <==> backing.CleanRam?))
    && (Write in rights ==> (DirtyRam(e.write) <==> backing.Ram? && !watched))
    && (DirtyRam(e.write) ==> Write in rights)
  }

  /** The page begins in host memory [start, start + length), in unsigned arithmetic. */
  predicate InHost(host: Addr, start: Addr, length: Addr) { host - start < length }

  lemma InHostIs(start: Addr, length: Addr, d: Addr)
    ensures InHost(start + d, start, length) <==> d < length
  {
    assert start + d - start == d;
  }

  /** The tag is empty or for the page, up to flags. */
  predicate TagOk(tag: Addr, vaddr: Addr) { tag == NONE || TagPage(tag) == vaddr }

  predicate EntryIs(e: Entry, vaddr: Addr) {
    TagOk(e.read, vaddr) && TagOk(e.write, vaddr) && TagOk(e.code, vaddr)
  }

  /** tlb_flush_entry's test. */
  predicate Tagged(e: Entry, addr: Addr) {
    addr == TagPage(e.read) || addr == TagPage(e.write) || addr == TagPage(e.code)
  }

  predicate Live(e: Entry) { e.read != NONE || e.write != NONE || e.code != NONE }

  /** The page lies in the region that the flush address and mask stand for. */
  predicate InRegion(p: Page, addr: Addr, mask: Addr) {
    addr != NONE && Inside(mask, SizeMask(p.size)) && And(p.vaddr, mask) == addr
  }

  predicate RegionOk(addr: Addr, mask: Addr) {
    addr != NONE ==> HighMask(mask) && Inside(mask, PAGE_MASK)
  }

  // Facts about 64-bit words.

  lemma AndAssoc(a: Addr, b: Addr, c: Addr)
    ensures And(And(a, b), c) == And(a, And(b, c))
  {
  }

  lemma AndComm(a: Addr, b: Addr)
    ensures And(a, b) == And(b, a)
  {
  }

  lemma InsideTrans(n: Addr, m: Addr, l: Addr)
    requires Inside(n, m) && Inside(m, l)
    ensures Inside(n, l)
  {
    hide And;
    AndAssoc(n, m, l);
  }

  /** Addresses the same under a mask are the same under any mask inside it. */
  lemma Through(a: Addr, b: Addr, m: Addr, n: Addr)
    requires Inside(n, m) && And(a, m) == And(b, m)
    ensures And(a, n) == And(b, n)
  {
    hide And;
    AndAssoc(a, m, n);
    AndAssoc(b, m, n);
    AndComm(m, n);
  }

  lemma AndAgain(a: Addr, m: Addr, n: Addr)
    requires Inside(n, m)
    ensures And(And(a, m), n) == And(a, n)
  {
    hide And;
    AndAssoc(a, m, n);
    AndComm(m, n);
  }

  lemma InsideBoth(m: Addr, n: Addr)
    ensures Inside(And(m, n), m) && Inside(And(m, n), n)
  {
  }

  lemma InsideSelf(m: Addr)
    ensures Inside(m, m)
  {
  }

  lemma NotNone(addr: Addr, mask: Addr)
    requires Inside(mask, PAGE_MASK)
    ensures And(addr, mask) != NONE
  {
  }

  lemma SizeIsMask(size: Addr)
    requires PowerOfTwo(size) && size >= PAGE_SIZE
    ensures HighMask(SizeMask(size)) && Inside(SizeMask(size), PAGE_MASK)
  {
  }

  lemma MaskAnd(m: Addr, n: Addr)
    requires HighMask(m) && HighMask(n)
    ensures HighMask(And(m, n))
  {
  }

  lemma MaskShift(m: Addr)
    requires HighMask(m)
    ensures HighMask(m << 1) && Inside(m << 1, m) && (m != 0 ==> m << 1 < m)
  {
  }

  /** Of two different high masks one of which is inside the other, the inner one is without the lowest bit. */
  lemma MaskBelow(n: Addr, m: Addr)
    requires HighMask(n) && HighMask(m) && Inside(n, m) && n != m
    ensures Inside(n, m << 1)
  {
  }

  lemma XorUnder(a: Addr, b: Addr, m: Addr)
    requires Agree(a, b, m)
    ensures And(a, m) == And(b, m)
  {
    assert (a ^ b) & m == (a & m) ^ (b & m);
  }

  lemma UnderXor(a: Addr, b: Addr, m: Addr)
    requires And(a, m) == And(b, m)
    ensures Agree(a, b, m)
  {
    assert (a ^ b) & m == (a & m) ^ (b & m);
  }

  lemma AndInside(n: Addr, m: Addr, l: Addr)
    requires Inside(n, m) && Inside(n, l)
    ensures Inside(n, And(m, l))
  {
    hide And;
    AndAssoc(n, m, l);
  }

  lemma NoneApart(v: Addr)
    ensures And(v, 0) != NONE
  {
  }

  lemma AgreeZero(a: Addr, b: Addr)
    ensures Agree(a, b, 0)
  {
  }

  lemma SmallMask()
    ensures SizeMask(PAGE_SIZE) == PAGE_MASK
  {
  }

  lemma TagFlag(a: Addr, flags: Addr)
    requires Aligned(a) && And(flags, TAG_MASK) == 0
    ensures TagPage(With(a, flags)) == a
  {
    hide And, With;
    AlignedTag(a);
    OrAnd(a, flags, TAG_MASK);
  }

  lemma AlignedTag(a: Addr)
    requires Aligned(a)
    ensures And(a, TAG_MASK) == a
  {
  }

  lemma OrAnd(a: Addr, b: Addr, m: Addr)
    requires And(a, m) == a && And(b, m) == 0
    ensures And(With(a, b), m) == a
  {
    assert (a | b) & m == (a & m) | (b & m);
  }

  lemma FlagsApart()
    ensures And(0, TAG_MASK) == 0 && And(TLB_MMIO, TAG_MASK) == 0 && And(TLB_NOTDIRTY, TAG_MASK) == 0
    ensures And(TLB_BOTH, TAG_MASK) == 0
  {
  }

  lemma NoTag(a: Addr)
    requires Aligned(a)
    ensures TagPage(NONE) != a
  {
  }

  lemma TagDirty(tag: Addr)
    ensures TagPage(With(tag, TLB_NOTDIRTY)) == TagPage(tag)
    ensures DirtyRam(tag) ==> tag != NONE && With(tag, TLB_NOTDIRTY) != NONE
    ensures !DirtyRam(With(tag, TLB_NOTDIRTY))
  {
  }

  lemma PageNotNone(a: Addr)
    requires Aligned(a)
    ensures a != NONE && With(a, TLB_NOTDIRTY) != NONE && With(a, TLB_NOTDIRTY) != a
  {
  }

  lemma PageIndex(a: Addr)
    ensures Index(And(a, PAGE_MASK)) == Index(a) && Aligned(And(a, PAGE_MASK))
  {
    hide Slot, And;
    PageSlot(a);
    PageAligned(a);
  }

  lemma PageSlot(a: Addr)
    ensures Slot(And(a, PAGE_MASK)) == Slot(a)
  {
  }

  lemma PageAligned(a: Addr)
    ensures Aligned(And(a, PAGE_MASK))
  {
  }

  // The region.

  /** A flush of any address in a page of the region hits the region. */
  lemma RegionCatches(p: Page, addr: Addr, mask: Addr, v: Addr)
    requires InRegion(p, addr, mask) && Covers(p, v)
    ensures And(v, mask) == addr
  {
    hide And, SizeMask;
    Through(v, p.vaddr, SizeMask(p.size), mask);
  }

  /** A narrower mask keeps every page of the region in it. */
  lemma RegionGrows(p: Page, addr: Addr, mask: Addr, mask': Addr)
    requires InRegion(p, addr, mask) && Inside(mask', mask) && Inside(mask', PAGE_MASK)
    ensures InRegion(p, And(addr, mask'), mask')
  {
    hide And, SizeMask;
    InsideTrans(mask', mask, SizeMask(p.size));
    AndAgain(p.vaddr, mask, mask');
    NotNone(addr, mask');
  }

  ghost predicate PagesKept(addr: Addr, mask: Addr, addr': Addr, mask': Addr) {
    forall p :: InRegion(p, addr, mask) ==> InRegion(p, addr', mask')
  }

  lemma RegionWidened(addr: Addr, mask: Addr, vaddr: Addr, size: Addr, mask': Addr)
    requires addr != NONE && Inside(mask, PAGE_MASK) && Inside(mask', And(SizeMask(size), mask))
    requires Agree(addr, vaddr, mask')
    ensures Inside(mask', PAGE_MASK) && InRegion(Page(vaddr, size), And(addr, mask'), mask')
    ensures PagesKept(addr, mask, And(addr, mask'), mask')
  {
    hide And, SizeMask, Agree;
    InsideBoth(SizeMask(size), mask);
    InsideTrans(mask', And(SizeMask(size), mask), mask);
    InsideTrans(mask', And(SizeMask(size), mask), SizeMask(size));
    InsideTrans(mask', mask, PAGE_MASK);
    XorUnder(addr, vaddr, mask');
    NotNone(addr, mask');
    forall p | InRegion(p, addr, mask) ensures InRegion(p, And(addr, mask'), mask') {
      RegionGrows(p, addr, mask, mask');
    }
  }

  /** An aligned block of addresses, of a power of two of them, that holds the pages. */
  ghost predicate Encloses(pages: set<Page>, addr: Addr, mask: Addr) {
    HighMask(mask) && forall p :: p in pages ==> InRegion(p, addr, mask)
  }

  /** The region is the smallest such block. */
  ghost predicate Least(pages: set<Page>, addr: Addr, mask: Addr) {
    Encloses(pages, addr, mask) && forall a, m :: Encloses(pages, a, m) ==> Inside(m, mask)
  }

  /** The region that stands for the large pages. */
  ghost predicate Summary(pages: set<Page>, addr: Addr, mask: Addr) {
    if pages == {} then addr == NONE && mask == 0 else addr != NONE && Least(pages, addr, mask)
  }

  /** The address is between the pages: every block that holds them all holds it. */
  ghost predicate Among(pages: set<Page>, v: Addr) {
    pages != {} && forall a, m :: Encloses(pages, a, m) ==> And(v, m) == a
  }

  /** Hitting the region is being between the large pages. */
  lemma CaughtIff(pages: set<Page>, addr: Addr, mask: Addr, v: Addr)
    requires Summary(pages, addr, mask)
    ensures And(v, mask) == addr <==> Among(pages, v)
  {
    hide And, SizeMask, HighMask, Inside;
    if pages == {} {
      NoneApart(v);
    } else if And(v, mask) == addr {
      var p :| p in pages;
      forall a, m | Encloses(pages, a, m) ensures And(v, m) == a {
        assert InRegion(p, addr, mask) && InRegion(p, a, m);
        AndAgain(v, mask, m);
        AndAgain(p.vaddr, mask, m);
      }
    }
  }

  lemma LeastFirst(p: Page)
    requires PowerOfTwo(p.size) && p.size >= PAGE_SIZE
    ensures Summary({p}, And(p.vaddr, SizeMask(p.size)), SizeMask(p.size))
  {
    hide And, SizeMask, HighMask, PowerOfTwo, Inside;
    SizeIsMask(p.size);
    InsideSelf(SizeMask(p.size));
    NotNone(p.vaddr, SizeMask(p.size));
    forall a, m | Encloses({p}, a, m) ensures Inside(m, SizeMask(p.size)) {
      assert InRegion(p, a, m);
    }
  }

  /** The mask is the largest under which the addresses agree. */
  ghost predicate Widest(addr: Addr, vaddr: Addr, start: Addr, mask: Addr) {
    && HighMask(mask) && Inside(mask, start) && Agree(addr, vaddr, mask)
    && forall m :: HighMask(m) && Inside(m, start) && Agree(addr, vaddr, m) ==> Inside(m, mask)
  }

  /** Widening no more than it must keeps the region the smallest. */
  lemma LeastGrows(pages: set<Page>, addr: Addr, mask: Addr, p: Page, mask': Addr)
    requires pages != {} && Summary(pages, addr, mask) && RegionOk(addr, mask)
    requires Widest(addr, p.vaddr, And(SizeMask(p.size), mask), mask')
    ensures Summary(pages + {p}, And(addr, mask'), mask')
  {
    hide And, SizeMask, HighMask, Inside, Agree;
    RegionWidened(addr, mask, p.vaddr, p.size, mask');
    NotNone(addr, mask');
    forall q | q in pages + {p} ensures InRegion(q, And(addr, mask'), mask') {
      if q in pages {
        assert InRegion(q, addr, mask);
      }
    }
    forall a, m | Encloses(pages + {p}, a, m) ensures Inside(m, mask') {
      Fits(pages, addr, mask, p, a, m);
    }
  }

  lemma Fits(pages: set<Page>, addr: Addr, mask: Addr, p: Page, a: Addr, m: Addr)
    requires pages != {} && Least(pages, addr, mask) && Encloses(pages + {p}, a, m)
    ensures HighMask(m) && Inside(m, And(SizeMask(p.size), mask)) && Agree(addr, p.vaddr, m)
  {
    hide And, SizeMask, HighMask, Inside, Agree;
    var q :| q in pages;
    assert Encloses(pages, a, m) by {
      forall r | r in pages ensures InRegion(r, a, m) {
        assert r in pages + {p};
      }
    }
    assert InRegion(p, a, m) && InRegion(q, a, m) && InRegion(q, addr, mask);
    AndInside(m, SizeMask(p.size), mask);
    AndAgain(q.vaddr, mask, m);
    UnderXor(addr, p.vaddr, m);
  }

  /** An entry through which stores to the page need no longer be noticed. */
  function Dirtied(e: Entry, page: Addr): (e': Entry) {
    if e.write == With(page, TLB_NOTDIRTY) then e.(write := page) else e
  }

  /** An entry that no longer stores unnoticed to the range. */
  function Reset(e: Entry, start: Addr, length: Addr): (e': Entry)
    ensures DirtyRam(e'.write) <==> DirtyRam(e.write) && !InHost(e.host, start, length)
    ensures e' == e.(write := e'.write) && TagPage(e'.write) == TagPage(e.write)
    ensures !InHost(e.host, start, length) ==> e' == e
  {
    TagDirty(e.write);
    if DirtyRam(e.write) && InHost(e.host, start, length) then e.(write := With(e.write, TLB_NOTDIRTY)) else e
  }

  class CpuTlb {
    const modes: nat
    const table: array2<Entry>
    var flushAddr: Addr
    var flushMask: Addr
    /** For each entry the page it was last installed from. */
    ghost var origin: map<(int, int), Page>
    /** The large pages installed since the last full flush. */
    ghost var large: set<Page>

    ghost predicate Valid()
      reads this, table
    {
      && table.Length0 == modes && table.Length1 == CPU_TLB_SIZE
      && RegionOk(flushAddr, flushMask)
      && Summary(large, flushAddr, flushMask)
      && forall m, i :: 0 <= m < modes && 0 <= i < CPU_TLB_SIZE && Live(table[m, i]) ==> SlotOk(m, i, table[m, i])
    }

    ghost predicate SlotOk(m: int, i: int, e: Entry)
      reads this
    {
      (m, i) in origin && PageOk(origin[(m, i)], i, e, flushAddr, flushMask)
    }

    constructor (modes: nat)
      ensures Valid() && fresh(table) && this.modes == modes && origin == map[] && large == {}
      ensures forall m, i :: 0 <= m < modes && 0 <= i < CPU_TLB_SIZE ==> !Live(table[m, i])
    {
      this.modes := modes;
      table := new Entry[modes, CPU_TLB_SIZE]((m, i) => EMPTY);
      flushAddr, flushMask, origin, large := NONE, 0, map[], {};
    }

    /** The TLB answers an access to the address: what the fast path tests. */
    predicate Hit(m: nat, a: Addr, right: Right)
      requires m < table.Length0 && table.Length1 == CPU_TLB_SIZE
      reads this, table
    {
      TagPage(Tag(table[m, Index(a)], right)) == And(a, PAGE_MASK)
    }

    /** A flush of the address is a flush of all. */
    predicate Caught(v: Addr)
      reads this
    {
      And(v, flushMask) == flushAddr
    }

    /** tlb_flush. */
    method Flush()
      requires table.Length0 == modes && table.Length1 == CPU_TLB_SIZE
      modifies this`flushAddr, this`flushMask, this`large, table
      ensures Valid() && flushAddr == NONE && flushMask == 0 && large == {}
      ensures forall m, i :: 0 <= m < modes && 0 <= i < CPU_TLB_SIZE ==> !Live(table[m, i])
    {
      forall m, i | 0 <= m < modes && 0 <= i < CPU_TLB_SIZE {
        table[m, i] := EMPTY;
      }
      flushAddr, flushMask, large := NONE, 0, {};
    }

    /** tlb_flush_entry. */
    method FlushEntry(m: nat, i: nat, addr: Addr)
      requires m < table.Length0 && i < table.Length1
      modifies table
      ensures forall k, j :: 0 <= k < table.Length0 && 0 <= j < table.Length1 && (k != m || j != i) ==>
                table[k, j] == old(table[k, j])
      ensures table[m, i] == if old(Tagged(table[m, i], addr)) then EMPTY else old(table[m, i])
      ensures Live(table[m, i]) ==> !EntryIs(table[m, i], addr)
    {
      hide TagPage;
      if Tagged(table[m, i], addr) {
        table[m, i] := EMPTY;
      }
    }

    /** tlb_flush_page: no entry installed from a page, of whatever size, that covers v is left in any mode. */
    method FlushPage(v: Addr)
      requires Valid()
      modifies this`flushAddr, this`flushMask, this`large, table
      ensures Valid()
      ensures old(Caught(v)) <==> old(Among(large, v))
      ensures if old(Caught(v)) then large == {} else large == old(large)
      ensures !old(Caught(v)) ==> flushAddr == old(flushAddr) && flushMask == old(flushMask)
      ensures !old(Caught(v)) ==> forall m, i :: 0 <= m < modes && 0 <= i < CPU_TLB_SIZE ==>
                table[m, i] == (if i == Index(v) && old(Tagged(table[m, i], And(v, PAGE_MASK))) then EMPTY
                                else old(table[m, i]))
      ensures forall m, i :: 0 <= m < modes && 0 <= i < CPU_TLB_SIZE && Live(table[m, i]) ==>
                table[m, i] == old(table[m, i]) && !Covers(origin[(m, i)], v)
      ensures forall m, right :: 0 <= m < modes ==> !Hit(m, v, right)
    {
      hide And, SizeMask, TagPage, EntryIs, Index, Covers, PageOk, RegionOk, Live, Summary, Among, Tagged;
      PageIndex(v);
      CaughtIff(large, flushAddr, flushMask, v);
      EmptyNotLive();
      if Caught(v) {
        Flush();
        EmptyMisses(And(v, PAGE_MASK));
        return;
      }
      var addr := And(v, PAGE_MASK);
      var i := Index(addr);
      var m := 0;
      while m < modes
        invariant 0 <= m <= modes && Valid() && flushAddr == old(flushAddr) && flushMask == old(flushMask)
        invariant large == old(large)
        invariant forall k, j :: 0 <= k < modes && 0 <= j < CPU_TLB_SIZE ==>
                    table[k, j] == (if k < m && j == i && old(Tagged(table[k, j], addr)) then EMPTY
                                    else old(table[k, j]))
        invariant forall k :: 0 <= k < m && Live(table[k, i]) ==> !EntryIs(table[k, i], addr)
      {
        FlushEntry(m, i, addr);
        m := m + 1;
      }
      forall k, j | 0 <= k < modes && 0 <= j < CPU_TLB_SIZE && Live(table[k, j]) ensures !Covers(origin[(k, j)], v) {
        if Covers(origin[(k, j)], v) {
          Covered(origin[(k, j)], j, table[k, j], flushAddr, flushMask, v);
        }
      }
      EmptyMisses(addr);
      forall k, right | 0 <= k < modes ensures !Hit(k, v, right) {
        if Live(table[k, i]) && Hit(k, v, right) {
          HitIsPage(origin[(k, i)], i, table[k, i], flushAddr, flushMask, v, right);
        }
      }
    }

    /** tlb_add_large_page: the region comes to hold the page, keeps those it held and grows no more than it must. */
    method AddLargePage(vaddr: Addr, size: Addr)
      requires RegionOk(flushAddr, flushMask) && Summary(large, flushAddr, flushMask)
      requires PowerOfTwo(size) && size > PAGE_SIZE
      modifies this`flushAddr, this`flushMask, this`large
      ensures RegionOk(flushAddr, flushMask) && InRegion(Page(vaddr, size), flushAddr, flushMask)
      ensures PagesKept(old(flushAddr), old(flushMask), flushAddr, flushMask)
      ensures large == old(large) + {Page(vaddr, size)} && Summary(large, flushAddr, flushMask)
    {
      hide And, SizeMask, HighMask, PowerOfTwo, Inside, Agree, Least, Widest;
      var mask := SizeMask(size);
      SizeIsMask(size);
      if flushAddr == NONE {
        flushAddr, flushMask := And(vaddr, mask), mask;
        NotNone(vaddr, mask);
        InsideSelf(mask);
        LeastFirst(Page(vaddr, size));
        assert large + {Page(vaddr, size)} == {Page(vaddr, size)};
        large := large + {Page(vaddr, size)};
        return;
      }
      MaskAnd(mask, flushMask);
      InsideBoth(mask, flushMask);
      mask := Widen(flushAddr, vaddr, And(mask, flushMask));
      LeastGrows(large, flushAddr, flushMask, Page(vaddr, size), mask);
      WidestIs(flushAddr, vaddr, And(SizeMask(size), flushMask), mask);
      RegionWidened(flushAddr, flushMask, vaddr, size, mask);
      flushAddr, flushMask, large := And(flushAddr, mask), mask, large + {Page(vaddr, size)};
    }

    /** tlb_set_page. */
    method SetPage(vaddr: Addr, m: nat, size: Addr, rights: set<Right>, backing: Backing, watched: bool, host: Addr)
      requires Valid() && m < modes && PowerOfTwo(size) && size >= PAGE_SIZE && Aligned(vaddr)
      modifies this`flushAddr, this`flushMask, this`origin, this`large, table
      ensures Valid() && origin == old(origin)[(m, Index(vaddr)) := Page(vaddr, size)]
      ensures large == if size != PAGE_SIZE then old(large) + {Page(vaddr, size)} else old(large)
      ensures forall k, j :: 0 <= k < modes && 0 <= j < CPU_TLB_SIZE && (k != m || j != Index(vaddr)) ==>
                table[k, j] == old(table[k, j])
      ensures forall a, right | And(a, PAGE_MASK) == vaddr :: Hit(m, a, right) <==> right in rights
      ensures !backing.Io? ==> table[m, Index(vaddr)].host == host
      ensures Flagged(table[m, Index(vaddr)], rights, backing, watched)
    {
      hide And, SizeMask, TagPage, EntryIs, Index, RegionOk, Live, PowerOfTwo, Inside, Installed, InRegion, Flagged,
           Summary;
      SizeIsMask(size);
      if size != PAGE_SIZE {
        AddLargePage(vaddr, size);
        forall k, i | 0 <= k < modes && 0 <= i < CPU_TLB_SIZE && Live(table[k, i]) ensures SlotOk(k, i, table[k, i]) {
          assert old(SlotOk(k, i, table[k, i]));
        }
      }
      InstalledIs(vaddr, rights, backing, watched, host);
      InstalledNotes(vaddr, rights, backing, watched, host);
      table[m, Index(vaddr)] := Installed(vaddr, rights, backing, watched, host);
      origin := origin[(m, Index(vaddr)) := Page(vaddr, size)];
      forall a, right | And(a, PAGE_MASK) == vaddr ensures Hit(m, a, right) <==> right in rights {
        PageIndex(a);
      }
    }

    /** tlb_reset_dirty_range. */
    method ResetDirty(m: nat, i: nat, start: Addr, length: Addr)
      requires Valid() && m < modes && i < CPU_TLB_SIZE
      modifies table
      ensures Valid()
      ensures forall k, j :: 0 <= k < modes && 0 <= j < CPU_TLB_SIZE && (k != m || j != i) ==>
                table[k, j] == old(table[k, j])
      ensures table[m, i] == Reset(old(table[m, i]), start, length)
      ensures forall k, a, right :: 0 <= k < modes ==> Hit(k, a, right) == old(Hit(k, a, right))
    {
      hide And, SizeMask, Index, RegionOk, InRegion, Summary, TagPage, Aligned, With, DirtyRam, InHost;
      var e := table[m, i];
      TagDirty(e.write);
      if DirtyRam(e.write) && InHost(e.host, start, length) {
        assert SlotOk(m, i, e);
        table[m, i] := e.(write := With(e.write, TLB_NOTDIRTY));
      }
    }

    /** cpu_tlb_reset_dirty_all for one CPU: just the entries through which stores would go unnoticed to the range are
        changed, and which accesses are answered does not change. */
    method ResetDirtyAll(start: Addr, length: Addr)
      requires Valid()
      modifies table
      ensures Valid()
      ensures forall m, i :: 0 <= m < modes && 0 <= i < CPU_TLB_SIZE ==>
                table[m, i] == Reset(old(table[m, i]), start, length)
      ensures forall k, a, right :: 0 <= k < modes ==> Hit(k, a, right) == old(Hit(k, a, right))
    {
      hide And, SizeMask, Index, RegionOk, InRegion, Summary, TagPage, PageOk, Live, Reset;
      var m := 0;
      while m < modes
        invariant 0 <= m <= modes && Valid()
        invariant forall k, i :: 0 <= k < modes && 0 <= i < CPU_TLB_SIZE ==>
                    table[k, i] == if k < m then Reset(old(table[k, i]), start, length) else old(table[k, i])
        invariant forall k, a, right :: 0 <= k < modes ==> Hit(k, a, right) == old(Hit(k, a, right))
      {
        var i := 0;
        while i < CPU_TLB_SIZE
          invariant 0 <= i <= CPU_TLB_SIZE && Valid()
          invariant forall k, j :: 0 <= k < modes && 0 <= j < CPU_TLB_SIZE ==>
                      table[k, j] == if k < m || (k == m && j < i) then Reset(old(table[k, j]), start, length)
                                     else old(table[k, j])
          invariant forall k, a, right :: 0 <= k < modes ==> Hit(k, a, right) == old(Hit(k, a, right))
        {
          ResetDirty(m, i, start, length);
          i := i + 1;
        }
        m := m + 1;
      }
    }

    /** tlb_set_dirty1. */
    method SetDirtyEntry(m: nat, i: nat, page: Addr)
      requires Valid() && m < modes && i < CPU_TLB_SIZE && Aligned(page)
      modifies table
      ensures Valid() && table[m, i] == Dirtied(old(table[m, i]), page)
      ensures forall k, j :: 0 <= k < modes && 0 <= j < CPU_TLB_SIZE && (k != m || j != i) ==>
                table[k, j] == old(table[k, j])
      ensures forall k, a, right :: 0 <= k < modes ==> Hit(k, a, right) == old(Hit(k, a, right))
    {
      hide And, SizeMask, Index, RegionOk, InRegion, Summary, TagPage, Aligned, With;
      var e := table[m, i];
      PageNotNone(page);
      if e.write == With(page, TLB_NOTDIRTY) {
        TagDirty(page);
        assert SlotOk(m, i, e);
        table[m, i] := e.(write := page);
      }
    }

    /** tlb_set_dirty. */
    method SetDirty(v: Addr)
      requires Valid()
      modifies table
      ensures Valid()
      ensures forall k, j :: 0 <= k < modes && 0 <= j < CPU_TLB_SIZE ==>
                table[k, j] == if j == Index(v) then Dirtied(old(table[k, j]), And(v, PAGE_MASK)) else old(table[k, j])
      ensures forall k, a, right :: 0 <= k < modes ==> Hit(k, a, right) == old(Hit(k, a, right))
    {
      hide And, SizeMask, Index, RegionOk, Summary, TagPage, Aligned, With, PageOk, Live;
      var page := And(v, PAGE_MASK);
      PageIndex(v);
      var m := 0;
      while m < modes
        invariant 0 <= m <= modes && Valid()
        invariant forall k, j :: 0 <= k < modes && 0 <= j < CPU_TLB_SIZE ==>
                    table[k, j] == if k < m && j == Index(page) then Dirtied(old(table[k, j]), page)
                                   else old(table[k, j])
        invariant forall k, a, right :: 0 <= k < modes ==> Hit(k, a, right) == old(Hit(k, a, right))
      {
        SetDirtyEntry(m, Index(page), page);
        m := m + 1;
      }
    }
  }

  datatype Op =
    | SetOp(vaddr: Addr, mode: nat, size: Addr, rights: set<Right>, backing: Backing, watched: bool,
            host: Addr)
    | FlushOp
    | FlushPageOp(v: Addr)
    | ResetDirtyOp(start: Addr, length: Addr)
    | SetDirtyOp(v: Addr)

  /** What the callers see to: sizes are powers of two of at least a page, addresses are page addresses. */
  predicate OpOk(op: Op, modes: nat) {
    match op
    case SetOp(vaddr, mode, size, _, _, _, _) => mode < modes && PowerOfTwo(size) && size >= PAGE_SIZE && Aligned(vaddr)
    case _ => true
  }

  /** For each slot the last page installed in it. */
  function Origins(ops: seq<Op>): map<(int, int), Page> {
    if ops == [] then map[] else OriginNext(Origins(ops[..|ops| - 1]), ops[|ops| - 1])
  }

  function OriginNext(origin: map<(int, int), Page>, op: Op): map<(int, int), Page> {
    if op.SetOp? then origin[(op.mode, Index(op.vaddr)) := Page(op.vaddr, op.size)] else origin
  }

  /** The large pages that are remembered: a full flush forgets them, and so does the flush of an address between them.
      */
  ghost function LargeAfter(ops: seq<Op>): set<Page> {
    if ops == [] then {} else LargeNext(LargeAfter(ops[..|ops| - 1]), ops[|ops| - 1])
  }

  ghost function LargeNext(large: set<Page>, op: Op): set<Page> {
    if Forgets(large, op) then {} else large + LargeOf(op)
  }

  function LargeOf(op: Op): set<Page> {
    if op.SetOp? && op.size != PAGE_SIZE then {Page(op.vaddr, op.size)} else {}
  }

  ghost predicate Forgets(large: set<Page>, op: Op) { op.FlushOp? || (op.FlushPageOp? && Among(large, op.v)) }

  /** The k-th operation flushes everything. */
  ghost predicate Full(ops: seq<Op>, k: nat)
    requires k < |ops|
  {
    Forgets(LargeAfter(ops[..k]), ops[k])
  }

  /** The large pages that some operations install. */
  function LargeIn(ops: seq<Op>): set<Page> {
    if ops == [] then {} else LargeIn(ops[..|ops| - 1]) + LargeOf(ops[|ops| - 1])
  }

  /** They are the large pages installed since the last full flush, the operation before `since`. */
  ghost predicate LargeSince(ops: seq<Op>, since: nat, large: set<Page>) {
    && since <= |ops| && large == LargeIn(ops[since..])
    && (since > 0 ==> Full(ops, since - 1))
    && forall j :: since <= j < |ops| ==> !Full(ops, j)
  }

  lemma {:induction false} RememberedSince(ops: seq<Op>) returns (since: nat)
    ensures LargeSince(ops, since, LargeAfter(ops))
  {
    hide Forgets;
    if ops == [] {
      since := 0;
    } else {
      var n := |ops| - 1;
      var before := ops[..n];
      since := RememberedSince(before);
      if Full(ops, n) {
        since := n + 1;
        assert ops[since..] == [];
      } else {
        assert ops[since..][..n - since] == before[since..];
        forall j | 0 <= j < n ensures Full(ops, j) <==> Full(before, j) {
          assert before[..j] == ops[..j];
        }
      }
    }
  }

  /** After any history the region is the smallest block that holds every large page installed since the last full
      flush, and a flush of v leaves no entry from any page that covers v: no access to v is answered. */
  method History(modes: nat, ops: seq<Op>, v: Addr) returns (tlb: CpuTlb, ghost since: nat)
    requires forall k :: 0 <= k < |ops| ==> OpOk(ops[k], modes)
    ensures fresh(tlb) && tlb.Valid() && tlb.modes == modes
    ensures LargeSince(ops + [FlushPageOp(v)], since, tlb.large)
    ensures Summary(tlb.large, tlb.flushAddr, tlb.flushMask) && tlb.origin == Origins(ops)
    ensures forall m, i :: 0 <= m < modes && 0 <= i < CPU_TLB_SIZE && Live(tlb.table[m, i]) ==>
              (m, i) in Origins(ops) && !Covers(Origins(ops)[(m, i)], v)
    ensures forall m, right :: 0 <= m < modes ==> !tlb.Hit(m, v, right)
  {
    hide And, SizeMask, TagPage, EntryIs, Index, RegionOk, Live, PowerOfTwo, PageOk, Covers, Aligned, LargeSince,
         Summary, LargeNext;
    tlb := new CpuTlb(modes);
    var k := 0;
    assert ops[..0] == [];
    while k < |ops|
      invariant 0 <= k <= |ops| && tlb.Valid() && fresh(tlb) && fresh(tlb.table) && tlb.modes == modes
      invariant tlb.large == LargeAfter(ops[..k]) && tlb.origin == Origins(ops[..k])
    {
      Perform(tlb, ops[k]);
      assert ops[..k + 1][..k] == ops[..k];
      k := k + 1;
    }
    assert ops[..k] == ops;
    ghost var all := ops + [FlushPageOp(v)];
    assert all[..|ops|] == ops;
    since := RememberedSince(all);
    Forgetting(tlb.large, v);
    tlb.FlushPage(v);
  }

  lemma Forgetting(large: set<Page>, v: Addr)
    ensures LargeNext(large, FlushPageOp(v)) == if Among(large, v) then {} else large
  {
  }

  /** One operation of a history. */
  method Perform(tlb: CpuTlb, op: Op)
    requires tlb.Valid() && OpOk(op, tlb.modes)
    modifies tlb, tlb.table
    ensures tlb.Valid()
    ensures tlb.large == LargeNext(old(tlb.large), op) && tlb.origin == OriginNext(old(tlb.origin), op)
  {
    hide And, SizeMask, TagPage, EntryIs, Index, RegionOk, Live, PowerOfTwo, PageOk, Covers, Aligned, Summary, Among;
    match op {
      case SetOp(vaddr, mode, size, rights, backing, watched, host) =>
        tlb.SetPage(vaddr, mode, size, rights, backing, watched, host);
      case FlushOp => tlb.Flush();
      case FlushPageOp(u) => tlb.FlushPage(u);
      case ResetDirtyOp(start, length) => tlb.ResetDirtyAll(start, length);
      case SetDirtyOp(u) => tlb.SetDirty(u);
    }
  }

  lemma WidestIs(addr: Addr, vaddr: Addr, start: Addr, mask: Addr)
    requires Widest(addr, vaddr, start, mask)
    ensures HighMask(mask) && Inside(mask, start) && Agree(addr, vaddr, mask)
  {
  }

  /** The loop of tlb_add_large_page: shift bits out of the mask until the addresses agree under it. */
  method Widen(addr: Addr, vaddr: Addr, start: Addr) returns (mask: Addr)
    requires HighMask(start)
    ensures Widest(addr, vaddr, start, mask)
  {
    hide And, HighMask, Inside, Agree;
    mask := start;
    InsideSelf(mask);
    while !Agree(addr, vaddr, mask)
      invariant HighMask(mask) && Inside(mask, start)
      invariant forall m :: HighMask(m) && Inside(m, start) && Agree(addr, vaddr, m) ==> Inside(m, mask)
      decreases mask
    {
      AgreeZero(addr, vaddr);
      MaskShift(mask);
      InsideTrans(mask << 1, mask, start);
      forall m | HighMask(m) && Inside(m, start) && Agree(addr, vaddr, m) ensures Inside(m, mask << 1) {
        MaskBelow(m, mask);
      }
      mask := mask << 1;
    }
  }

  datatype Right = Read | Write | Code

  function Tag(e: Entry, right: Right): Addr {
    match right
    case Read => e.read
    case Write => e.write
    case Code => e.code
  }

  /** The flags of a store tag. */
  function StoreFlags(backing: Backing, watched: bool): Addr {
    match backing
    case Io => TLB_MMIO
    case Rom => TLB_MMIO
    case CleanRam => if watched then TLB_BOTH else TLB_NOTDIRTY
    case Ram => if watched then TLB_MMIO else 0
  }

  function IoFlags(io: bool): Addr { if io then TLB_MMIO else 0 }

  /** The entry tlb_set_page writes. */
  function Installed(vaddr: Addr, rights: set<Right>, backing: Backing, watched: bool, host: Addr): Entry {
    Entry(TagFor(vaddr, IoFlags(watched || backing.Io?), Read in rights),
          TagFor(vaddr, StoreFlags(backing, watched), Write in rights),
          TagFor(vaddr, IoFlags(backing.Io?), Code in rights),
          if backing.Io? then 0 else host)
  }

  function TagFor(vaddr: Addr, flags: Addr, given: bool): Addr { if given then With(vaddr, flags) else NONE }

  predicate IsFlags(f: Addr) { f == 0 || f == TLB_MMIO || f == TLB_NOTDIRTY || f == TLB_BOTH }

  lemma FlagsOk(backing: Backing, watched: bool)
    ensures IsFlags(IoFlags(true)) && IsFlags(IoFlags(false)) && IsFlags(StoreFlags(backing, watched))
  {
  }

  lemma TagForOk(vaddr: Addr, flags: Addr, given: bool)
    requires Aligned(vaddr) && IsFlags(flags)
    ensures TagOk(TagFor(vaddr, flags, given), vaddr)
    ensures TagPage(TagFor(vaddr, flags, given)) == vaddr <==> given
  {
    hide TagPage, With, And, Aligned;
    TagFlags(vaddr);
    NoTag(vaddr);
  }

  lemma InstalledIs(vaddr: Addr, rights: set<Right>, backing: Backing, watched: bool, host: Addr)
    requires Aligned(vaddr)
    ensures var e := Installed(vaddr, rights, backing, watched, host);
            EntryIs(e, vaddr) && forall right :: TagPage(Tag(e, right)) == vaddr <==> right in rights
  {
    hide TagPage, TagFor, TagOk, Aligned, IsFlags, IoFlags, StoreFlags;
    FlagsOk(backing, watched);
    TagForOk(vaddr, IoFlags(watched || backing.Io?), Read in rights);
    TagForOk(vaddr, StoreFlags(backing, watched), Write in rights);
    TagForOk(vaddr, IoFlags(backing.Io?), Code in rights);
    var e := Installed(vaddr, rights, backing, watched, host);
    forall right ensures TagPage(Tag(e, right)) == vaddr <==> right in rights {
      match right
      case Read =>
      case Write =>
      case Code =>
    }
  }

  lemma InstalledNotes(vaddr: Addr, rights: set<Right>, backing: Backing, watched: bool, host: Addr)
    requires Aligned(vaddr)
    ensures Flagged(Installed(vaddr, rights, backing, watched, host), rights, backing, watched)
    ensures !backing.Io? ==> Installed(vaddr, rights, backing, watched, host).host == host
  {
    hide With, DirtyRam, Mmio, NotDirty, Aligned;
    NoneSeen();
    FlagsSeen(vaddr);
  }

  lemma NoneSeen()
    ensures !DirtyRam(NONE)
  {
  }

  lemma FlagsSeen(a: Addr)
    requires Aligned(a)
    ensures DirtyRam(With(a, 0)) && !DirtyRam(With(a, TLB_MMIO)) && !DirtyRam(With(a, TLB_NOTDIRTY))
    ensures !DirtyRam(With(a, TLB_BOTH))
    ensures !Mmio(With(a, 0)) && Mmio(With(a, TLB_MMIO)) && !Mmio(With(a, TLB_NOTDIRTY)) && Mmio(With(a, TLB_BOTH))
    ensures !NotDirty(With(a, 0)) && !NotDirty(With(a, TLB_MMIO)) && NotDirty(With(a, TLB_NOTDIRTY))
    ensures NotDirty(With(a, TLB_BOTH))
  {
  }

  /** Whatever flags a tag carries, it is for its page. */
  lemma TagFlags(a: Addr)
    requires Aligned(a)
    ensures TagPage(With(a, 0)) == a && TagPage(With(a, TLB_MMIO)) == a
    ensures TagPage(With(a, TLB_NOTDIRTY)) == a && TagPage(With(a, TLB_BOTH)) == a
  {
    hide TagPage, With, And;
    FlagsApart();
    TagFlag(a, 0);
    TagFlag(a, TLB_MMIO);
    TagFlag(a, TLB_NOTDIRTY);
    TagFlag(a, TLB_BOTH);
  }

  /** What an entry must be, given the page it was installed from. */
  ghost predicate PageOk(p: Page, i: int, e: Entry, addr: Addr, mask: Addr) {
    && Aligned(p.vaddr) && i == Index(p.vaddr) && EntryIs(e, p.vaddr)
    && Inside(SizeMask(p.size), PAGE_MASK) && (p.size == PAGE_SIZE || InRegion(p, addr, mask))
  }

  /** Whatever the TLB answers is for the page the entry was installed from. */
  lemma HitIsPage(p: Page, i: int, e: Entry, addr: Addr, mask: Addr, a: Addr, right: Right)
    requires PageOk(p, i, e, addr, mask) && TagPage(Tag(e, right)) == And(a, PAGE_MASK)
    ensures p.vaddr == And(a, PAGE_MASK) && Covers(p, a)
  {
    hide And, SizeMask, TagPage, Index, Inside;
    PageIndex(a);
    NoTag(And(a, PAGE_MASK));
    AndAgain(a, PAGE_MASK, SizeMask(p.size));
  }

  lemma EmptyMisses(a: Addr)
    requires Aligned(a)
    ensures forall e, right :: !Live(e) ==> TagPage(Tag(e, right)) != a
  {
    hide And, TagPage, Aligned;
    NoTag(a);
  }

  lemma EmptyNotLive()
    ensures !Live(EMPTY)
  {
  }

  /** An entry from a page that covers v is in v's slot with v's tag, or the region catches v. */
  lemma Covered(p: Page, i: int, e: Entry, addr: Addr, mask: Addr, v: Addr)
    requires PageOk(p, i, e, addr, mask) && Covers(p, v)
    ensures And(v, mask) == addr || (i == Index(And(v, PAGE_MASK)) && EntryIs(e, And(v, PAGE_MASK)))
  {
    hide And, SizeMask, EntryIs, Index;
    if p.size == PAGE_SIZE {
      SmallMask();
    } else {
      RegionCatches(p, addr, mask, v);
    }
  }
}
