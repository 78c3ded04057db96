/** Sections, subpages and what an address resolves to (qemu-2.0/exec.c), as values. */
module Sections {
  import opened PhysMap

  const ADDR_END: nat := 0x1_0000_0000_0000_0000
  const FIRST_SECTION: nat := 4

  datatype Region = IoUnassigned | IoNotDirty | IoRom | IoWatch | Subpage(table: nat) | Memory(id: nat)

  datatype Section = Section(mr: Region, offset: nat, regionOffset: int, size: nat)

  predicate Covers(s: Section, addr: nat) {
    s.size >= ADDR_END || (s.offset <= addr && addr < s.offset + s.size)
  }

  /** For an announced section that is being in its range. */
  lemma CoversRange(s: Section, addr: nat)
    requires Announced(s) && addr < ADDR_END
    ensures Covers(s, addr) <==> s.offset <= addr < s.offset + s.size
  {
  }

  /** A section as the memory core announces it: some memory region, a non-empty address range. */
  predicate Announced(s: Section) {
    s.mr.Memory? && s.size > 0 && s.offset + s.size <= ADDR_END
  }

  predicate Paged(s: Section) {
    s.offset % TARGET_PAGE_SIZE == 0 && s.size % TARGET_PAGE_SIZE == 0 && s.size > 0 && s.offset + s.size <= ADDR_END
  }

  predicate HasPage(s: Section, idx: nat) {
    s.offset <= idx * TARGET_PAGE_SIZE < s.offset + s.size
  }

  /** The reference: a linear search over the announced sections. */
  function LinearSearch(list: seq<Section>, addr: nat): (r: int)
    ensures -1 <= r < |list|
    ensures r >= 0 ==> Covers(list[r], addr) && forall k :: 0 <= k < r ==> !Covers(list[k], addr)
    ensures r == -1 ==> forall k :: 0 <= k < |list| ==> !Covers(list[k], addr)
  {
    if |list| == 0 then -1
    else if Covers(list[0], addr) then 0
    else var r := LinearSearch(list[1..], addr); if r == -1 then -1 else r + 1
  }

  /** The piece stands for the section at this address: same region, same place in it. */
  predicate PieceOf(piece: Section, s: Section, addr: nat) {
    && piece.mr == s.mr && Covers(piece, addr)
    && piece.regionOffset - piece.offset == s.regionOffset - s.offset
  }

  /** Everything a lookup reads. */
  datatype View = View(nodes: seq<Node>, root: Entry, sections: seq<Section>, subpages: seq<seq<nat>>)

  function Raw(v: View, idx: nat): nat {
    Lookup(v.nodes, v.root, P_L2_LEVELS, idx)
  }

  /** phys_page_find: the walk and its final range check. */
  function Find(v: View, addr: nat): nat {
    var r := Raw(v, addr / TARGET_PAGE_SIZE);
    if r < |v.sections| && Covers(v.sections[r], addr) then r else UNASSIGNED
  }

  /** address_space_lookup_region with resolve_subpage set. */
  function Resolve(v: View, addr: nat): nat {
    var s := Find(v, addr);
    if s < |v.sections| && v.sections[s].mr.Subpage? && v.sections[s].mr.table < |v.subpages|
       && |v.subpages[v.sections[s].mr.table]| == TARGET_PAGE_SIZE
    then v.subpages[v.sections[s].mr.table][addr % TARGET_PAGE_SIZE]
    else s
  }

  ghost predicate TableOk(sections: seq<Section>, t: seq<nat>) {
    && |t| == TARGET_PAGE_SIZE
    && forall o :: 0 <= o < TARGET_PAGE_SIZE ==>
         t[o] == UNASSIGNED || (FIRST_SECTION <= t[o] < |sections| && !sections[t[o]].mr.Subpage?)
  }

  ghost predicate TableUsed(t: seq<nat>) {
    exists o :: 0 <= o < |t| && t[o] != UNASSIGNED
  }

  /** The sections that every table begins with. */
  predicate Fixed(sections: seq<Section>) {
    && |sections| >= FIRST_SECTION
    && sections[0].mr == IoUnassigned && sections[1].mr == IoNotDirty
    && sections[2].mr == IoRom && sections[3].mr == IoWatch
  }

  /** The table of sections before commit.  `mapped` are the sections entered in the radix
      tree; `blank` is the number of a subpage just created and not filled yet, or -1. */
  ghost predicate Built(v: View, mapped: set<nat>, blank: int) {
    && FIRST_SECTION <= |v.sections| && Fixed(v.sections)
    && (forall r :: 0 <= r < FIRST_SECTION ==> v.sections[r].size == ADDR_END && !v.sections[r].mr.Subpage?)
    && (forall r :: r in mapped ==> FIRST_SECTION <= r < |v.sections| && Paged(v.sections[r]))
    && (forall idx: nat :: idx < Span(P_L2_LEVELS) ==> Raw(v, idx) == UNASSIGNED || Raw(v, idx) in mapped)
    && (forall r, idx: nat :: r in mapped && idx < Span(P_L2_LEVELS) ==>
          (HasPage(v.sections[r], idx) <==> Raw(v, idx) == r))
    && (forall r :: FIRST_SECTION <= r < |v.sections| && v.sections[r].mr.Subpage? ==>
          && r in mapped && v.sections[r].size == TARGET_PAGE_SIZE
          && v.sections[r].mr.table < |v.subpages|)
    && (forall r, q :: FIRST_SECTION <= r < q < |v.sections| && v.sections[r].mr.Subpage?
                       && v.sections[q].mr.Subpage? ==>
          v.sections[r].mr.table != v.sections[q].mr.table)
    && (forall t :: 0 <= t < |v.subpages| ==> TableOk(v.sections, v.subpages[t]))
    && (forall t :: 0 <= t < |v.subpages| && t != blank ==> TableUsed(v.subpages[t]))
  }

  lemma SpanSix()
    ensures Span(P_L2_LEVELS) == 0x40_0000_0000_0000
  {
    assert Span(1) == 0x200;
    assert Span(2) == 0x4_0000;
    assert Span(3) == 0x800_0000;
    assert Span(4) == 0x10_0000_0000;
    assert Span(5) == 0x2000_0000_0000;
  }

  lemma SpanFive()
    ensures Span(P_L2_LEVELS - 1) == 0x2000_0000_0000
  {
    assert Span(2) == 0x4_0000;
    assert Span(4) == 0x10_0000_0000;
  }

  /** Before compaction the range check of phys_page_find never fires. */
  lemma FindIsRaw(v: View, mapped: set<nat>, blank: int, addr: nat)
    requires Built(v, mapped, blank) && addr < ADDR_END
    ensures Find(v, addr) == Raw(v, addr / TARGET_PAGE_SIZE)
    ensures addr / TARGET_PAGE_SIZE < Span(P_L2_LEVELS)
  {
    SpanSix();
    var idx := addr / TARGET_PAGE_SIZE;
    var r := Raw(v, idx);
    if r != UNASSIGNED {
      assert HasPage(v.sections[r], idx);
      PageInside(v.sections[r], idx, addr);
    }
  }

  lemma PageInside(s: Section, idx: nat, addr: nat)
    requires Paged(s) && addr / TARGET_PAGE_SIZE == idx && addr < ADDR_END
    ensures HasPage(s, idx) <==> Covers(s, addr)
  {
    var a, n := s.offset / TARGET_PAGE_SIZE, s.size / TARGET_PAGE_SIZE;
    assert s.offset == a * TARGET_PAGE_SIZE && s.size == n * TARGET_PAGE_SIZE;
  }

  /** From one view to the next, exactly the addresses of `now` change, to section `n`. */
  ghost predicate Registered(v: View, v': View, now: Section, n: nat) {
    && v.sections <= v'.sections && n < |v'.sections| && v'.sections[n] == now
    && forall addr: nat :: addr < ADDR_END ==>
         Resolve(v', addr) == if Covers(now, addr) then n else Resolve(v, addr)
  }

  lemma RegisteredAfter(v: View, v1: View, v2: View, now: Section, n: nat)
    requires v.sections <= v1.sections && Registered(v1, v2, now, n)
    requires forall addr: nat :: addr < ADDR_END ==> Resolve(v1, addr) == Resolve(v, addr)
    ensures Registered(v, v2, now, n)
  {
    hide Resolve;
  }

  ghost predicate Vacant(v: View, s: Section) {
    forall addr: nat :: addr < ADDR_END && Covers(s, addr) ==> Resolve(v, addr) == UNASSIGNED
  }

  lemma ResolveBuilt(v: View, mapped: set<nat>, blank: int, addr: nat)
    requires Built(v, mapped, blank) && addr < ADDR_END
    ensures var r := Raw(v, addr / TARGET_PAGE_SIZE);
            && r < |v.sections|
            && Resolve(v, addr) == if v.sections[r].mr.Subpage?
                                   then v.subpages[v.sections[r].mr.table][addr % TARGET_PAGE_SIZE]
                                   else r
  {
    FindIsRaw(v, mapped, blank, addr);
    var r := Raw(v, addr / TARGET_PAGE_SIZE);
    if r >= FIRST_SECTION && v.sections[r].mr.Subpage? {
      assert TableOk(v.sections, v.subpages[v.sections[r].mr.table]);
    }
  }

  /** A page whose every address is vacant is free in the tree. */
  lemma VacantPageIsFree(v: View, mapped: set<nat>, idx: nat)
    requires Built(v, mapped, -1) && (idx + 1) * TARGET_PAGE_SIZE <= ADDR_END
    requires forall addr: nat :: idx * TARGET_PAGE_SIZE <= addr < (idx + 1) * TARGET_PAGE_SIZE ==>
               Resolve(v, addr) == UNASSIGNED
    ensures Raw(v, idx) == UNASSIGNED
  {
    hide Resolve, Raw, Covers, HasPage, Paged;
    var r := Raw(v, idx);
    var base := idx * TARGET_PAGE_SIZE;
    ResolveBuilt(v, mapped, -1, base);
    if r >= FIRST_SECTION && v.sections[r].mr.Subpage? {
      var t := v.subpages[v.sections[r].mr.table];
      assert TableUsed(t) && TableOk(v.sections, t);
      var o :| 0 <= o < |t| && t[o] != UNASSIGNED;
      assert Resolve(v, base + o) == UNASSIGNED;
      ResolveBuilt(v, mapped, -1, base + o);
    }
  }

  lemma VacantRunIsFree(v: View, mapped: set<nat>, now: Section)
    requires Built(v, mapped, -1) && Paged(now) && Vacant(v, now)
    ensures AllFree(v.nodes, v.root, P_L2_LEVELS, now.offset / TARGET_PAGE_SIZE,
                    (now.offset + now.size) / TARGET_PAGE_SIZE)
  {
    forall idx: nat | now.offset / TARGET_PAGE_SIZE <= idx < (now.offset + now.size) / TARGET_PAGE_SIZE
      ensures Lookup(v.nodes, v.root, P_L2_LEVELS, idx) == UNASSIGNED
    {
      VacantPageIsFree(v, mapped, idx);
    }
  }

  /** A vacant piece of a page finds there either nothing or a subpage. */
  lemma VacantPieceFinds(v: View, mapped: set<nat>, now: Section)
    requires Built(v, mapped, -1) && now.size > 0 && now.offset < ADDR_END && Vacant(v, now)
    ensures FIRST_SECTION <= |v.sections| && !v.sections[UNASSIGNED].mr.Subpage?
    ensures var base := now.offset / TARGET_PAGE_SIZE * TARGET_PAGE_SIZE;
            && Find(v, base) == Raw(v, now.offset / TARGET_PAGE_SIZE)
            && (Find(v, base) == UNASSIGNED ||
                (FIRST_SECTION <= Find(v, base) < |v.sections| && v.sections[Find(v, base)].mr.Subpage?
                 && v.sections[Find(v, base)].offset == base))
  {
    hide Raw, Find, Resolve, TableOk, TableUsed;
    var idx := now.offset / TARGET_PAGE_SIZE;
    var base := idx * TARGET_PAGE_SIZE;
    FindIsRaw(v, mapped, -1, base);
    FindIsRaw(v, mapped, -1, now.offset);
    assert Resolve(v, now.offset) == UNASSIGNED;
    ResolveBuilt(v, mapped, -1, now.offset);
    var r := Raw(v, idx);
    if r != UNASSIGNED {
      assert r in mapped && HasPage(v.sections[r], idx) && v.sections[r].size == TARGET_PAGE_SIZE;
    }
  }

  ghost predicate RunAdded(v: View, v': View, now: Section) {
    && Paged(now) && now.mr.Memory?
    && v'.sections == v.sections + [now] && v'.subpages == v.subpages
    && var lo, hi := now.offset / TARGET_PAGE_SIZE, (now.offset + now.size) / TARGET_PAGE_SIZE;
       && AllFree(v.nodes, v.root, P_L2_LEVELS, lo, hi)
       && Painted(v.nodes, v.root, v'.nodes, v'.root, P_L2_LEVELS, 0, lo, hi, |v.sections|)
  }

  lemma RunPages(v: View, v': View, now: Section, idx: nat)
    requires RunAdded(v, v', now) && idx < Span(P_L2_LEVELS)
    ensures Raw(v', idx) == if HasPage(now, idx) then |v.sections| else Raw(v, idx)
    ensures HasPage(now, idx) ==> Raw(v, idx) == UNASSIGNED
  {
    hide Lookup;
    var lo, hi := now.offset / TARGET_PAGE_SIZE, (now.offset + now.size) / TARGET_PAGE_SIZE;
    assert HasPage(now, idx) <==> lo <= idx < hi;
  }

  lemma RunBuilt(v: View, mapped: set<nat>, v': View, now: Section)
    requires Built(v, mapped, -1) && RunAdded(v, v', now)
    ensures Built(v', mapped + {|v.sections|}, -1)
  {
    hide Raw, HasPage, AllFree, Painted, TableUsed;
    forall idx: nat | idx < Span(P_L2_LEVELS)
      ensures Raw(v', idx) == if HasPage(now, idx) then |v.sections| else Raw(v, idx)
      ensures HasPage(now, idx) ==> Raw(v, idx) == UNASSIGNED
    {
      RunPages(v, v', now, idx);
    }
    forall t | 0 <= t < |v.subpages| ensures TableOk(v'.sections, v.subpages[t]) {
      assert TableOk(v.sections, v.subpages[t]);
    }
  }

  /** register_multipage: a run of whole pages enters the tree. */
  lemma MultipageStep(v: View, mapped: set<nat>, v': View, now: Section)
    requires Built(v, mapped, -1) && RunAdded(v, v', now)
    ensures Built(v', mapped + {|v.sections|}, -1)
    ensures Registered(v, v', now, |v.sections|)
  {
    hide Raw, AllFree, Painted, TableOk, TableUsed, HasPage;
    var m' := mapped + {|v.sections|};
    RunBuilt(v, mapped, v', now);
    forall addr: nat | addr < ADDR_END
      ensures Resolve(v', addr) == if Covers(now, addr) then |v.sections| else Resolve(v, addr)
    {
      hide Resolve, Find;
      ResolveBuilt(v, mapped, -1, addr);
      ResolveBuilt(v', m', -1, addr);
      FindIsRaw(v, mapped, -1, addr);
      RunPages(v, v', now, addr / TARGET_PAGE_SIZE);
      PageInside(now, addr / TARGET_PAGE_SIZE, addr);
    }
  }

  ghost predicate ContainerAdded(v: View, v': View, idx: nat) {
    && v'.sections == v.sections + [Section(Subpage(|v.subpages|), idx * TARGET_PAGE_SIZE, 0, TARGET_PAGE_SIZE)]
    && v'.subpages == v.subpages + [seq(TARGET_PAGE_SIZE, _ => UNASSIGNED)]
    && Painted(v.nodes, v.root, v'.nodes, v'.root, P_L2_LEVELS, 0, idx, idx + 1, |v.sections|)
  }

  lemma ContainerBuilt(v: View, mapped: set<nat>, v': View, idx: nat)
    requires Built(v, mapped, -1) && (idx + 1) * TARGET_PAGE_SIZE <= ADDR_END && Raw(v, idx) == UNASSIGNED
    requires ContainerAdded(v, v', idx)
    ensures Built(v', mapped + {|v.sections|}, |v.subpages|)
  {
    hide Lookup, TableUsed;
    var n, c, m' := |v.sections|, v'.sections[|v.sections|], mapped + {|v.sections|};
    forall i: nat | i < Span(P_L2_LEVELS)
      ensures Raw(v', i) == if HasPage(c, i) then n else Raw(v, i)
      ensures HasPage(c, i) ==> Raw(v, i) == UNASSIGNED
    {
      assert HasPage(c, i) <==> i == idx;
    }
    forall t | 0 <= t < |v'.subpages| ensures TableOk(v'.sections, v'.subpages[t]) {
      if t < |v.subpages| { assert TableOk(v.sections, v.subpages[t]); }
    }
  }

  /** register_subpage, first half: an empty subpage container enters the tree. */
  lemma ContainerStep(v: View, mapped: set<nat>, v': View, idx: nat)
    requires Built(v, mapped, -1) && (idx + 1) * TARGET_PAGE_SIZE <= ADDR_END && Raw(v, idx) == UNASSIGNED
    requires ContainerAdded(v, v', idx)
    ensures Built(v', mapped + {|v.sections|}, |v.subpages|)
    ensures Raw(v', idx) == |v.sections|
    ensures forall addr: nat :: addr < ADDR_END ==> Resolve(v', addr) == Resolve(v, addr)
  {
    SpanSix();
    var m', t := mapped + {|v.sections|}, |v.subpages|;
    ContainerBuilt(v, mapped, v', idx);
    forall addr: nat | addr < ADDR_END ensures Resolve(v', addr) == Resolve(v, addr) {
      ResolveBuilt(v, mapped, -1, addr);
      ResolveBuilt(v', m', t, addr);
      FindIsRaw(v, mapped, -1, addr);
      assert Raw(v', addr / TARGET_PAGE_SIZE) ==
             if idx <= addr / TARGET_PAGE_SIZE < idx + 1 then |v.sections| else Raw(v, addr / TARGET_PAGE_SIZE);
    }
  }

  /** subpage_register, as a value. */
  function Filled(t: seq<nat>, start: nat, end: nat, s: nat): (t': seq<nat>)
    requires |t| == TARGET_PAGE_SIZE
    ensures |t'| == TARGET_PAGE_SIZE
  {
    seq(TARGET_PAGE_SIZE, o requires 0 <= o < TARGET_PAGE_SIZE => if start <= o <= end then s else t[o])
  }

  /** `now` lies in the page of container `c`, and v' is v with `now` entered in the container's table. */
  ghost predicate PieceAdded(v: View, v': View, now: Section, c: nat) {
    && now.mr.Memory? && now.size > 0
    && FIRST_SECTION <= c < |v.sections| && v.sections[c].mr.Subpage?
    && v.sections[c].offset <= now.offset && now.offset + now.size <= v.sections[c].offset + TARGET_PAGE_SIZE
    && v'.nodes == v.nodes && v'.root == v.root && v'.sections == v.sections + [now]
    && var t := v.sections[c].mr.table;
       && t < |v.subpages| && |v.subpages[t]| == TARGET_PAGE_SIZE
       && v'.subpages == v.subpages[t := Filled(v.subpages[t], now.offset % TARGET_PAGE_SIZE,
                                                now.offset % TARGET_PAGE_SIZE + now.size - 1, |v.sections|)]
  }

  lemma TableFits(v: View, mapped: set<nat>, blank: int, c: nat)
    requires Built(v, mapped, blank) && FIRST_SECTION <= c < |v.sections| && v.sections[c].mr.Subpage?
    ensures v.sections[c].mr.table < |v.subpages| && |v.subpages[v.sections[c].mr.table]| == TARGET_PAGE_SIZE
  {
    assert TableOk(v.sections, v.subpages[v.sections[c].mr.table]);
  }

  lemma SameRaw(v: View, v': View, idx: nat)
    requires v'.nodes == v.nodes && v'.root == v.root
    ensures Raw(v', idx) == Raw(v, idx)
  {
  }

  lemma PieceBuilt(v: View, mapped: set<nat>, blank: int, v': View, now: Section, c: nat)
    requires Built(v, mapped, blank) && PieceAdded(v, v', now, c)
    requires blank == -1 || blank == v.sections[c].mr.table
    ensures Built(v', mapped, -1)
  {
    hide Raw, HasPage, Paged, Covers;
    var n, t := |v.sections|, v.sections[c].mr.table;
    assert v'.subpages[t][now.offset % TARGET_PAGE_SIZE] == n;
    assert TableUsed(v'.subpages[t]);
    forall u | 0 <= u < |v'.subpages| ensures TableOk(v'.sections, v'.subpages[u]) {
      assert TableOk(v.sections, v.subpages[u]);
    }
    forall idx: nat ensures Raw(v', idx) == Raw(v, idx) { SameRaw(v, v', idx); }
  }

  /** register_subpage, second half: a piece of one page is entered in the page's table. */
  lemma PieceStep(v: View, mapped: set<nat>, blank: int, v': View, now: Section, c: nat)
    requires Built(v, mapped, blank) && PieceAdded(v, v', now, c)
    requires blank == -1 || blank == v.sections[c].mr.table
    ensures Built(v', mapped, -1)
    ensures Registered(v, v', now, |v.sections|)
  {
    PieceBuilt(v, mapped, blank, v', now, c);
    forall addr: nat | addr < ADDR_END
      ensures Resolve(v', addr) == if Covers(now, addr) then |v.sections| else Resolve(v, addr)
    {
      PieceStepAt(v, mapped, blank, v', now, c, addr);
    }
  }

  lemma PieceStepAt(v: View, mapped: set<nat>, blank: int, v': View, now: Section, c: nat, addr: nat)
    requires Built(v, mapped, blank) && PieceAdded(v, v', now, c) && Built(v', mapped, -1) && addr < ADDR_END
    ensures Resolve(v', addr) == if Covers(now, addr) then |v.sections| else Resolve(v, addr)
  {
    hide Raw, Find, Resolve, TableOk, TableUsed;
    ResolveBuilt(v, mapped, blank, addr);
    ResolveBuilt(v', mapped, -1, addr);
    FindIsRaw(v, mapped, blank, addr);
    var idx := addr / TARGET_PAGE_SIZE;
    assert c in mapped && Paged(v.sections[c]);
    PageInside(v.sections[c], idx, addr);
    var start := now.offset % TARGET_PAGE_SIZE;
    assert v.sections[c].offset + start == now.offset;
    SameRaw(v, v', idx);
    if Raw(v, idx) == c {
      assert v.sections[c].offset + addr % TARGET_PAGE_SIZE == addr;
    }
  }

  /** No lookup leaves the section table or a subpage table. */
  ghost predicate InBounds(v: View) {
    && (forall idx: nat :: idx < Span(P_L2_LEVELS) ==> Raw(v, idx) < |v.sections|)
    && (forall r :: 0 <= r < |v.sections| && v.sections[r].mr.Subpage? ==>
          v.sections[r].mr.table < |v.subpages| && |v.subpages[v.sections[r].mr.table]| == TARGET_PAGE_SIZE)
  }

  lemma FindInBounds(v: View, addr: nat)
    requires InBounds(v) && addr < ADDR_END
    ensures Raw(v, addr / TARGET_PAGE_SIZE) < |v.sections|
  {
    SpanSix();
  }

  lemma BuiltInBounds(v: View, mapped: set<nat>)
    requires Built(v, mapped, -1)
    ensures InBounds(v)
  {
    forall r | 0 <= r < |v.sections| && v.sections[r].mr.Subpage?
      ensures v.sections[r].mr.table < |v.subpages| && |v.subpages[v.sections[r].mr.table]| == TARGET_PAGE_SIZE
    {
      assert TableOk(v.sections, v.subpages[v.sections[r].mr.table]);
    }
  }

  lemma RawMod(v: View, labels: seq<Label>, j: nat)
    requires MapOk(v.nodes, labels) && EntryOk(labels, v.root, P_L2_LEVELS, 0)
    ensures Raw(v, j) == Raw(v, j % Span(P_L2_LEVELS))
  {
    var s := Span(P_L2_LEVELS);
    forall k | 0 <= k < P_L2_LEVELS ensures Digit(j, k) == Digit(j % s, k) {
      DigitIgnoresHigh(j / s, j % s, P_L2_LEVELS, k);
      assert j == j / s * s + j % s;
    }
    LookupMod(v.nodes, labels, v.root, P_L2_LEVELS, 0, j, j % s);
  }

  /** What a coarser tree answers for a page the original leaves unassigned. */
  lemma CoarserRaw(v: View, labels: seq<Label>, v': View, idx: nat) returns (j: nat)
    requires MapOk(v.nodes, labels) && EntryOk(labels, v.root, P_L2_LEVELS, 0)
    requires Coarser(v.nodes, v.root, v'.nodes, v'.root, P_L2_LEVELS) && idx < Span(P_L2_LEVELS)
    ensures j < Span(P_L2_LEVELS) && Raw(v', idx) == Raw(v, j)
    ensures j == idx || Raw(v, idx) == UNASSIGNED
  {
    var r := Raw(v', idx);
    assert r == Raw(v, idx) || (Raw(v, idx) == UNASSIGNED && Occurs(v.nodes, v.root, P_L2_LEVELS, r));
    if r == Raw(v, idx) {
      j := idx;
    } else {
      var i: nat :| Lookup(v.nodes, v.root, P_L2_LEVELS, i) == r;
      RawMod(v, labels, i);
      j := i % Span(P_L2_LEVELS);
    }
  }

  /** The range check of phys_page_find undoes what compaction blurs. */
  lemma CompactionInvisible(v: View, labels: seq<Label>, mapped: set<nat>, v': View, addr: nat)
    requires Built(v, mapped, -1) && MapOk(v.nodes, labels) && EntryOk(labels, v.root, P_L2_LEVELS, 0)
    requires addr < ADDR_END
    requires v'.sections == v.sections && v'.subpages == v.subpages
    requires Coarser(v.nodes, v.root, v'.nodes, v'.root, P_L2_LEVELS)
    ensures Find(v', addr) == Find(v, addr) && Resolve(v', addr) == Resolve(v, addr)
  {
    FindIsRaw(v, mapped, -1, addr);
    var idx := addr / TARGET_PAGE_SIZE;
    var j := CoarserRaw(v, labels, v', idx);
    if j != idx && Raw(v, j) != UNASSIGNED {
      PageInside(v.sections[Raw(v, j)], idx, addr);
    }
  }

  /** A tree with one section, of a 512th of what the tree spans: a 128th of the 64-bit addresses. */
  function OneSection(): View {
    View([seq(P_L2_SIZE, i => if i == 0 then Entry(0, FIRST_SECTION) else NIL_ENTRY)], Entry(1, 0),
         [Section(IoUnassigned, 0, 0, ADDR_END), Section(IoNotDirty, 0, 0, ADDR_END), Section(IoRom, 0, 0, ADDR_END),
          Section(IoWatch, 0, 0, ADDR_END), Section(Memory(0), 0, 0, Span(P_L2_LEVELS - 1) * TARGET_PAGE_SIZE)], [])
  }

  lemma OneSectionRaw(idx: nat)
    requires idx < Span(P_L2_LEVELS)
    ensures Raw(OneSection(), idx) == if idx < Span(P_L2_LEVELS - 1) then FIRST_SECTION else UNASSIGNED
  {
    var v, d := OneSection(), Digit(idx, P_L2_LEVELS - 1);
    SpanSix();
    SpanFive();
    assert d == 0 <==> idx < Span(5);
    assert Raw(v, idx) == Lookup(v.nodes, v.nodes[0][d], P_L2_LEVELS - 1, idx);
  }

  /** Compaction does blur: it makes this tree a single leaf, and the walk then gives the section for every page that
      the tree spans.  Only the range check keeps the pages behind the section unassigned. */
  lemma CompactionBlurs(idx: nat)
    requires Span(P_L2_LEVELS - 1) <= idx < Span(P_L2_LEVELS)
    ensures var v := OneSection(); var v' := v.(root := Merge(v.root, v.nodes[0][0]));
            && Built(v, {FIRST_SECTION}, -1) && Raw(v, idx) == UNASSIGNED && Raw(v', idx) == FIRST_SECTION
            && Find(v', idx * TARGET_PAGE_SIZE) == UNASSIGNED
  {
    hide Span, Raw;
    SpanSix();
    SpanFive();
    var v := OneSection();
    forall i: nat | i < Span(P_L2_LEVELS)
      ensures Raw(v, i) == if HasPage(v.sections[FIRST_SECTION], i) then FIRST_SECTION else UNASSIGNED
    {
      OneSectionRaw(i);
    }
    assert Raw(v.(root := Entry(0, FIRST_SECTION)), idx) == FIRST_SECTION by {
      LeafRaw(v.(root := Entry(0, FIRST_SECTION)), idx);
    }
  }

  lemma LeafRaw(v: View, idx: nat)
    requires v.root.skip == 0
    ensures Raw(v, idx) == v.root.ptr
  {
  }

  lemma CompactionInBounds(v: View, labels: seq<Label>, mapped: set<nat>, v': View)
    requires Built(v, mapped, -1) && MapOk(v.nodes, labels) && EntryOk(labels, v.root, P_L2_LEVELS, 0)
    requires v'.sections == v.sections && v'.subpages == v.subpages
    requires Coarser(v.nodes, v.root, v'.nodes, v'.root, P_L2_LEVELS)
    ensures InBounds(v')
  {
    BuiltInBounds(v, mapped);
    forall idx: nat | idx < Span(P_L2_LEVELS) ensures Raw(v', idx) < |v.sections| {
      var j := CoarserRaw(v, labels, v', idx);
    }
  }

  /** The next view answers for `s` where `s` covers, and as before elsewhere. */
  ghost predicate Announces(v: View, v': View, s: Section) {
    && v.sections <= v'.sections
    && forall addr: nat :: addr < ADDR_END ==>
         if Covers(s, addr)
         then FIRST_SECTION <= Resolve(v', addr) < |v'.sections| && PieceOf(v'.sections[Resolve(v', addr)], s, addr)
         else Resolve(v', addr) == Resolve(v, addr)
  }

  /** The bytes of `s` below address `cut`. */
  function Below(s: Section, cut: nat): Section
    requires s.offset <= cut
  {
    s.(size := cut - s.offset)
  }

  /** Registering the next piece of a section extends the part of it that is announced. */
  lemma AnnounceNext(v: View, v1: View, v2: View, s: Section, cut: nat, now: Section)
    requires s.offset <= cut && cut + now.size <= s.offset + s.size <= ADDR_END && now.size > 0 && s.mr.Memory?
    requires Announces(v, v1, Below(s, cut)) && FIRST_SECTION <= |v1.sections|
    requires now.offset == cut && now.mr == s.mr && now.regionOffset - now.offset == s.regionOffset - s.offset
    requires |v1.sections| < |v2.sections| && Registered(v1, v2, now, |v2.sections| - 1)
    ensures Announces(v, v2, Below(s, cut + now.size))
  {
    var part := Below(s, cut + now.size);
    forall addr: nat | addr < ADDR_END
      ensures if Covers(part, addr)
              then FIRST_SECTION <= Resolve(v2, addr) < |v2.sections|
                && PieceOf(v2.sections[Resolve(v2, addr)], part, addr)
              else Resolve(v2, addr) == Resolve(v, addr)
    {
      assert Covers(part, addr) <==> Covers(Below(s, cut), addr) || Covers(now, addr);
      assert Resolve(v2, addr) == if Covers(now, addr) then |v2.sections| - 1 else Resolve(v1, addr);
      if Covers(Below(s, cut), addr) {
        assert !Covers(now, addr);
        assert v2.sections[Resolve(v1, addr)] == v1.sections[Resolve(v1, addr)];
      }
    }
  }

  lemma AnnounceNone(v: View, s: Section)
    ensures Announces(v, v, Below(s, s.offset))
  {
  }

  lemma FreePage(v: View, idx: nat)
    requires Raw(v, idx) == UNASSIGNED
    ensures AllFree(v.nodes, v.root, P_L2_LEVELS, idx, idx + 1)
  {
  }

  lemma StillVacant(v: View, v1: View, s: Section, cut: nat, remain: Section)
    requires Vacant(v, s) && s.offset <= cut <= s.offset + s.size <= ADDR_END
    requires Announces(v, v1, Below(s, cut))
    requires remain.offset == cut && remain.size == s.offset + s.size - cut
    ensures Vacant(v1, remain)
  {
    forall addr: nat | addr < ADDR_END && Covers(remain, addr) ensures Resolve(v1, addr) == UNASSIGNED {
      assert Covers(s, addr) && !Covers(Below(s, cut), addr);
    }
  }

  lemma VacantPart(v: View, s: Section, size: nat)
    requires Vacant(v, s) && size <= s.size && s.offset + s.size <= ADDR_END
    ensures Vacant(v, s.(size := size))
  {
  }

  /** The first piece mem_add cuts off a section: up to the next page boundary. */
  lemma HeadPiece(offset: nat, size: nat)
    requires offset % TARGET_PAGE_SIZE != 0 && 0 < size && offset + size <= ADDR_END
    ensures var aligned := (offset / TARGET_PAGE_SIZE + 1) * TARGET_PAGE_SIZE % ADDR_END;
            var left := (aligned - offset) % ADDR_END;
            && 0 < left && offset % TARGET_PAGE_SIZE + left == TARGET_PAGE_SIZE
            && (offset + left) % TARGET_PAGE_SIZE == 0
  {
    var up := (offset / TARGET_PAGE_SIZE + 1) * TARGET_PAGE_SIZE;
    assert offset < up <= ADDR_END && up - offset <= TARGET_PAGE_SIZE;
  }

  predicate Apart(a: Section, b: Section) {
    a.offset + a.size <= b.offset || b.offset + b.size <= a.offset
  }

  ghost predicate PairwiseApart(list: seq<Section>) {
    forall i, j :: 0 <= i < j < |list| ==> Apart(list[i], list[j])
  }

  /** The lookup agrees with the linear search. */
  ghost predicate Answers(v: View, list: seq<Section>, addr: nat) {
    var k := LinearSearch(list, addr);
    if k == -1 then Resolve(v, addr) == UNASSIGNED < |v.sections| && v.sections[UNASSIGNED].mr == IoUnassigned
    else FIRST_SECTION <= Resolve(v, addr) < |v.sections| && PieceOf(v.sections[Resolve(v, addr)], list[k], addr)
  }

  ghost predicate AnswersAll(v: View, list: seq<Section>) {
    forall addr: nat :: addr < ADDR_END ==> Answers(v, list, addr)
  }

  lemma AnswersNone(v: View)
    requires Fixed(v.sections)
    requires forall addr: nat :: addr < ADDR_END ==> Resolve(v, addr) == UNASSIGNED
    ensures AnswersAll(v, [])
  {
  }

  lemma AnswersKept(v: View, v': View, list: seq<Section>)
    requires AnswersAll(v, list) && v'.sections == v.sections
    requires forall addr: nat :: addr < ADDR_END ==> Resolve(v', addr) == Resolve(v, addr)
    ensures AnswersAll(v', list)
  {
    forall addr: nat | addr < ADDR_END ensures Answers(v', list, addr) {
      assert Answers(v, list, addr);
      assert Resolve(v', addr) == Resolve(v, addr);
    }
  }

  lemma NextIsVacant(v: View, list: seq<Section>, s: Section)
    requires AnswersAll(v, list) && Announced(s)
    requires forall i :: 0 <= i < |list| ==> Announced(list[i]) && Apart(list[i], s)
    ensures Vacant(v, s)
  {
    forall addr: nat | addr < ADDR_END && Covers(s, addr) ensures Resolve(v, addr) == UNASSIGNED {
      assert Answers(v, list, addr);
      forall k | 0 <= k < |list| ensures !Covers(list[k], addr) {
        assert Apart(list[k], s);
      }
    }
  }

  lemma AnswersGrow(v: View, v': View, list: seq<Section>, s: Section)
    requires AnswersAll(v, list) && Vacant(v, s) && Announces(v, v', s)
    ensures AnswersAll(v', list + [s])
  {
    var list' := list + [s];
    forall addr: nat | addr < ADDR_END ensures Answers(v', list', addr) {
      assert Answers(v, list, addr);
      var k, k' := LinearSearch(list, addr), LinearSearch(list', addr);
      if k >= 0 {
        assert !Covers(s, addr);
        assert list'[k] == list[k];
        assert k' == k;
        assert v'.sections[Resolve(v, addr)] == v.sections[Resolve(v, addr)];
      } else if Covers(s, addr) {
        assert list'[|list|] == s;
        assert k' == |list|;
      }
    }
  }
}
