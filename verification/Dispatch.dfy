/** Building, compacting and searching the physical address dispatch (qemu-2.0/exec.c). */
module Dispatch {
  import opened PhysMap
  import opened Sections

  class AddressSpaceDispatch {
    var physMap: Entry
    var nodes: seq<Node>
    var nodesNbAlloc: nat
    var sections: seq<Section>
    var subpages: seq<seq<nat>>
    ghost var labels: seq<Label>
    ghost var mapped: set<nat>

    function Now(): View
      reads this
    {
      View(nodes, physMap, sections, subpages)
    }

    ghost predicate Valid()
      reads this
    {
      && MapOk(nodes, labels) && EntryOk(labels, physMap, P_L2_LEVELS, 0)
      && FIRST_SECTION <= |sections| <= TARGET_PAGE_SIZE && Fixed(sections) && InBounds(Now())
    }

    /** Valid between mem_begin and mem_commit; `blank` as in Built. */
    ghost predicate BuildingWith(blank: int)
      reads this
    {
      && MapOk(nodes, labels) && EntryOk(labels, physMap, P_L2_LEVELS, 0)
      && MapFlat(nodes, labels) && EntryFlat(physMap, P_L2_LEVELS)
      && |sections| <= TARGET_PAGE_SIZE && |nodes| <= (2 * P_L2_LEVELS - 1) * |sections|
      && Built(Now(), mapped, blank)
    }

    ghost predicate Building()
      reads this
    {
      Valid() && BuildingWith(-1)
    }

    /** mem_begin: the four fixed sections and an empty tree. */
    constructor ()
      ensures Building() && |sections| == FIRST_SECTION && Fixed(sections)
      ensures forall addr: nat :: addr < ADDR_END ==> Resolve(Now(), addr) == UNASSIGNED
    {
      physMap := NIL_ENTRY;
      nodes, labels, nodesNbAlloc, subpages, mapped := [], [], 0, [], {};
      sections := [Section(IoUnassigned, 0, 0, ADDR_END), Section(IoNotDirty, 0, 0, ADDR_END),
                   Section(IoRom, 0, 0, ADDR_END), Section(IoWatch, 0, 0, ADDR_END)];
    }

    method NodeReserve(n: nat)
      modifies this`nodesNbAlloc
      ensures nodesNbAlloc >= old(nodesNbAlloc) && |nodes| + n <= nodesNbAlloc
      ensures nodesNbAlloc != old(nodesNbAlloc) ==>
                && old(nodesNbAlloc) < |nodes| + n && nodesNbAlloc >= 16 && nodesNbAlloc >= 2 * old(nodesNbAlloc)
                && nodesNbAlloc in {16, 2 * old(nodesNbAlloc), |nodes| + n}
    {
      if |nodes| + n > nodesNbAlloc {
        nodesNbAlloc := if nodesNbAlloc * 2 > 16 then nodesNbAlloc * 2 else 16;
        nodesNbAlloc := if nodesNbAlloc > |nodes| + n then nodesNbAlloc else |nodes| + n;
      }
    }

    method NodeAlloc(ghost l: Label) returns (ret: nat)
      requires |nodes| != NODE_NIL && |nodes| < nodesNbAlloc
      modifies this`nodes, this`labels
      ensures ret == old(|nodes|) && labels == old(labels) + [l]
      ensures nodes == old(nodes) + [seq(P_L2_SIZE, _ => NIL_ENTRY)]
    {
      ret := |nodes|;
      nodes := nodes + [seq(P_L2_SIZE, _ => NIL_ENTRY)];
      labels := labels + [l];
    }

    /** The node under `lp`, allocated if there is none yet. */
    method EnsureNode(lp: Entry, level: nat, ghost b: nat) returns (p: nat)
      requires MapOk(nodes, labels) && MapFlat(nodes, labels)
      requires EntryOk(labels, lp, level + 1, b) && lp.skip == 1 && b % Span(level + 1) == 0
      requires |nodes| < nodesNbAlloc && |nodes| < NODE_NIL
      modifies this`nodes, this`labels
      ensures MapOk(nodes, labels) && MapFlat(nodes, labels)
      ensures |nodes| == |labels| == old(|labels|) + |nodes| - old(|nodes|)
      ensures old(labels) <= labels && old(nodes) <= nodes && old(|nodes|) == old(|labels|)
      ensures |nodes| <= old(|nodes|) + 1
      ensures p < |nodes| && labels[p] == Label(level + 1, b)
      ensures SameView(old(nodes), lp, nodes, Entry(1, p), level + 1)
    {
      if lp.ptr == NODE_NIL {
        p := NodeAlloc(Label(level + 1, b));
        if level == 0 {
          nodes := nodes[p := seq(P_L2_SIZE, _ => Entry(0, UNASSIGNED))];
        }
        assert nodes == old(nodes) + [nodes[p]];
        forall idx: nat, h | h == level + 1 ensures Lookup(nodes, Entry(1, p), h, idx) == UNASSIGNED {
          assert nodes[p][Digit(idx, level)] in nodes[p];
        }
        MapGrows(old(nodes), old(labels), nodes[p], Label(level + 1, b));
      } else {
        p := lp.ptr;
      }
    }

    /** One pass of the loop in phys_page_set_level: fill slot `k` of node `p`, or go down. */
    method SetSlot(p: nat, k: nat, index0: nat, nb0: nat, leaf: nat, level: nat, ghost b: nat)
      returns (index: nat, nb: nat)
      requires MapOk(nodes, labels) && MapFlat(nodes, labels)
      requires p < |nodes| && k < P_L2_SIZE && labels[p] == Label(level + 1, b)
      requires b + k * Span(level) <= index0 < b + k * Span(level) + Span(level)
      requires nb0 > 0 && UNASSIGNED < leaf < TARGET_PAGE_SIZE
      requires AllFree(nodes, Entry(1, p), level + 1, index0, Stop(index0, nb0, b + k * Span(level) + Span(level)))
      requires |nodes| + SlotNeeded(index0, nb0, level, b + k * Span(level)) <= nodesNbAlloc
      requires |nodes| + SlotNeeded(index0, nb0, level, b + k * Span(level)) <= NODE_NIL
      modifies this`nodes, this`labels
      ensures MapOk(nodes, labels) && MapFlat(nodes, labels) && old(labels) <= labels && |nodes| == |labels|
      ensures ChangedOnlyIn(old(nodes), nodes, old(labels), level + 1, b)
      ensures |nodes| <= old(|nodes|) + SlotNeeded(index0, nb0, level, b + k * Span(level))
      ensures index + nb == index0 + nb0 && index == Stop(index0, nb0, b + k * Span(level) + Span(level))
      ensures Painted(old(nodes), Entry(1, p), nodes, Entry(1, p), level + 1, b, index0, index, leaf)
      decreases level, 0
    {
      hide MapOk, MapFlat, AllFree, Painted, ChangedOnlyIn;
      var step := Span(level);
      ghost var bk := b + k * step;
      SlotEntry(nodes, labels, p, k, level, b);
      AlignedInBlock(bk, level, index0);
      var e;
      if index0 % step == 0 && nb0 >= step {
        e, index, nb := Entry(0, leaf), index0 + step, nb0 - step;
        PaintLeaf(nodes, nodes[p][k], level, bk, leaf);
        ChangedNone(nodes, nodes, labels, level, bk);
      } else {
        KidFree(nodes, labels, p, k, level, b, index0, Stop(index0, nb0, bk + step));
        e, index, nb := SetLevel(nodes[p][k], index0, nb0, leaf, level - 1, bk);
      }
      PaintKid(old(nodes), old(labels), nodes, labels, p, k, e, level, b, index0, index, leaf);
      ReplaceKidOk(old(nodes), old(labels), nodes, labels, p, k, e, level, b);
      FlatKid(nodes, labels, p, k, e);
      nodes := WithKid(nodes, p, k, e);
    }

    method SetLevel(lp0: Entry, index0: nat, nb0: nat, leaf: nat, level: nat, ghost b: nat)
      returns (lp: Entry, index: nat, nb: nat)
      requires MapOk(nodes, labels) && MapFlat(nodes, labels)
      requires EntryOk(labels, lp0, level + 1, b) && EntryFlat(lp0, level + 1)
      requires b % Span(level + 1) == 0 && b <= index0 < b + Span(level + 1) && nb0 > 0
      requires UNASSIGNED < leaf < TARGET_PAGE_SIZE
      requires AllFree(nodes, lp0, level + 1, index0, Stop(index0, nb0, b + Span(level + 1)))
      requires |nodes| + NodesNeeded(index0, nb0, level, b) <= nodesNbAlloc
      requires |nodes| + NodesNeeded(index0, nb0, level, b) <= NODE_NIL
      modifies this`nodes, this`labels
      ensures MapOk(nodes, labels) && MapFlat(nodes, labels) && old(labels) <= labels && |nodes| == |labels|
      ensures EntryOk(labels, lp, level + 1, b) && EntryFlat(lp, level + 1) && lp.skip == 1
      ensures ChangedOnlyIn(old(nodes), nodes, old(labels), level + 1, b)
      ensures |nodes| <= old(|nodes|) + NodesNeeded(index0, nb0, level, b)
      ensures index + nb == index0 + nb0 && index == Stop(index0, nb0, b + Span(level + 1))
      ensures Painted(old(nodes), lp0, nodes, lp, level + 1, b, index0, index, leaf)
      decreases level, 1
    {
      hide MapOk, MapFlat, AllFree, Painted, SameView, ChangedOnlyIn, Digit, Lookup;
      index, nb := index0, nb0;
      ghost var n0, stop := |nodes|, Stop(index0, nb0, b + Span(level + 1));
      FreeIsNode(nodes, lp0, level + 1, index0, stop);
      var p := EnsureNode(lp0, level, b);
      lp := Entry(1, p);
      PaintNone(old(nodes), lp0, nodes, lp, level + 1, b, index0, leaf);
      ChangedNone(old(nodes), nodes, old(labels), level + 1, b);
      var k0 := Digit(index, level);
      var k := k0;
      BlockOfDigit(b, level, index);
      SpanSplits(level, k);
      while nb > 0 && k < P_L2_SIZE
        invariant k0 <= k <= P_L2_SIZE && index + nb == index0 + nb0 && index0 <= index <= stop
        invariant MapOk(nodes, labels) && MapFlat(nodes, labels) && old(labels) <= labels
        invariant p < |labels| && labels[p] == Label(level + 1, b) && |nodes| == |labels|
        invariant ChangedOnlyIn(old(nodes), nodes, old(labels), level + 1, b)
        invariant nb > 0 ==>
                    AtSlot(index0, k0, index, k, level, b) && |nodes| <= n0 + SpentBefore(index0, k0, k, level, b)
        invariant |nodes| <= n0 + NodesNeeded(index0, nb0, level, b)
        invariant Painted(old(nodes), lp0, nodes, lp, level + 1, b, index0, index, leaf)
      {
        ghost var nodes1, labels1, mid := nodes, labels, index;
        SlotFits(index0, nb0, index, nb, k0, k, level, b);
        RestFree(old(nodes), lp0, nodes, lp, level + 1, b, index0, index, stop, leaf);
        FreePrefix(nodes, lp, level + 1, index, Stop(index, nb, b + k * Span(level) + Span(level)), stop);
        index, nb := SetSlot(p, k, index, nb, leaf, level, b);
        PaintMore(old(nodes), lp0, nodes1, lp, nodes, lp, level + 1, b, index0, mid, index, leaf);
        ChangedTrans(old(nodes), nodes1, nodes, old(labels), labels1, level + 1, b);
        k := k + 1;
      }
    }

    /** One pass of the loop in phys_page_compact: compact the subtree in slot `i` of node `p`. */
    method CompactSlot(p: nat, i: nat, ghost k: nat, ghost b: nat)
      requires MapOk(nodes, labels) && p < |nodes| && i < P_L2_SIZE && labels[p] == Label(k + 1, b) && k < P_L2_LEVELS
      requires nodes[p][i].skip > 0
      modifies this`nodes
      ensures |nodes| == old(|nodes|) && MapOk(nodes, labels)
      ensures ChangedOnlyIn(old(nodes), nodes, labels, k + 1, b)
      ensures nodes[p] == old(nodes[p])[i := nodes[p][i]]
      ensures nodes[p][i].ptr == NODE_NIL <==> old(nodes[p][i].ptr) == NODE_NIL
      ensures Coarser(old(nodes), Entry(1, p), nodes, Entry(1, p), k + 1)
      ensures forall d :: 0 <= d < P_L2_SIZE && (d == i || Tight(old(nodes), old(nodes[p])[d], k)) ==>
                Tight(nodes, nodes[p][d], k)
      decreases k, 1
    {
      hide MapFlat, Coarser, Tight;
      assert NodeOk(labels, nodes[p], labels[p]);
      var e := Compact(nodes[p][i], k, b + i * Span(k));
      CoarserKid(old(nodes), labels, nodes, p, i, e, k, b);
      ReplaceKidOk(old(nodes), labels, nodes, labels, p, i, e, k, b);
      ghost var nodes1 := nodes;
      nodes := WithKid(nodes, p, i, e);
      forall d | 0 <= d < P_L2_SIZE && (d == i || Tight(old(nodes), old(nodes[p])[d], k))
        ensures Tight(nodes, nodes[p][d], k)
      {
        TightKid(old(nodes), labels, nodes1, p, i, e, k, b, d);
      }
    }

    /** phys_page_compact: fold every node with one used slot into the entry above it. */
    method Compact(lp0: Entry, ghost h: nat, ghost b: nat) returns (lp: Entry)
      requires MapOk(nodes, labels) && EntryOk(labels, lp0, h, b) && lp0.skip > 0 && h <= P_L2_LEVELS
      modifies this`nodes
      ensures |nodes| == old(|nodes|) && MapOk(nodes, labels) && EntryOk(labels, lp, h, b)
      ensures ChangedOnlyIn(old(nodes), nodes, labels, h, b)
      ensures lp.ptr == NODE_NIL <==> lp0.ptr == NODE_NIL
      ensures Coarser(old(nodes), lp0, nodes, lp, h) && Tight(nodes, lp, h)
      decreases h, 0
    {
      hide MapOk, Coarser, ChangedOnlyIn, Tight;
      lp := lp0;
      CoarserRefl(nodes, lp, h);
      MapSize(nodes, labels);
      ChangedNone(nodes, nodes, labels, h, b);
      if lp.ptr == NODE_NIL {
        TightLeaf(nodes, lp, h);
        return;
      }
      var p := lp.ptr;
      ghost var first := 0;
      ghost var k, bp, up := h - lp.skip, labels[p].base, Entry(1, p);
      CoarserRefl(nodes, up, k + 1);
      ChangedNone(nodes, nodes, labels, k + 1, bp);
      var validPtr: nat, valid, i := P_L2_SIZE, 0, 0;
      while i < P_L2_SIZE
        invariant 0 <= i <= P_L2_SIZE && |nodes| == old(|nodes|) && MapOk(nodes, labels)
        invariant ChangedOnlyIn(old(nodes), nodes, labels, k + 1, bp)
        invariant Coarser(old(nodes), up, nodes, up, k + 1)
        invariant valid == 0 ==> forall j :: 0 <= j < i ==> nodes[p][j].ptr == NODE_NIL
        invariant valid > 0 ==> validPtr < i && nodes[p][validPtr].ptr != NODE_NIL
        invariant valid == 1 ==> forall j :: 0 <= j < i && j != validPtr ==> nodes[p][j].ptr == NODE_NIL
        invariant valid > 1 ==> 0 <= first < validPtr && nodes[p][first].ptr != NODE_NIL
        invariant forall j :: 0 <= j < i ==> Tight(nodes, nodes[p][j], k)
      {
        if nodes[p][i].ptr == NODE_NIL || nodes[p][i].skip == 0 {
          TightLeaf(nodes, nodes[p][i], k);
        }
        if nodes[p][i].ptr != NODE_NIL {
          first := validPtr;
          validPtr := i;
          valid := valid + 1;
          if nodes[p][i].skip != 0 {
            ghost var nodes1 := nodes;
            CompactSlot(p, i, k, bp);
            ChangedTrans(old(nodes), nodes1, nodes, labels, labels, k + 1, bp);
            CoarserTrans(old(nodes), up, nodes1, up, nodes, up, k + 1);
          }
        }
        i := i + 1;
      }
      CoarserShift(old(nodes), nodes, p, lp.skip, h);
      ChangedWiden(old(nodes), nodes, labels, k + 1, bp, h, b);
      if valid == 1 {
        MergeFits(nodes, labels, lp, h, b, validPtr);
        TightMerge(nodes, lp, validPtr, h);
      } else {
        TightHere(nodes, lp, h);
      }
      if valid == 1 && lp.skip + nodes[p][validPtr].skip < 8 {
        MergeOk(nodes, labels, lp, h, b, validPtr);
        CoarserMerge(nodes, labels, lp, h, b, validPtr);
        CoarserTrans(old(nodes), lp0, nodes, lp0, nodes, Merge(lp, nodes[p][validPtr]), h);
        lp := Merge(lp, nodes[p][validPtr]);
      }
    }

    method CompactAll()
      requires Building()
      modifies this`physMap, this`nodes
      ensures Valid() && Tight(nodes, physMap, P_L2_LEVELS)
      ensures forall addr: nat :: addr < ADDR_END ==>
                Find(Now(), addr) == old(Find(Now(), addr)) && Resolve(Now(), addr) == old(Resolve(Now(), addr))
    {
      hide Tight;
      TightLeaf(nodes, Entry(0, physMap.ptr), P_L2_LEVELS);
      if physMap.skip != 0 {
        var lp := Compact(physMap, P_L2_LEVELS, 0);
        physMap := lp;
        CompactionInBounds(old(Now()), labels, mapped, Now());
        forall addr: nat | addr < ADDR_END
          ensures Find(Now(), addr) == old(Find(Now(), addr)) && Resolve(Now(), addr) == old(Resolve(Now(), addr))
        {
          CompactionInvisible(old(Now()), labels, mapped, Now(), addr);
        }
      }
    }

    /** phys_page_find. */
    method PageFind(addr: nat) returns (s: nat)
      requires Valid() && addr < ADDR_END
      ensures s == Find(Now(), addr)
    {
      hide MapOk, EntryOk, InBounds;
      var lp, index := physMap, addr / TARGET_PAGE_SIZE;
      var i: nat := P_L2_LEVELS;
      ghost var b: nat := 0;
      FindInBounds(Now(), addr);
      while lp.skip != 0 && i - lp.skip >= 0
        invariant EntryOk(labels, lp, i, b) && Lookup(nodes, lp, i, index) == Raw(Now(), index)
        decreases i
      {
        EntryFits(labels, lp, i, b);
        if lp.ptr == NODE_NIL {
          NilLookup(nodes, labels, lp, i, index);
          return UNASSIGNED;
        }
        b := StepDown(nodes, labels, lp, i, b, index);
        lp, i := nodes[lp.ptr][Digit(index, i - lp.skip)], i - lp.skip;
      }
      EntryFits(labels, lp, i, b);
      s := if Covers(sections[lp.ptr], addr) then lp.ptr else UNASSIGNED;
    }

    /** address_space_lookup_region. */
    method LookupRegion(addr: nat, resolveSubpage: bool) returns (s: nat)
      requires Valid() && addr < ADDR_END
      ensures s == if resolveSubpage then Resolve(Now(), addr) else Find(Now(), addr)
    {
      s := PageFind(addr);
      if resolveSubpage && sections[s].mr.Subpage? {
        s := subpages[sections[s].mr.table][addr % TARGET_PAGE_SIZE];
      }
    }

    /** phys_section_add; `ok` is false where its assertion fails. */
    method SectionAdd(section: Section) returns (ok: bool, n: nat)
      requires |sections| <= TARGET_PAGE_SIZE
      modifies this`sections
      ensures ok == (old(|sections|) < TARGET_PAGE_SIZE) && n == old(|sections|)
      ensures sections == if ok then old(sections) + [section] else old(sections)
    {
      ok, n := |sections| < TARGET_PAGE_SIZE, |sections|;
      if ok {
        sections := sections + [section];
      }
    }

    /** phys_page_set: reserve generously, then fill from the root. */
    method PageSet(index: nat, nb: nat, leaf: nat)
      requires MapOk(nodes, labels) && MapFlat(nodes, labels)
      requires EntryOk(labels, physMap, P_L2_LEVELS, 0) && EntryFlat(physMap, P_L2_LEVELS)
      requires nb > 0 && index + nb <= Span(P_L2_LEVELS) && UNASSIGNED < leaf < TARGET_PAGE_SIZE
      requires AllFree(nodes, physMap, P_L2_LEVELS, index, index + nb)
      requires |nodes| + 2 * P_L2_LEVELS - 1 <= NODE_NIL
      modifies this`physMap, this`nodes, this`nodesNbAlloc, this`labels
      ensures MapOk(nodes, labels) && MapFlat(nodes, labels)
      ensures EntryOk(labels, physMap, P_L2_LEVELS, 0) && EntryFlat(physMap, P_L2_LEVELS)
      ensures |nodes| <= old(|nodes|) + 2 * P_L2_LEVELS - 1
      ensures Painted(old(nodes), old(physMap), nodes, physMap, P_L2_LEVELS, 0, index, index + nb, leaf)
    {
      hide MapOk, MapFlat, Painted, EntryFlat, AllFree;
      NodeReserve(3 * P_L2_LEVELS);
      var lp, _, _ := SetLevel(physMap, index, nb, leaf, P_L2_LEVELS - 1, 0);
      physMap := lp;
    }

    method RegisterMultipage(now: Section) returns (ok: bool)
      requires Building() && Paged(now) && now.mr.Memory? && Vacant(Now(), now)
      modifies this
      ensures old(|sections|) < TARGET_PAGE_SIZE <==> ok
      ensures ok ==>
                Building() && |sections| == old(|sections|) + 1 && Registered(old(Now()), Now(), now, |sections| - 1)
    {
      hide Built, MapOk, MapFlat, Painted, EntryOk, EntryFlat, AllFree, Vacant, Registered, InBounds;
      var n;
      ok, n := SectionAdd(now);
      if !ok {
        return;
      }
      var start, numPages := now.offset / TARGET_PAGE_SIZE, now.size / TARGET_PAGE_SIZE;
      SpanSix();
      VacantRunIsFree(old(Now()), mapped, now);
      PageSet(start, numPages, n);
      MultipageStep(old(Now()), mapped, Now(), now);
      mapped := mapped + {n};
      BuiltInBounds(Now(), mapped);
    }

    /** subpage_register. */
    method SubpageRegister(t: nat, start: nat, end: nat, section: nat)
      requires t < |subpages| && |subpages[t]| == TARGET_PAGE_SIZE && start <= end < TARGET_PAGE_SIZE
      modifies this`subpages
      ensures subpages == old(subpages)[t := Filled(old(subpages[t]), start, end, section)]
    {
      var idx := start;
      var table := subpages[t];
      while idx <= end
        invariant start <= idx <= end + 1 && |table| == TARGET_PAGE_SIZE
        invariant forall o :: 0 <= o < TARGET_PAGE_SIZE ==>
                    table[o] == if start <= o < idx then section else old(subpages[t])[o]
      {
        table := table[idx := section];
        idx := idx + 1;
      }
      subpages := subpages[t := table];
      assert table == Filled(old(subpages[t]), start, end, section);
    }

    /** Create an empty subpage for a free page. */
    method NewSubpage(idx: nat) returns (ok: bool, c: nat)
      requires Building() && (idx + 1) * TARGET_PAGE_SIZE <= ADDR_END && Raw(Now(), idx) == UNASSIGNED
      modifies this
      ensures old(|sections|) < TARGET_PAGE_SIZE <==> ok
      ensures ok ==> BuildingWith(old(|subpages|)) && old(sections) < sections && |sections| == old(|sections|) + 1
      ensures ok ==> c == old(|sections|)
                     && sections[c] == Section(Subpage(old(|subpages|)), idx * TARGET_PAGE_SIZE, 0, TARGET_PAGE_SIZE)
      ensures ok ==> forall addr: nat :: addr < ADDR_END ==> Resolve(Now(), addr) == old(Resolve(Now(), addr))
    {
      hide Built, MapOk, MapFlat, Painted, EntryOk, EntryFlat, AllFree, InBounds, Resolve, Raw;
      FreePage(Now(), idx);
      ok, c := SectionAdd(Section(Subpage(|subpages|), idx * TARGET_PAGE_SIZE, 0, TARGET_PAGE_SIZE));
      if !ok {
        return;
      }
      subpages := subpages + [seq(TARGET_PAGE_SIZE, _ => UNASSIGNED)];
      SpanSix();
      PageSet(idx, 1, c);
      ContainerStep(old(Now()), mapped, Now(), idx);
      mapped := mapped + {c};
    }

    /** The subpage container of the page `now` lies in, created if there is none yet. */
    method EnsureSubpage(now: Section) returns (ok: bool, c: nat, ghost blank: int)
      requires Building() && Announced(now) && Vacant(Now(), now)
      modifies this
      ensures old(|sections|) < TARGET_PAGE_SIZE ==> ok
      ensures ok ==> BuildingWith(blank) && old(|sections|) <= |sections| <= old(|sections|) + 1
      ensures ok ==> FIRST_SECTION <= c < |sections| && sections[c].mr.Subpage?
                     && sections[c].offset == now.offset / TARGET_PAGE_SIZE * TARGET_PAGE_SIZE
      ensures ok ==> blank == -1 || blank == sections[c].mr.table
      ensures ok ==> old(sections) <= sections
                     && forall addr: nat :: addr < ADDR_END ==> Resolve(Now(), addr) == old(Resolve(Now(), addr))
    {
      hide Built, MapOk, MapFlat, EntryOk, EntryFlat, Vacant, InBounds, Raw, Resolve, Find;
      var idx := now.offset / TARGET_PAGE_SIZE;
      VacantPieceFinds(Now(), mapped, now);
      c := PageFind(idx * TARGET_PAGE_SIZE);
      assert sections[c].mr.Subpage? || c == UNASSIGNED;
      if sections[c].mr.Subpage? {
        ok, blank := true, -1;
      } else {
        blank := |subpages|;
        ok, c := NewSubpage(idx);
      }
    }

    method RegisterSubpage(now: Section) returns (ok: bool)
      requires Building() && Announced(now) && Vacant(Now(), now)
      requires now.offset % TARGET_PAGE_SIZE + now.size <= TARGET_PAGE_SIZE
      modifies this
      ensures old(|sections|) + 2 <= TARGET_PAGE_SIZE ==> ok
      ensures ok ==> Building() && old(|sections|) < |sections| <= old(|sections|) + 2
      ensures ok ==> Registered(old(Now()), Now(), now, |sections| - 1)
    {
      hide Built, MapOk, MapFlat, EntryOk, EntryFlat, Vacant, InBounds, Raw, Find, Resolve, Filled;
      var c, n;
      ghost var blank;
      ok, c, blank := EnsureSubpage(now);
      if !ok {
        return;
      }
      ghost var mid := Now();
      var start, t := now.offset % TARGET_PAGE_SIZE, sections[c].mr.table;
      ok, n := SectionAdd(now);
      if !ok {
        return;
      }
      TableFits(mid, mapped, blank, c);
      SubpageRegister(t, start, start + now.size - 1, n);
      PieceStep(mid, mapped, blank, Now(), now, c);
      RegisteredAfter(old(Now()), mid, Now(), now, n);
      BuiltInBounds(Now(), mapped);
    }

    /** Register the next piece of what remains of a section. */
    method AddPiece(remain: Section) returns (ok: bool, now: Section)
      requires Building() && Announced(remain) && Vacant(Now(), remain) && remain.offset % TARGET_PAGE_SIZE == 0
      modifies this
      ensures old(|sections|) + 2 <= TARGET_PAGE_SIZE ==> ok
      ensures ok ==> Building() && old(|sections|) < |sections|
      ensures ok ==> |sections| <= old(|sections|) + if remain.size < TARGET_PAGE_SIZE then 2 else 1
      ensures ok ==> Registered(old(Now()), Now(), now, |sections| - 1)
      ensures ok ==> now == remain.(size := now.size) && 0 < now.size <= remain.size
      ensures ok ==>
                now.size == remain.size
                || ((remain.offset + now.size) % TARGET_PAGE_SIZE == 0 && remain.size - now.size < TARGET_PAGE_SIZE)
    {
      now := remain;
      if remain.size < TARGET_PAGE_SIZE {
        ok := RegisterSubpage(now);
      } else {
        // The test for an unaligned remainder of a page or more is never true here.
        now := now.(size := now.size - now.size % TARGET_PAGE_SIZE);
        VacantPart(Now(), remain, now.size);
        ok := RegisterMultipage(now);
      }
    }

    /** Register the part of a section before its first page boundary, if it starts inside a page. */
    method AddHead(section: Section) returns (ok: bool, now: Section)
      requires Building() && Announced(section) && Vacant(Now(), section)
      modifies this
      ensures old(|sections|) + 2 <= TARGET_PAGE_SIZE ==> ok
      ensures ok ==> Building() && |sections| <= old(|sections|) + 2
      ensures ok ==> now.size <= section.size && Announces(old(Now()), Now(), Below(section, section.offset + now.size))
      ensures ok ==> now.size == section.size || (section.offset + now.size) % TARGET_PAGE_SIZE == 0
    {
      hide Built, Announces, Vacant, MapOk, MapFlat, Registered, InBounds, EntryOk, EntryFlat;
      ok, now := true, section.(size := 0);
      AnnounceNone(Now(), section);
      if section.offset % TARGET_PAGE_SIZE != 0 {
        HeadPiece(section.offset, section.size);
        var aligned := (section.offset / TARGET_PAGE_SIZE + 1) * TARGET_PAGE_SIZE % ADDR_END;
        var left := (aligned - section.offset) % ADDR_END;
        now := now.(size := if left < section.size then left else section.size);
        VacantPart(Now(), section, now.size);
        ok := RegisterSubpage(now);
        if ok {
          AnnounceNext(old(Now()), old(Now()), Now(), section, section.offset, now);
        }
      }
    }

    /** mem_add: split a section at page boundaries and register the pieces. */
    method MemAdd(section: Section) returns (ok: bool)
      requires Building() && Announced(section) && Vacant(Now(), section)
      modifies this
      ensures old(|sections|) + 5 <= TARGET_PAGE_SIZE ==> ok
      ensures ok ==> Building() && |sections| <= old(|sections|) + 5 && Announces(old(Now()), Now(), section)
    {
      hide Built, Announces, Vacant, MapOk, MapFlat, Registered, InBounds, EntryOk, EntryFlat;
      var now, remain;
      remain := section;
      ok, now := AddHead(section);
      if !ok {
        return;
      }
      ghost var cut := section.offset + now.size;
      while remain.size != now.size
        invariant Building() && cut == remain.offset + now.size
        invariant section.offset <= cut <= section.offset + section.size
        invariant remain.mr == section.mr
        invariant remain.regionOffset - remain.offset == section.regionOffset - section.offset
        invariant remain.offset + remain.size == section.offset + section.size && now.size <= remain.size
        invariant remain.size != now.size ==> cut % TARGET_PAGE_SIZE == 0
        invariant Announces(old(Now()), Now(), Below(section, cut))
        invariant |sections| <= old(|sections|) + 5
        invariant remain.size != now.size ==> |sections| <= old(|sections|) + 3
        invariant remain.size - now.size >= TARGET_PAGE_SIZE ==> |sections| <= old(|sections|) + 2
        decreases section.offset + section.size - cut
      {
        ghost var v1 := Now();
        remain := remain.(size := remain.size - now.size, offset := remain.offset + now.size,
                          regionOffset := remain.regionOffset + now.size);
        StillVacant(old(Now()), Now(), section, cut, remain);
        ok, now := AddPiece(remain);
        if !ok {
          return;
        }
        AnnounceNext(old(Now()), v1, Now(), section, cut, now);
        cut := cut + now.size;
      }
      assert Below(section, cut) == section;
    }
  }

  /** A whole topology update: mem_begin, mem_add for every section, mem_commit. */
  method BuildDispatch(list: seq<Section>) returns (ok: bool, d: AddressSpaceDispatch)
    requires forall i :: 0 <= i < |list| ==> Announced(list[i])
    requires PairwiseApart(list)
    ensures FIRST_SECTION + 5 * |list| <= TARGET_PAGE_SIZE ==> ok
    ensures ok ==> d.Valid() && AnswersAll(d.Now(), list) && Tight(d.nodes, d.physMap, P_L2_LEVELS)
  {
    hide Built, Announces, Vacant, MapOk, MapFlat, InBounds, EntryOk, EntryFlat, AnswersAll, Resolve, Find, Tight;
    d := new AddressSpaceDispatch();
    ok := true;
    AnswersNone(d.Now());
    var i := 0;
    while i < |list|
      invariant 0 <= i <= |list| && fresh(d)
      invariant d.Building() && |d.sections| <= FIRST_SECTION + 5 * i
      invariant AnswersAll(d.Now(), list[..i])
    {
      ghost var v := d.Now();
      NextIsVacant(v, list[..i], list[i]);
      ok := d.MemAdd(list[i]);
      if !ok {
        return;
      }
      AnswersGrow(v, d.Now(), list[..i], list[i]);
      assert list[..i] + [list[i]] == list[..i + 1];
      i := i + 1;
    }
    assert list[..i] == list;
    ghost var v := d.Now();
    d.CompactAll();
    AnswersKept(v, d.Now(), list);
  }
}
