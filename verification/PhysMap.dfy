/** The radix tree behind a physical address space (qemu-2.0/exec.c).

    Nodes live in one growing table and refer to each other by index.  An entry
    of height `h` stands for an aligned block of `Span(h)` pages; a node of
    height `h` splits such a block into P_L2_SIZE entries of height `h - 1`. */
module PhysMap {
  import opened Arith

  const P_L2_SIZE: nat := 512
  const P_L2_LEVELS: nat := 6
  const NODE_NIL: nat := 0x3FF_FFFF
  const TARGET_PAGE_SIZE: nat := 4096
  const UNASSIGNED: nat := 0

  /** `skip` levels down to node `ptr`, or (skip == 0) a leaf holding section `ptr`. */
  datatype Entry = Entry(skip: nat, ptr: nat)

  const NIL_ENTRY := Entry(1, NODE_NIL)

  type Node = s: seq<Entry> | |s| == P_L2_SIZE witness seq(P_L2_SIZE, _ => NIL_ENTRY)

  /** Where a node sits: the block of pages [base, base + Span(height)). */
  datatype Label = Label(height: nat, base: nat)

  function Span(h: nat): (s: nat)
    ensures s > 0
  {
    if h == 0 then 1 else P_L2_SIZE * Span(h - 1)
  }

  /** The digit of page number `idx` that selects the entry in a node of height h + 1. */
  function Digit(idx: nat, h: nat): (d: nat)
    ensures d < P_L2_SIZE
  {
    (idx / Span(h)) % P_L2_SIZE
  }

  /** The walk of phys_page_find, before its range check. */
  function Lookup(nodes: seq<Node>, e: Entry, h: nat, idx: nat): nat
    decreases h
  {
    if e.skip == 0 then e.ptr
    else if e.skip > h || e.ptr >= |nodes| then UNASSIGNED
    else Lookup(nodes, nodes[e.ptr][Digit(idx, h - e.skip)], h - e.skip, idx)
  }

  predicate InBlock(l: Label, h: nat, b: nat) {
    l.height <= h && b <= l.base < b + Span(h)
  }

  ghost predicate EntryOk(labels: seq<Label>, e: Entry, h: nat, b: nat) {
    if e.skip == 0 then e.ptr < TARGET_PAGE_SIZE
    else
      && e.skip <= h
      && (e.ptr == NODE_NIL ||
          (&& e.ptr < |labels|
           && labels[e.ptr].height == h - e.skip + 1
           && b <= labels[e.ptr].base
           && labels[e.ptr].base + Span(labels[e.ptr].height) <= b + Span(h)))
  }

  ghost predicate NodeOk(labels: seq<Label>, node: Node, l: Label) {
    && l.height > 0
    && l.base % Span(l.height) == 0
    && forall i :: 0 <= i < P_L2_SIZE ==> EntryOk(labels, node[i], l.height - 1, l.base + i * Span(l.height - 1))
  }

  ghost predicate MapOk(nodes: seq<Node>, labels: seq<Label>) {
    && |nodes| == |labels| <= NODE_NIL
    && forall m :: 0 <= m < |nodes| ==> NodeOk(labels, nodes[m], labels[m])
  }

  /** The entries phys_page_set_level leaves behind: no skipping, no unassigned leaf above level 0. */
  ghost predicate EntryFlat(e: Entry, h: nat) {
    e.skip <= 1 && (e.skip == 0 && h > 0 ==> e.ptr != UNASSIGNED)
  }

  ghost predicate NodeFlat(node: Node, l: Label) {
    l.height > 0 && forall i :: 0 <= i < P_L2_SIZE ==> EntryFlat(node[i], l.height - 1)
  }

  ghost predicate MapFlat(nodes: seq<Node>, labels: seq<Label>) {
    |nodes| == |labels| && forall m :: 0 <= m < |nodes| ==> NodeFlat(nodes[m], labels[m])
  }

  /** Only nodes inside the block may differ. */
  ghost predicate ChangedOnlyIn(nodes: seq<Node>, nodes': seq<Node>, labels: seq<Label>, h: nat, b: nat) {
    && |nodes| == |labels| <= |nodes'|
    && forall m :: 0 <= m < |nodes| ==> nodes'[m] == nodes[m] || InBlock(labels[m], h, b)
  }

  /** The nodes inside the block are the same in both tables. */
  ghost predicate SameIn(nodes: seq<Node>, nodes': seq<Node>, labels: seq<Label>, h: nat, b: nat) {
    && |nodes| == |labels| <= |nodes'|
    && forall m :: 0 <= m < |nodes| && InBlock(labels[m], h, b) ==> nodes'[m] == nodes[m]
  }

  lemma SpanSplits(h: nat, i: nat)
    requires i < P_L2_SIZE
    ensures Span(h + 1) == P_L2_SIZE * Span(h)
    ensures (i + 1) * Span(h) <= Span(h + 1)
    ensures i * Span(h) + Span(h) == (i + 1) * Span(h)
  {
    MulMono(i + 1, P_L2_SIZE, Span(h));
  }

  /** Inside an aligned block the digit says which sub-block a page lies in. */
  lemma DigitOfBlock(b: nat, h: nat, idx: nat, i: nat)
    requires b % Span(h + 1) == 0 && i < P_L2_SIZE
    requires b + i * Span(h) <= idx < b + (i + 1) * Span(h)
    ensures Digit(idx, h) == i
  {
    SpanSplits(h, i);
    DivSplit(b, Span(h + 1));
    DigitIs(Span(h), b / Span(h + 1), idx, i);
  }

  lemma DigitIs(s: nat, c: nat, idx: nat, i: nat)
    requires s > 0 && i < P_L2_SIZE && c * (P_L2_SIZE * s) + i * s <= idx < c * (P_L2_SIZE * s) + (i + 1) * s
    ensures idx / s % P_L2_SIZE == i
  {
    Associate(c, P_L2_SIZE, s);
    Distribute(c * P_L2_SIZE, i, s);
    Distribute(c * P_L2_SIZE, i + 1, s);
    DivUnique(idx, s, c * P_L2_SIZE + i);
    ModAdd(i, P_L2_SIZE, c);
  }

  lemma BlockOfDigit(b: nat, h: nat, idx: nat)
    requires b % Span(h + 1) == 0 && b <= idx < b + Span(h + 1)
    ensures b + Digit(idx, h) * Span(h) <= idx < b + (Digit(idx, h) + 1) * Span(h)
  {
    var s := Span(h);
    var i := (idx - b) / s;
    assert idx - b == s * i + (idx - b) % s;
    assert i * s <= idx - b < (i + 1) * s;
    if i >= P_L2_SIZE { MulMono(P_L2_SIZE, i, s); }
    DigitOfBlock(b, h, idx, i);
  }

  lemma SubBlockAligned(b: nat, h: nat, i: nat)
    requires b % Span(h + 1) == 0
    ensures (b + i * Span(h)) % Span(h) == 0
  {
    var s, c := Span(h), b / Span(h + 1);
    assert b + i * s == (c * P_L2_SIZE + i) * s by { assert b == Span(h + 1) * c; }
    DivUnique(b + i * s, s, c * P_L2_SIZE + i);
  }

  lemma AlignedInBlock(b: nat, h: nat, idx: nat)
    requires b % Span(h) == 0 && b <= idx < b + Span(h)
    ensures idx % Span(h) == 0 <==> idx == b
  {
    var s := Span(h);
    assert b == s * (b / s);
    DivUnique(idx, s, b / s);
  }

  /** Two different sub-blocks of one node share no page. */
  lemma SubBlocksApart(b: nat, h: nat, i: nat, j: nat, x: nat)
    requires i != j && b + i * Span(h) <= x < b + i * Span(h) + Span(h)
    ensures !(b + j * Span(h) <= x < b + j * Span(h) + Span(h))
  {
    var s := Span(h);
    if i < j { MulNext(i, j, s); } else { MulNext(j, i, s); }
  }

  /** What is the same in a block is the same in the blocks of the entries below. */
  lemma KidSame(nodes: seq<Node>, nodes': seq<Node>, labels: seq<Label>, e: Entry, h: nat, b: nat, d: nat)
    requires MapOk(nodes, labels) && EntryOk(labels, e, h, b) && SameIn(nodes, nodes', labels, h, b)
    requires e.skip != 0 && e.ptr < |nodes| && d < P_L2_SIZE
    ensures 0 < e.skip <= h && nodes'[e.ptr] == nodes[e.ptr]
    ensures var k, kb := h - e.skip, labels[e.ptr].base + d * Span(h - e.skip);
            EntryOk(labels, nodes[e.ptr][d], k, kb) && SameIn(nodes, nodes', labels, k, kb)
  {
    hide Span;
    var l, k := labels[e.ptr], h - e.skip;
    assert NodeOk(labels, nodes[e.ptr], l);
    SpanSplits(k, d);
    MulMono(0, d, Span(k));
    forall m | 0 <= m < |nodes| && InBlock(labels[m], k, l.base + d * Span(k)) ensures nodes'[m] == nodes[m] {
      assert InBlock(labels[m], h, b);
    }
  }

  /** A walk reads only nodes inside the block of the entry it starts from. */
  lemma {:induction false} LookupFrame(nodes: seq<Node>, nodes': seq<Node>, labels: seq<Label>, e: Entry, h: nat,
                                       b: nat, idx: nat)
    requires MapOk(nodes, labels) && EntryOk(labels, e, h, b) && SameIn(nodes, nodes', labels, h, b)
    requires |nodes'| <= NODE_NIL
    ensures Lookup(nodes', e, h, idx) == Lookup(nodes, e, h, idx)
    decreases h
  {
    if e.skip != 0 && e.ptr < |nodes| {
      assert e.skip <= h;
      hide EntryOk, SameIn, Span;
      var k := h - e.skip;
      var d := Digit(idx, k);
      KidSame(nodes, nodes', labels, e, h, b, d);
      LookupFrame(nodes, nodes', labels, nodes[e.ptr][d], k, labels[e.ptr].base + d * Span(k), idx);
    }
  }

  /** A walk from height h uses only the digits below h. */
  lemma {:induction false} LookupMod(nodes: seq<Node>, labels: seq<Label>, e: Entry, h: nat, b: nat, i: nat, j: nat)
    requires MapOk(nodes, labels) && EntryOk(labels, e, h, b)
    requires forall k :: 0 <= k < h ==> Digit(i, k) == Digit(j, k)
    ensures Lookup(nodes, e, h, i) == Lookup(nodes, e, h, j)
    decreases h
  {
    if e.skip != 0 && e.ptr < |nodes| {
      var l, k := labels[e.ptr], h - e.skip;
      assert NodeOk(labels, nodes[e.ptr], l);
      LookupMod(nodes, labels, nodes[e.ptr][Digit(i, k)], k, l.base + Digit(i, k) * Span(k), i, j);
    }
  }

  lemma EntryOkGrows(labels: seq<Label>, labels': seq<Label>, e: Entry, h: nat, b: nat)
    requires EntryOk(labels, e, h, b) && labels <= labels'
    ensures EntryOk(labels', e, h, b)
  {
  }

  lemma MapGrows(nodes: seq<Node>, labels: seq<Label>, node: Node, l: Label)
    requires MapOk(nodes, labels) && |nodes| < NODE_NIL && NodeOk(labels + [l], node, l)
    ensures MapOk(nodes + [node], labels + [l])
  {
    var labels' := labels + [l];
    forall m | 0 <= m < |nodes| ensures NodeOk(labels', nodes[m], labels[m]) {
      assert NodeOk(labels, nodes[m], labels[m]);
      forall i | 0 <= i < P_L2_SIZE
        ensures EntryOk(labels', nodes[m][i], labels[m].height - 1, labels[m].base + i * Span(labels[m].height - 1))
      {
        EntryOkGrows(labels, labels', nodes[m][i], labels[m].height - 1,
                     labels[m].base + i * Span(labels[m].height - 1));
      }
    }
  }

  /** The table after one slot of node `p` is overwritten. */
  function WithKid(nodes: seq<Node>, p: nat, k: nat, e: Entry): seq<Node>
    requires p < |nodes| && k < P_L2_SIZE
  {
    nodes[p := nodes[p][k := e]]
  }

  lemma ReplaceKidOk(nodes: seq<Node>, labels: seq<Label>, nodes1: seq<Node>, labels1: seq<Label>,
                     p: nat, k: nat, e: Entry, h: nat, b: nat)
    requires MapOk(nodes, labels) && MapOk(nodes1, labels1) && labels <= labels1
    requires p < |nodes| && k < P_L2_SIZE && labels[p] == Label(h + 1, b)
    requires ChangedOnlyIn(nodes, nodes1, labels, h, b + k * Span(h))
    requires EntryOk(labels1, e, h, b + k * Span(h))
    ensures nodes1[p] == nodes[p]
    ensures MapOk(WithKid(nodes1, p, k, e), labels1)
    ensures ChangedOnlyIn(nodes, WithKid(nodes1, p, k, e), labels, h + 1, b)
  {
    hide EntryOk, Lookup, Span;
    var nodes2 := WithKid(nodes1, p, k, e);
    SpanSplits(h, k);
    ChangedWiden(nodes, nodes1, labels, h, b + k * Span(h), h + 1, b);
    assert NodeOk(labels1, nodes1[p], labels1[p]);
    assert NodeOk(labels1, nodes2[p], labels1[p]);
  }

  /** Work below one slot of a node, followed by a write to that slot, is seen through
      the node in that slot only. */
  lemma ReplaceKid(nodes: seq<Node>, labels: seq<Label>, nodes1: seq<Node>, labels1: seq<Label>,
                   p: nat, k: nat, e: Entry, h: nat, b: nat, idx: nat)
    requires MapOk(nodes, labels) && MapOk(nodes1, labels1) && labels <= labels1
    requires p < |nodes| && k < P_L2_SIZE && labels[p] == Label(h + 1, b)
    requires ChangedOnlyIn(nodes, nodes1, labels, h, b + k * Span(h))
    requires EntryOk(labels1, e, h, b + k * Span(h))
    ensures Lookup(WithKid(nodes1, p, k, e), Entry(1, p), h + 1, idx) ==
            if Digit(idx, h) == k then Lookup(nodes1, e, h, idx) else Lookup(nodes, Entry(1, p), h + 1, idx)
  {
    hide EntryOk, Span, Digit;
    var nodes2 := WithKid(nodes1, p, k, e);
    var d := Digit(idx, h);
    ReplaceKidOk(nodes, labels, nodes1, labels1, p, k, e, h, b);
    if d == k {
      assert SameIn(nodes1, nodes2, labels1, h, b + k * Span(h));
      LookupFrame(nodes1, nodes2, labels1, e, h, b + k * Span(h), idx);
    } else {
      assert NodeOk(labels, nodes[p], labels[p]);
      assert SameIn(nodes, nodes2, labels, h, b + d * Span(h)) by {
        forall m | 0 <= m < |nodes| && InBlock(labels[m], h, b + d * Span(h)) ensures nodes2[m] == nodes[m] {
          SubBlocksApart(b, h, d, k, labels[m].base);
        }
      }
      LookupFrame(nodes, nodes2, labels, nodes[p][d], h, b + d * Span(h), idx);
    }
  }

  lemma ChangedTrans(nodes: seq<Node>, nodes1: seq<Node>, nodes2: seq<Node>, labels: seq<Label>, labels1: seq<Label>,
                     h: nat, b: nat)
    requires ChangedOnlyIn(nodes, nodes1, labels, h, b) && ChangedOnlyIn(nodes1, nodes2, labels1, h, b)
    requires labels <= labels1
    ensures ChangedOnlyIn(nodes, nodes2, labels, h, b)
  {
  }

  lemma ChangedNone(nodes: seq<Node>, nodes': seq<Node>, labels: seq<Label>, h: nat, b: nat)
    requires nodes <= nodes' && |nodes| == |labels|
    ensures ChangedOnlyIn(nodes, nodes', labels, h, b)
  {
  }

  lemma ChangedWiden(nodes: seq<Node>, nodes1: seq<Node>, labels: seq<Label>, h: nat, b: nat, h': nat, b': nat)
    requires ChangedOnlyIn(nodes, nodes1, labels, h, b) && h <= h' && b' <= b && b + Span(h) <= b' + Span(h')
    ensures ChangedOnlyIn(nodes, nodes1, labels, h', b')
  {
  }

  lemma FreeIsNode(nodes: seq<Node>, e: Entry, h: nat, from: nat, to: nat)
    requires EntryFlat(e, h) && h > 0 && from < to && AllFree(nodes, e, h, from, to)
    ensures e.skip == 1
  {
    assert Lookup(nodes, e, h, from) == UNASSIGNED;
  }

  lemma SlotEntry(nodes: seq<Node>, labels: seq<Label>, p: nat, k: nat, h: nat, b: nat)
    requires MapOk(nodes, labels) && MapFlat(nodes, labels) && p < |nodes| && k < P_L2_SIZE
    requires labels[p] == Label(h + 1, b)
    ensures |nodes| == |labels| && EntryOk(labels, nodes[p][k], h, b + k * Span(h)) && EntryFlat(nodes[p][k], h)
    ensures (b + k * Span(h)) % Span(h) == 0
  {
    assert NodeOk(labels, nodes[p], labels[p]) && NodeFlat(nodes[p], labels[p]);
    SubBlockAligned(b, h, k);
  }

  lemma BaseAligned(nodes: seq<Node>, labels: seq<Label>, p: nat)
    requires MapOk(nodes, labels) && p < |nodes|
    ensures |nodes| == |labels| && labels[p].height > 0 && labels[p].base % Span(labels[p].height) == 0
  {
    assert NodeOk(labels, nodes[p], labels[p]);
  }

  lemma StepKid(nodes: seq<Node>, p: nat, h: nat, idx: nat)
    requires p < |nodes|
    ensures Lookup(nodes, Entry(1, p), h + 1, idx) == Lookup(nodes, nodes[p][Digit(idx, h)], h, idx)
  {
  }

  lemma MapSize(nodes: seq<Node>, labels: seq<Label>)
    requires MapOk(nodes, labels)
    ensures |nodes| == |labels| <= NODE_NIL
  {
  }

  lemma EntryFits(labels: seq<Label>, e: Entry, h: nat, b: nat)
    requires EntryOk(labels, e, h, b)
    ensures e.skip <= h && (e.skip > 0 && e.ptr != NODE_NIL ==> e.ptr < |labels|)
  {
  }

  lemma NilLookup(nodes: seq<Node>, labels: seq<Label>, e: Entry, h: nat, idx: nat)
    requires MapOk(nodes, labels) && e.skip > 0 && e.ptr == NODE_NIL
    ensures Lookup(nodes, e, h, idx) == UNASSIGNED
  {
  }

  /** One step of the walk. */
  lemma StepDown(nodes: seq<Node>, labels: seq<Label>, e: Entry, h: nat, b: nat, idx: nat) returns (b': nat)
    requires MapOk(nodes, labels) && EntryOk(labels, e, h, b) && e.skip > 0 && e.ptr != NODE_NIL
    ensures e.ptr < |nodes|
    ensures EntryOk(labels, nodes[e.ptr][Digit(idx, h - e.skip)], h - e.skip, b')
    ensures Lookup(nodes, e, h, idx) == Lookup(nodes, nodes[e.ptr][Digit(idx, h - e.skip)], h - e.skip, idx)
  {
    assert NodeOk(labels, nodes[e.ptr], labels[e.ptr]);
    b' := labels[e.ptr].base + Digit(idx, h - e.skip) * Span(h - e.skip);
  }

  lemma FlatKid(nodes1: seq<Node>, labels1: seq<Label>, p: nat, k: nat, e: Entry)
    requires MapFlat(nodes1, labels1) && p < |nodes1| && k < P_L2_SIZE && labels1[p].height > 0
    requires EntryFlat(e, labels1[p].height - 1)
    ensures MapFlat(WithKid(nodes1, p, k, e), labels1)
  {
    var nodes2 := WithKid(nodes1, p, k, e);
    forall m | 0 <= m < |nodes2| ensures NodeFlat(nodes2[m], labels1[m]) {
      assert NodeFlat(nodes1[m], labels1[m]);
    }
  }

  /** Nodes one phys_page_set_level call may allocate: one per level for a range that
      reaches an end of its block, one per level on each side otherwise. */
  function NodesNeeded(index: nat, nb: nat, level: nat, b: nat): nat {
    if index == b || index + nb >= b + Span(level + 1) then level + 1 else 2 * level + 1
  }

  /** The same for one slot: nothing when the range covers the whole slot. */
  function SlotNeeded(index: nat, nb: nat, level: nat, b: nat): nat {
    if index == b && nb >= Span(level) then 0
    else if level == 0 then 0
    else NodesNeeded(index, nb, level - 1, b)
  }

  function Stop(index: nat, nb: nat, bound: nat): nat {
    if index + nb < bound then index + nb else bound
  }

  /** The loop of phys_page_set_level enters its first slot anywhere and every later slot at its start. */
  ghost predicate AtSlot(index0: nat, k0: nat, index: nat, k: nat, level: nat, b: nat) {
    (k == k0 && index == index0) || (k > k0 && index == b + k * Span(level))
  }

  /** Nodes allocated while there is still a slot to come. */
  ghost function SpentBefore(index0: nat, k0: nat, k: nat, level: nat, b: nat): nat {
    1 + if index0 != b + k0 * Span(level) && k > k0 then level else 0
  }

  lemma SlotFits(index0: nat, nb0: nat, index: nat, nb: nat, k0: nat, k: nat, level: nat, b: nat)
    requires k0 <= k < P_L2_SIZE && nb > 0 && index + nb == index0 + nb0
    requires b + k0 * Span(level) <= index0 < b + k0 * Span(level) + Span(level)
    requires AtSlot(index0, k0, index, k, level, b)
    ensures b + k * Span(level) <= index < b + k * Span(level) + Span(level) <= b + Span(level + 1)
    ensures SpentBefore(index0, k0, k, level, b) + SlotNeeded(index, nb, level, b + k * Span(level))
              <= NodesNeeded(index0, nb0, level, b)
    ensures index + nb > b + k * Span(level) + Span(level) ==>
              && AtSlot(index0, k0, b + k * Span(level) + Span(level), k + 1, level, b)
              && SpentBefore(index0, k0, k, level, b) + SlotNeeded(index, nb, level, b + k * Span(level))
                   <= SpentBefore(index0, k0, k + 1, level, b)
  {
    SpanSplits(level, k);
    if k > k0 { MulMono(k0 + 1, k, Span(level)); }
    if k0 > 0 { MulMono(1, k0, Span(level)); }
  }

  ghost predicate AllFree(nodes: seq<Node>, e: Entry, h: nat, from: nat, to: nat) {
    forall idx: nat :: from <= idx < to ==> Lookup(nodes, e, h, idx) == UNASSIGNED
  }

  /** Over its block, the second tree is the first with pages [from, to) set to `leaf`. */
  ghost predicate Painted(nodes: seq<Node>, e: Entry, nodes': seq<Node>, e': Entry, h: nat, b: nat,
                          from: nat, to: nat, leaf: nat)
  {
    forall idx: nat :: b <= idx < b + Span(h) ==>
      Lookup(nodes', e', h, idx) == if from <= idx < to then leaf else Lookup(nodes, e, h, idx)
  }

  ghost predicate SameView(nodes: seq<Node>, e: Entry, nodes': seq<Node>, e': Entry, h: nat) {
    forall idx: nat :: Lookup(nodes', e', h, idx) == Lookup(nodes, e, h, idx)
  }

  lemma PaintNone(nodes: seq<Node>, e: Entry, nodes': seq<Node>, e': Entry, h: nat, b: nat, from: nat, leaf: nat)
    requires SameView(nodes, e, nodes', e', h)
    ensures Painted(nodes, e, nodes', e', h, b, from, from, leaf)
  {
  }

  lemma PaintLeaf(nodes: seq<Node>, e: Entry, h: nat, b: nat, leaf: nat)
    ensures Painted(nodes, e, nodes, Entry(0, leaf), h, b, b, b + Span(h), leaf)
  {
  }

  lemma RestFree(nodes: seq<Node>, e: Entry, nodes': seq<Node>, e': Entry, h: nat, b: nat,
                 from: nat, mid: nat, to: nat, leaf: nat)
    requires b <= from <= mid <= to <= b + Span(h)
    requires AllFree(nodes, e, h, from, to) && Painted(nodes, e, nodes', e', h, b, from, mid, leaf)
    ensures AllFree(nodes', e', h, mid, to)
  {
  }

  lemma FreePrefix(nodes: seq<Node>, e: Entry, h: nat, from: nat, mid: nat, to: nat)
    requires AllFree(nodes, e, h, from, to) && mid <= to
    ensures AllFree(nodes, e, h, from, mid)
  {
  }

  /** A slot is free where its node is. */
  lemma KidFree(nodes: seq<Node>, labels: seq<Label>, p: nat, k: nat, h: nat, b: nat, from: nat, to: nat)
    requires MapOk(nodes, labels) && p < |nodes| && k < P_L2_SIZE && labels[p] == Label(h + 1, b)
    requires AllFree(nodes, Entry(1, p), h + 1, from, to)
    requires b + k * Span(h) <= from && to <= b + k * Span(h) + Span(h)
    ensures AllFree(nodes, nodes[p][k], h, from, to)
  {
    assert NodeOk(labels, nodes[p], labels[p]);
    forall idx: nat | from <= idx < to ensures Lookup(nodes, nodes[p][k], h, idx) == UNASSIGNED {
      DigitOfBlock(b, h, idx, k);
      assert Lookup(nodes, Entry(1, p), h + 1, idx) == UNASSIGNED;
    }
  }

  lemma PaintKidAt(nodes: seq<Node>, labels: seq<Label>, nodes1: seq<Node>, labels1: seq<Label>,
                   p: nat, k: nat, e: Entry, h: nat, b: nat, from: nat, to: nat, leaf: nat, idx: nat)
    requires MapOk(nodes, labels) && MapOk(nodes1, labels1) && labels <= labels1
    requires p < |nodes| && k < P_L2_SIZE && labels[p] == Label(h + 1, b)
    requires ChangedOnlyIn(nodes, nodes1, labels, h, b + k * Span(h))
    requires EntryOk(labels1, e, h, b + k * Span(h))
    requires b + k * Span(h) <= from <= to <= b + k * Span(h) + Span(h)
    requires b <= idx < b + Span(h + 1)
    requires Painted(nodes, nodes[p][k], nodes1, e, h, b + k * Span(h), from, to, leaf)
    ensures Lookup(WithKid(nodes1, p, k, e), Entry(1, p), h + 1, idx) ==
            if from <= idx < to then leaf else Lookup(nodes, Entry(1, p), h + 1, idx)
  {
    hide MapOk, EntryOk, Lookup, Span, ChangedOnlyIn;
    BaseAligned(nodes, labels, p);
    ReplaceKid(nodes, labels, nodes1, labels1, p, k, e, h, b, idx);
    StepKid(nodes, p, h, idx);
    BlockOfDigit(b, h, idx);
    SpanSplits(h, k);
    var d := Digit(idx, h);
    SpanSplits(h, d);
    if d != k {
      SubBlocksApart(b, h, d, k, idx);
    }
  }

  /** What is painted below slot `k` is what is painted in its node. */
  lemma PaintKid(nodes: seq<Node>, labels: seq<Label>, nodes1: seq<Node>, labels1: seq<Label>,
                 p: nat, k: nat, e: Entry, h: nat, b: nat, from: nat, to: nat, leaf: nat)
    requires MapOk(nodes, labels) && MapOk(nodes1, labels1) && labels <= labels1
    requires p < |nodes| && k < P_L2_SIZE && labels[p] == Label(h + 1, b)
    requires ChangedOnlyIn(nodes, nodes1, labels, h, b + k * Span(h))
    requires EntryOk(labels1, e, h, b + k * Span(h))
    requires b + k * Span(h) <= from <= to <= b + k * Span(h) + Span(h)
    requires Painted(nodes, nodes[p][k], nodes1, e, h, b + k * Span(h), from, to, leaf)
    ensures Painted(nodes, Entry(1, p), WithKid(nodes1, p, k, e), Entry(1, p), h + 1, b, from, to, leaf)
  {
    hide MapOk, EntryOk, Lookup, Span;
    var nodes2, h', e' := WithKid(nodes1, p, k, e), h + 1, Entry(1, p);
    forall idx: nat | b <= idx < b + Span(h')
      ensures Lookup(nodes2, e', h', idx) == if from <= idx < to then leaf else Lookup(nodes, e', h', idx)
    {
      PaintKidAt(nodes, labels, nodes1, labels1, p, k, e, h, b, from, to, leaf, idx);
    }
  }

  lemma PaintMore(nodes: seq<Node>, e: Entry, nodes1: seq<Node>, e1: Entry, nodes2: seq<Node>, e2: Entry,
                  h: nat, b: nat, from: nat, mid: nat, to: nat, leaf: nat)
    requires from <= mid <= to
    requires Painted(nodes, e, nodes1, e1, h, b, from, mid, leaf)
    requires Painted(nodes1, e1, nodes2, e2, h, b, mid, to, leaf)
    ensures Painted(nodes, e, nodes2, e2, h, b, from, to, leaf)
  {
  }

  // ---- compaction ----

  lemma {:induction false} SpanAdd(a: nat, b: nat)
    ensures Span(a + b) == Span(a) * Span(b)
    decreases b
  {
    if b > 0 {
      SpanAdd(a, b - 1);
      calc {
        Span(a + b);
        P_L2_SIZE * (Span(a) * Span(b - 1));
        Span(a) * (P_L2_SIZE * Span(b - 1));
      }
    }
  }

  lemma DigitIgnoresHigh(q: nat, x: nat, h: nat, k: nat)
    requires k < h
    ensures Digit(q * Span(h) + x, k) == Digit(x, k)
  {
    var s, m := Span(k), Span(h - k - 1);
    SpanAdd(k, h - k);
    assert q * Span(h) == (q * m * P_L2_SIZE) * s by {
      assert Span(h) == s * (P_L2_SIZE * m);
    }
    ModAdd(x, s, q * m * P_L2_SIZE);
    ModAdd(x / s, P_L2_SIZE, q * m);
  }

  lemma TopDigit(j: nat, h: nat, v: nat)
    requires v < P_L2_SIZE && v * Span(h) <= j < (v + 1) * Span(h)
    ensures Digit(j, h) == v
  {
    hide Span;
    DivUnique(j, Span(h), v);
  }

  /** `j` with its digit at height `h` replaced by `v`. */
  lemma PickDigit(j: nat, v: nat, h: nat) returns (j': nat)
    requires v < P_L2_SIZE
    ensures Digit(j', h) == v && forall k :: 0 <= k < h ==> Digit(j', k) == Digit(j, k)
  {
    hide Span, Digit;
    var s := Span(h);
    j' := v * s + j % s;
    DivSplit(j, s);
    Distribute(v, 1, s);
    TopDigit(j', h, v);
    forall k | 0 <= k < h ensures Digit(j', k) == Digit(j, k) {
      DigitIgnoresHigh(v, j % s, h, k);
      DigitIgnoresHigh(j / s, j % s, h, k);
    }
  }

  ghost predicate Occurs(nodes: seq<Node>, e: Entry, h: nat, s: nat) {
    exists j: nat :: Lookup(nodes, e, h, j) == s
  }

  /** The second tree answers like the first, except that it may give an unassigned page
      some section that the first tree does contain. */
  ghost predicate Coarser(nodes: seq<Node>, e: Entry, nodes': seq<Node>, e': Entry, h: nat) {
    forall idx: nat ::
      || Lookup(nodes', e', h, idx) == Lookup(nodes, e, h, idx)
      || (Lookup(nodes, e, h, idx) == UNASSIGNED && Occurs(nodes, e, h, Lookup(nodes', e', h, idx)))
  }

  lemma CoarserRefl(nodes: seq<Node>, e: Entry, h: nat)
    ensures Coarser(nodes, e, nodes, e, h)
  {
  }

  lemma CoarserTrans(nodes: seq<Node>, e: Entry, nodes1: seq<Node>, e1: Entry, nodes2: seq<Node>, e2: Entry, h: nat)
    requires Coarser(nodes, e, nodes1, e1, h) && Coarser(nodes1, e1, nodes2, e2, h)
    ensures Coarser(nodes, e, nodes2, e2, h)
  {
    forall idx: nat
      ensures Lookup(nodes2, e2, h, idx) == Lookup(nodes, e, h, idx)
              || (Lookup(nodes, e, h, idx) == UNASSIGNED && Occurs(nodes, e, h, Lookup(nodes2, e2, h, idx)))
    {
      var r := Lookup(nodes2, e2, h, idx);
      assert Lookup(nodes1, e1, h, idx) == Lookup(nodes, e, h, idx)
             || (Lookup(nodes, e, h, idx) == UNASSIGNED && Occurs(nodes, e, h, Lookup(nodes1, e1, h, idx)));
      if r != Lookup(nodes1, e1, h, idx) {
        var j: nat :| Lookup(nodes1, e1, h, j) == r;
        assert r == Lookup(nodes, e, h, j) || Occurs(nodes, e, h, r);
      }
    }
  }

  /** A section found below slot `k` is found through the node. */
  lemma OccursBelow(nodes: seq<Node>, labels: seq<Label>, p: nat, k: nat, h: nat, s: nat)
    requires MapOk(nodes, labels) && p < |nodes| && k < P_L2_SIZE && labels[p].height == h + 1
    requires Occurs(nodes, nodes[p][k], h, s)
    ensures Occurs(nodes, Entry(1, p), h + 1, s)
  {
    hide Digit, Span;
    assert NodeOk(labels, nodes[p], labels[p]);
    var j: nat :| Lookup(nodes, nodes[p][k], h, j) == s;
    var j' := PickDigit(j, k, h);
    LookupMod(nodes, labels, nodes[p][k], h, labels[p].base + k * Span(h), j, j');
    assert Lookup(nodes, Entry(1, p), h + 1, j') == s;
  }

  /** Replacing a slot by a coarser subtree makes the node coarser. */
  lemma CoarserKid(nodes: seq<Node>, labels: seq<Label>, nodes1: seq<Node>, p: nat, k: nat, e: Entry, h: nat, b: nat)
    requires MapOk(nodes, labels) && MapOk(nodes1, labels)
    requires p < |nodes| && k < P_L2_SIZE && labels[p] == Label(h + 1, b)
    requires ChangedOnlyIn(nodes, nodes1, labels, h, b + k * Span(h)) && EntryOk(labels, e, h, b + k * Span(h))
    requires Coarser(nodes, nodes[p][k], nodes1, e, h)
    ensures Coarser(nodes, Entry(1, p), WithKid(nodes1, p, k, e), Entry(1, p), h + 1)
  {
    hide MapOk, EntryOk, Lookup, Occurs, Span;
    var nodes2, h', e' := WithKid(nodes1, p, k, e), h + 1, Entry(1, p);
    forall idx: nat
      ensures Lookup(nodes2, e', h', idx) == Lookup(nodes, e', h', idx)
              || (Lookup(nodes, e', h', idx) == UNASSIGNED && Occurs(nodes, e', h', Lookup(nodes2, e', h', idx)))
    {
      ReplaceKid(nodes, labels, nodes1, labels, p, k, e, h, b, idx);
      StepKid(nodes, p, h, idx);
      if Digit(idx, h) == k && Lookup(nodes1, e, h, idx) != Lookup(nodes, nodes[p][k], h, idx) {
        OccursBelow(nodes, labels, p, k, h, Lookup(nodes1, e, h, idx));
      }
    }
  }

  lemma CoarserShift(nodes: seq<Node>, nodes': seq<Node>, p: nat, skip: nat, h: nat)
    requires 0 < skip <= h && Coarser(nodes, Entry(1, p), nodes', Entry(1, p), h - skip + 1)
    ensures Coarser(nodes, Entry(skip, p), nodes', Entry(skip, p), h)
  {
    var e, up, k := Entry(skip, p), Entry(1, p), h - skip + 1;
    forall idx: nat
      ensures Lookup(nodes', e, h, idx) == Lookup(nodes, e, h, idx)
              || (Lookup(nodes, e, h, idx) == UNASSIGNED && Occurs(nodes, e, h, Lookup(nodes', e, h, idx)))
    {
      assert Lookup(nodes, e, h, idx) == Lookup(nodes, up, k, idx)
             && Lookup(nodes', e, h, idx) == Lookup(nodes', up, k, idx);
      if Lookup(nodes', up, k, idx) != Lookup(nodes, up, k, idx) {
        var j: nat :| Lookup(nodes, up, k, j) == Lookup(nodes', up, k, idx);
        assert Lookup(nodes, e, h, j) == Lookup(nodes, up, k, j);
      }
    }
  }

  /** phys_page_compact's rewrite of an entry whose node has a single used slot `v`. */
  function Merge(lp: Entry, kid: Entry): Entry {
    if kid.skip == 0 then Entry(0, kid.ptr) else Entry(lp.skip + kid.skip, kid.ptr)
  }

  lemma MergeOk(nodes: seq<Node>, labels: seq<Label>, lp: Entry, h: nat, b: nat, v: nat)
    requires MapOk(nodes, labels) && EntryOk(labels, lp, h, b) && lp.skip > 0 && lp.ptr < |nodes| && v < P_L2_SIZE
    ensures EntryOk(labels, Merge(lp, nodes[lp.ptr][v]), h, b)
  {
    hide Digit;
    assert NodeOk(labels, nodes[lp.ptr], labels[lp.ptr]);
    SpanSplits(h - lp.skip, v);
  }

  lemma CoarserMerge(nodes: seq<Node>, labels: seq<Label>, lp: Entry, h: nat, b: nat, v: nat)
    requires MapOk(nodes, labels) && EntryOk(labels, lp, h, b) && lp.skip > 0 && lp.ptr < |nodes| && v < P_L2_SIZE
    requires forall j :: 0 <= j < P_L2_SIZE && j != v ==> nodes[lp.ptr][j].ptr == NODE_NIL
    ensures Coarser(nodes, lp, nodes, Merge(lp, nodes[lp.ptr][v]), h)
  {
    hide Digit, Span;
    var p, k := lp.ptr, h - lp.skip;
    var kid := nodes[p][v];
    var lp' := Merge(lp, kid);
    assert NodeOk(labels, nodes[p], labels[p]);
    forall idx: nat
      ensures Lookup(nodes, lp', h, idx) == Lookup(nodes, lp, h, idx)
              || (Lookup(nodes, lp, h, idx) == UNASSIGNED && Occurs(nodes, lp, h, Lookup(nodes, lp', h, idx)))
    {
      var r, d := Lookup(nodes, lp', h, idx), Digit(idx, k);
      assert EntryOk(labels, nodes[p][d], k, labels[p].base + d * Span(k));
      assert r == Lookup(nodes, kid, k, idx);
      if d != v {
        assert Lookup(nodes, lp, h, idx) == UNASSIGNED;
        assert Occurs(nodes, kid, k, r);
        OccursBelow(nodes, labels, p, v, k, r);
        var j: nat :| Lookup(nodes, Entry(1, p), k + 1, j) == r;
        assert Lookup(nodes, lp, h, j) == r;
      }
    }
  }

  // What compaction achieves.

  /** The node has one used slot. */
  predicate Single(node: Node, v: nat) {
    v < P_L2_SIZE && node[v].ptr != NODE_NIL && forall j :: 0 <= j < P_L2_SIZE && j != v ==> node[j].ptr == NODE_NIL
  }

  /** Nothing is left to fold below the entry: no node on the way to a leaf has one used slot only. */
  ghost predicate Tight(nodes: seq<Node>, e: Entry, h: nat)
    decreases h
  {
    || e.skip == 0 || e.skip > h || e.ptr >= |nodes|
    || (&& (forall v: nat :: !Single(nodes[e.ptr], v))
        && forall i :: 0 <= i < P_L2_SIZE ==> Tight(nodes, nodes[e.ptr][i], h - e.skip))
  }

  lemma {:induction false} TightFrame(nodes: seq<Node>, nodes': seq<Node>, labels: seq<Label>, e: Entry, h: nat, b: nat)
    requires MapOk(nodes, labels) && EntryOk(labels, e, h, b) && SameIn(nodes, nodes', labels, h, b)
    requires |nodes'| == |nodes| && Tight(nodes, e, h)
    ensures Tight(nodes', e, h)
    decreases h
  {
    if e.skip != 0 && e.ptr < |nodes| {
      assert e.skip <= h;
      hide EntryOk, SameIn, Span, Single;
      var k := h - e.skip;
      KidSame(nodes, nodes', labels, e, h, b, 0);
      forall d | 0 <= d < P_L2_SIZE ensures Tight(nodes', nodes[e.ptr][d], k) {
        KidSame(nodes, nodes', labels, e, h, b, d);
        TightFrame(nodes, nodes', labels, nodes[e.ptr][d], k, labels[e.ptr].base + d * Span(k));
      }
    }
  }

  /** Compacting one slot leaves the others as tight as they were. */
  lemma TightKid(nodes: seq<Node>, labels: seq<Label>, nodes1: seq<Node>, p: nat, k: nat, e: Entry, h: nat, b: nat,
                 d: nat)
    requires MapOk(nodes, labels) && MapOk(nodes1, labels) && p < |nodes| && labels[p] == Label(h + 1, b)
    requires k < P_L2_SIZE && d < P_L2_SIZE && |nodes1| == |nodes|
    requires ChangedOnlyIn(nodes, nodes1, labels, h, b + k * Span(h)) && EntryOk(labels, e, h, b + k * Span(h))
    requires if d == k then Tight(nodes1, e, h) else Tight(nodes, nodes[p][d], h)
    ensures Tight(WithKid(nodes1, p, k, e), WithKid(nodes1, p, k, e)[p][d], h)
  {
    hide EntryOk, Span, Tight, SameIn, ChangedOnlyIn;
    var nodes2 := WithKid(nodes1, p, k, e);
    ReplaceKidOk(nodes, labels, nodes1, labels, p, k, e, h, b);
    KidsApart(nodes, labels, nodes1, p, k, e, h, b, d);
    if d == k {
      TightFrame(nodes1, nodes2, labels, e, h, b + k * Span(h));
    } else {
      assert NodeOk(labels, nodes[p], labels[p]);
      TightFrame(nodes, nodes2, labels, nodes[p][d], h, b + d * Span(h));
    }
  }

  /** Setting one slot of a node, after work below it, is not seen in the blocks of the slots. */
  lemma KidsApart(nodes: seq<Node>, labels: seq<Label>, nodes1: seq<Node>, p: nat, k: nat, e: Entry, h: nat, b: nat,
                  d: nat)
    requires p < |nodes| == |nodes1| == |labels| && labels[p] == Label(h + 1, b) && k < P_L2_SIZE && d < P_L2_SIZE
    requires ChangedOnlyIn(nodes, nodes1, labels, h, b + k * Span(h))
    ensures SameIn(if d == k then nodes1 else nodes, WithKid(nodes1, p, k, e), labels, h, b + d * Span(h))
  {
    hide Span;
    var nodes2 := WithKid(nodes1, p, k, e);
    forall m | 0 <= m < |nodes| && InBlock(labels[m], h, b + d * Span(h))
      ensures nodes2[m] == (if d == k then nodes1 else nodes)[m]
    {
      assert m != p;
      if d != k {
        SubBlocksApart(b, h, d, k, labels[m].base);
      }
    }
  }

  lemma TightMerge(nodes: seq<Node>, lp: Entry, v: nat, h: nat)
    requires lp.ptr < |nodes| && 0 < lp.skip <= h && v < P_L2_SIZE && Tight(nodes, nodes[lp.ptr][v], h - lp.skip)
    ensures Tight(nodes, Merge(lp, nodes[lp.ptr][v]), h)
  {
  }

  /** Three bits hold the levels skipped. */
  lemma MergeFits(nodes: seq<Node>, labels: seq<Label>, lp: Entry, h: nat, b: nat, v: nat)
    requires MapOk(nodes, labels) && EntryOk(labels, lp, h, b) && lp.skip > 0 && lp.ptr < |nodes| && v < P_L2_SIZE
    requires h <= P_L2_LEVELS
    ensures lp.skip + nodes[lp.ptr][v].skip < 8
  {
    assert NodeOk(labels, nodes[lp.ptr], labels[lp.ptr]);
  }

  lemma TightHere(nodes: seq<Node>, lp: Entry, h: nat)
    requires lp.ptr < |nodes| && 0 < lp.skip <= h && (forall v: nat :: !Single(nodes[lp.ptr], v))
    requires forall i :: 0 <= i < P_L2_SIZE ==> Tight(nodes, nodes[lp.ptr][i], h - lp.skip)
    ensures Tight(nodes, lp, h)
  {
  }

  lemma TightLeaf(nodes: seq<Node>, e: Entry, h: nat)
    requires e.skip == 0 || e.ptr >= |nodes|
    ensures Tight(nodes, e, h)
  {
  }
}
