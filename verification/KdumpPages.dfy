/** The guest's pages in the order in which the kdump writers go through them (qemu-2.0/dump.c). */
module KdumpPages {
  import opened GuestBlocks

  const PAGE_SIZE: nat := 4096

  datatype GuestPage = GuestPage(pfn: nat, host: nat)

  /** What get_next_page insists on. */
  predicate PageAligned(b: GuestBlock) { b.start < b.end && b.start % PAGE_SIZE == 0 && b.end % PAGE_SIZE == 0 }

  ghost predicate BlocksOk(blocks: seq<GuestBlock>) {
    blocks != [] && Ascending(blocks) && forall i :: 0 <= i < |blocks| ==> PageAligned(blocks[i])
  }

  function FirstPfn(b: GuestBlock): nat { b.start / PAGE_SIZE }
  function EndPfn(b: GuestBlock): nat { b.end / PAGE_SIZE }

  lemma PfnBounds(b: GuestBlock)
    requires PageAligned(b)
    ensures b.start == FirstPfn(b) * PAGE_SIZE && b.end == EndPfn(b) * PAGE_SIZE && FirstPfn(b) < EndPfn(b)
  {
  }

  function PagesOf(b: GuestBlock): (s: seq<GuestPage>)
    requires PageAligned(b)
    ensures |s| == EndPfn(b) - FirstPfn(b)
    ensures forall i :: 0 <= i < |s| ==> s[i] == GuestPage(FirstPfn(b) + i, b.host + i * PAGE_SIZE)
  {
    PfnBounds(b);
    seq(EndPfn(b) - FirstPfn(b), i requires 0 <= i => GuestPage(FirstPfn(b) + i, b.host + i * PAGE_SIZE))
  }

  /** All pages, block by block. */
  function Pages(blocks: seq<GuestBlock>): seq<GuestPage>
    requires forall i :: 0 <= i < |blocks| ==> PageAligned(blocks[i])
  {
    if blocks == [] then [] else Pages(blocks[..|blocks| - 1]) + PagesOf(blocks[|blocks| - 1])
  }

  lemma PagesNext(blocks: seq<GuestBlock>, i: nat)
    requires i < |blocks| && forall i :: 0 <= i < |blocks| ==> PageAligned(blocks[i])
    ensures Pages(blocks[..i + 1]) == Pages(blocks[..i]) + PagesOf(blocks[i])
  {
    assert blocks[..i + 1][..i] == blocks[..i];
  }

  lemma PagesPrefix(blocks: seq<GuestBlock>, i: nat, j: nat)
    requires i <= j <= |blocks| && forall i :: 0 <= i < |blocks| ==> PageAligned(blocks[i])
    ensures Pages(blocks[..i]) <= Pages(blocks[..j])
    decreases j
  {
    if i < j {
      PagesPrefix(blocks, i, j - 1);
      PagesNext(blocks, j - 1);
    }
  }

  /** The pages of block i, in the list of all pages. */
  lemma PageIn(blocks: seq<GuestBlock>, i: nat, pfn: nat)
    requires BlocksOk(blocks) && i < |blocks| && FirstPfn(blocks[i]) <= pfn < EndPfn(blocks[i])
    ensures var k := |Pages(blocks[..i])| + (pfn - FirstPfn(blocks[i]));
            k < |Pages(blocks)|
            && Pages(blocks)[k] == GuestPage(pfn, blocks[i].host + (pfn - FirstPfn(blocks[i])) * PAGE_SIZE)
  {
    PagesNext(blocks, i);
    PagesPrefix(blocks, i + 1, |blocks|);
    assert blocks[..|blocks|] == blocks;
  }

  /** Every page of the list is in some block. */
  lemma {:induction false} PageFrom(blocks: seq<GuestBlock>, n: nat, k: nat) returns (i: nat)
    requires BlocksOk(blocks) && 0 < n <= |blocks| && k < |Pages(blocks[..n])|
    ensures i < n && |Pages(blocks[..i])| <= k < |Pages(blocks[..i + 1])|
    ensures FirstPfn(blocks[i]) <= Pages(blocks[..n])[k].pfn < EndPfn(blocks[i])
    ensures Pages(blocks[..n])[k].pfn == FirstPfn(blocks[i]) + (k - |Pages(blocks[..i])|)
  {
    hide Pages, FirstPfn, EndPfn;
    PagesNext(blocks, n - 1);
    assert blocks[..0] == [];
    NoPages();
    if k < |Pages(blocks[..n - 1])| {
      i := PageFrom(blocks, n - 1, k);
    } else {
      i := n - 1;
    }
  }

  /** The pages ascend. */
  lemma PagesAscend(blocks: seq<GuestBlock>, j: nat, k: nat)
    requires BlocksOk(blocks) && j < k < |Pages(blocks)|
    ensures Pages(blocks)[j].pfn < Pages(blocks)[k].pfn
  {
    hide Pages;
    assert blocks[..|blocks|] == blocks;
    var i := PageFrom(blocks, |blocks|, j);
    var l := PageFrom(blocks, |blocks|, k);
    if l < i {
      PagesPrefix(blocks, l + 1, i);
    } else if i < l {
      PfnBounds(blocks[i]);
      PfnBounds(blocks[l]);
      assert blocks[i].end <= blocks[l].start;
    }
  }

  /** The page frame lies in a guest block. */
  ghost predicate InGuest(blocks: seq<GuestBlock>, pfn: nat) {
    exists i :: 0 <= i < |blocks| && FirstPfn(blocks[i]) <= pfn < EndPfn(blocks[i])
  }

  /** The list has just the page frames of the guest. */
  lemma ListedIff(blocks: seq<GuestBlock>, pfn: nat)
    requires BlocksOk(blocks)
    ensures InGuest(blocks, pfn) <==> exists k :: 0 <= k < |Pages(blocks)| && Pages(blocks)[k].pfn == pfn
  {
    hide Pages, FirstPfn, EndPfn;
    assert blocks[..|blocks|] == blocks;
    if InGuest(blocks, pfn) {
      var i :| 0 <= i < |blocks| && FirstPfn(blocks[i]) <= pfn < EndPfn(blocks[i]);
      PageIn(blocks, i, pfn);
    }
    if k :| 0 <= k < |Pages(blocks)| && Pages(blocks)[k].pfn == pfn {
      var i := PageFrom(blocks, |blocks|, k);
    }
  }

  /** The iteration: not begun, or at a page of a block. */
  datatype Cursor = Start | In(block: nat, pfn: nat)

  /** The iteration has gone through the first n pages. */
  ghost predicate CursorAt(blocks: seq<GuestBlock>, c: Cursor, n: nat)
    requires BlocksOk(blocks)
  {
    match c
    case Start => n == 0
    case In(i, pfn) =>
      i < |blocks| && FirstPfn(blocks[i]) <= pfn < EndPfn(blocks[i])
        && n == |Pages(blocks[..i])| + (pfn - FirstPfn(blocks[i])) + 1
  }

  /** get_next_page goes through the list. */
  method GetNextPage(blocks: seq<GuestBlock>, c: Cursor, ghost n: nat) returns (more: bool, c': Cursor, host: nat)
    requires BlocksOk(blocks) && CursorAt(blocks, c, n)
    ensures more ==> n < |Pages(blocks)| && c'.In? && Pages(blocks)[n] == GuestPage(c'.pfn, host)
                     && CursorAt(blocks, c', n + 1)
    ensures !more ==> n == |Pages(blocks)|
  {
    hide Pages, FirstPfn, EndPfn;
    assert blocks[..0] == [] && blocks[..|blocks|] == blocks;
    NoPages();
    if c.Start? {
      PfnBounds(blocks[0]);
      PageIn(blocks, 0, FirstPfn(blocks[0]));
      return true, In(0, FirstPfn(blocks[0])), blocks[0].host;
    }
    var b := blocks[c.block];
    PfnBounds(b);
    var pfn := c.pfn + 1;
    var addr := pfn * PAGE_SIZE;
    if addr >= b.start && addr + PAGE_SIZE <= b.end {
      PageIn(blocks, c.block, pfn);
      return true, In(c.block, pfn), b.host + (addr - b.start);
    }
    PagesNext(blocks, c.block);
    var i := c.block + 1;
    if i == |blocks| {
      return false, Start, 0;
    }
    PfnBounds(blocks[i]);
    PageIn(blocks, i, FirstPfn(blocks[i]));
    return true, In(i, FirstPfn(blocks[i])), blocks[i].host;
  }

  lemma NoPages()
    ensures Pages([]) == []
  {
  }
}
