/** The list of RAM blocks: best-fit allocation of the ram_addr_t space and the lookup with its one-entry
    cache (qemu-2.0/exec.c). */
module RamList {
  import opened Values

  const TARGET_PAGE_SIZE: nat := 4096
  const RAM_ADDR_SPACE: nat := 0x1_0000_0000_0000_0000
  const RAM_ADDR_MAX: nat := RAM_ADDR_SPACE - 1

  datatype RamBlock = RamBlock(offset: nat, length: nat) {
    function End(): nat { offset + length }

    predicate Contains(addr: nat) { offset <= addr < End() }
  }

  predicate Aligned(n: nat) { n % TARGET_PAGE_SIZE == 0 }

  lemma AlignedSum(m: nat, n: nat)
    requires Aligned(m) && Aligned(n)
    ensures Aligned(m + n)
  {
  }

  lemma AlignedZero()
    ensures Aligned(0) && !Aligned(RAM_ADDR_MAX)
  {
  }

  predicate BlockOk(b: RamBlock) {
    0 < b.length && Aligned(b.offset) && Aligned(b.length) && b.End() <= RAM_ADDR_MAX
  }

  predicate Apart(a: RamBlock, b: RamBlock) { a.End() <= b.offset || b.End() <= a.offset }

  ghost predicate BlocksOk(blocks: seq<RamBlock>) {
    && (forall i :: 0 <= i < |blocks| ==> BlockOk(blocks[i]))
    && (forall i, j :: 0 <= i < j < |blocks| ==> Apart(blocks[i], blocks[j]))
    && (forall i, j :: 0 <= i < j < |blocks| ==> blocks[i].length >= blocks[j].length)
  }

  /** Where the first block at or after `end` begins, or the end of the address space. */
  function Following(blocks: seq<RamBlock>, end: nat): (n: nat)
    ensures end <= RAM_ADDR_MAX ==> end <= n
    ensures n <= RAM_ADDR_MAX && forall i :: 0 <= i < |blocks| && blocks[i].offset >= end ==> n <= blocks[i].offset
    ensures n == RAM_ADDR_MAX || exists i :: 0 <= i < |blocks| && blocks[i].offset == n
  {
    if blocks == [] then RAM_ADDR_MAX
    else
      var k := |blocks| - 1;
      var n := Following(blocks[..k], end);
      if blocks[k].offset >= end && blocks[k].offset < n then blocks[k].offset else n
  }

  /** The free space behind block i. */
  function Gap(blocks: seq<RamBlock>, i: nat): (g: int)
    requires i < |blocks|
  {
    Following(blocks, blocks[i].End()) - blocks[i].End()
  }

  lemma GapIs(blocks: seq<RamBlock>, i: nat)
    requires BlocksOk(blocks) && i < |blocks|
    ensures Gap(blocks, i) == Following(blocks, blocks[i].End()) - blocks[i].End() && 0 <= Gap(blocks, i) < RAM_ADDR_MAX
  {
    assert BlockOk(blocks[i]);
    hide Aligned;
  }

  /** The gap behind block i holds `size` bytes and no other gap that does is smaller. */
  ghost predicate BestFit(blocks: seq<RamBlock>, size: nat, i: nat)
    requires i < |blocks|
  {
    Gap(blocks, i) >= size
    && forall j :: 0 <= j < |blocks| && Gap(blocks, j) >= size ==>
         Gap(blocks, i) < Gap(blocks, j) || (Gap(blocks, i) == Gap(blocks, j) && i <= j)
  }

  /** Of the gaps behind the first n blocks the one behind block `best` fits best; none does if best is -1. */
  ghost predicate BestBelow(blocks: seq<RamBlock>, size: nat, n: nat, best: int) {
    && n <= |blocks| && -1 <= best < n && (best >= 0 ==> Gap(blocks, best) >= size)
    && forall j :: 0 <= j < n && Gap(blocks, j) >= size ==>
         best >= 0 && (Gap(blocks, best) < Gap(blocks, j) || (Gap(blocks, best) == Gap(blocks, j) && best <= j))
  }

  lemma BestOfNone(blocks: seq<RamBlock>, size: nat)
    ensures BestBelow(blocks, size, 0, -1)
  {
  }

  lemma BestNext(blocks: seq<RamBlock>, size: nat, n: nat, best: int)
    requires BestBelow(blocks, size, n, best) && n < |blocks|
    ensures BestBelow(blocks, size, n + 1, if Gap(blocks, n) >= size
                      && (best >= 0 ==> Gap(blocks, n) < Gap(blocks, best)) then n else best)
  {
    hide Gap;
  }

  lemma BestOfAll(blocks: seq<RamBlock>, size: nat, best: int)
    requires BlocksOk(blocks) && BestBelow(blocks, size, |blocks|, best)
    ensures best >= 0 ==> BestFit(blocks, size, best) && blocks[best].End() != RAM_ADDR_MAX
    ensures best < 0 ==> forall i :: 0 <= i < |blocks| ==> Gap(blocks, i) < size
  {
    hide Gap, Aligned;
    AlignedZero();
    if best >= 0 {
      AlignedSum(blocks[best].offset, blocks[best].length);
    }
  }

  /** A block put into a gap is apart from every block. */
  lemma InGap(blocks: seq<RamBlock>, i: nat, size: nat)
    requires BlocksOk(blocks) && i < |blocks| && Gap(blocks, i) >= size
    ensures blocks[i].End() + size <= RAM_ADDR_MAX
    ensures forall j :: 0 <= j < |blocks| ==> Apart(blocks[j], RamBlock(blocks[i].End(), size))
  {
    forall j | 0 <= j < |blocks| ensures Apart(blocks[j], RamBlock(blocks[i].End(), size)) {
      if blocks[j].offset < blocks[i].End() && j != i {
        assert if i < j then Apart(blocks[i], blocks[j]) else Apart(blocks[j], blocks[i]);
      }
    }
  }

  function AlignUp(size: nat): (n: nat)
    ensures Aligned(n)
    ensures size <= RAM_ADDR_SPACE - TARGET_PAGE_SIZE ==> size <= n < size + TARGET_PAGE_SIZE
    ensures n < RAM_ADDR_SPACE
  {
    (size + TARGET_PAGE_SIZE - 1) % RAM_ADDR_SPACE / TARGET_PAGE_SIZE * TARGET_PAGE_SIZE
  }

  class RamBlockList {
    var blocks: seq<RamBlock>
    var mru: Option<RamBlock>

    ghost predicate Valid()
      reads this
    {
      BlocksOk(blocks) && (mru.Some? ==> mru.value in blocks)
    }

    constructor ()
      ensures Valid() && blocks == []
    {
      blocks, mru := [], None;
    }

    /** The inner loop of find_ram_offset. */
    method NextOffset(end: nat) returns (next: nat)
      ensures next == Following(blocks, end)
    {
      next := RAM_ADDR_MAX;
      var j := 0;
      while j < |blocks|
        invariant 0 <= j <= |blocks| && next == Following(blocks[..j], end)
      {
        assert blocks[..j + 1][..j] == blocks[..j];
        if blocks[j].offset >= end {
          next := if next < blocks[j].offset then next else blocks[j].offset;
        }
        j := j + 1;
      }
      assert blocks[..j] == blocks;
    }

    /** find_ram_offset: None is its abort. */
    method FindRamOffset(size: nat) returns (r: Option<nat>)
      requires Valid() && size > 0
      ensures blocks == [] ==> r == Some(0)
      ensures blocks != [] && r.Some? ==>
                exists i :: 0 <= i < |blocks| && r.value == blocks[i].End() && BestFit(blocks, size, i)
      ensures blocks != [] ==> (r.None? <==> forall i :: 0 <= i < |blocks| ==> Gap(blocks, i) < size)
    {
      if |blocks| == 0 {
        return Some(0);
      }
      hide Following, Gap, BestBelow;
      var offset, mingap := RAM_ADDR_MAX, RAM_ADDR_MAX;
      ghost var best := -1;
      var i := 0;
      BestOfNone(blocks, size);
      while i < |blocks|
        invariant 0 <= i <= |blocks| && -1 <= best < i && BestBelow(blocks, size, i, best)
        invariant if best == -1 then offset == mingap == RAM_ADDR_MAX
                  else offset == blocks[best].End() && mingap == Gap(blocks, best)
      {
        var end := blocks[i].End();
        var next := NextOffset(end);
        GapIs(blocks, i);
        BestNext(blocks, size, i, best);
        if next - end >= size && next - end < mingap {
          offset, mingap, best := end, next - end, i;
        }
        i := i + 1;
      }
      BestOfAll(blocks, size, best);
      if offset == RAM_ADDR_MAX {
        return None;
      }
      return Some(offset);
    }

    /** qemu_ram_alloc_from_ptr: the new block takes the smallest gap that will do. */
    method Alloc(bytes: nat) returns (r: Option<nat>)
      requires Valid() && bytes < RAM_ADDR_SPACE
      modifies this
      ensures Valid()
      ensures r.None? ==> blocks == old(blocks)
      ensures r.Some? ==> exists k :: 0 <= k < |blocks| && blocks[k] == RamBlock(r.value, AlignUp(bytes))
                                      && old(blocks) == blocks[..k] + blocks[k + 1..]
      ensures r.Some? && old(blocks) != [] ==>
                exists i :: 0 <= i < |old(blocks)| && r.value == old(blocks)[i].End()
                  && BestFit(old(blocks), AlignUp(bytes), i)
      ensures r.Some? && old(blocks) == [] ==> r.value == 0
      ensures r.None? <==>
                AlignUp(bytes) == 0
                || (old(blocks) != [] && forall i :: 0 <= i < |old(blocks)| ==> Gap(old(blocks), i) < AlignUp(bytes))
    {
      hide Gap, AlignUp;
      var size := AlignUp(bytes);
      if size == 0 {
        return None;
      }
      r := FindRamOffset(size);
      if r.Some? {
        Fits(blocks, size, r.value);
        var k := Insert(RamBlock(r.value, size));
      }
    }

    /** Put the block before the first shorter one. */
    method Insert(b: RamBlock) returns (k: nat)
      requires BlocksOk(blocks) && BlockOk(b) && forall j :: 0 <= j < |blocks| ==> Apart(blocks[j], b)
      modifies this
      ensures BlocksOk(blocks) && mru == None && k <= |old(blocks)|
      ensures blocks == old(blocks)[..k] + [b] + old(blocks)[k..]
      ensures blocks[k] == b && old(blocks) == blocks[..k] + blocks[k + 1..]
    {
      k := 0;
      while k < |blocks| && blocks[k].length >= b.length
        invariant 0 <= k <= |blocks| && forall j :: 0 <= j < k ==> blocks[j].length >= b.length
      {
        k := k + 1;
      }
      InsertOk(blocks, b, k);
      blocks := blocks[..k] + [b] + blocks[k..];
      mru := None;
    }

    /** qemu_ram_free: the block that begins there goes, if there is one. */
    method Free(addr: nat)
      requires Valid()
      modifies this
      ensures Valid()
      ensures (exists k :: 0 <= k < |old(blocks)| && old(blocks)[k].offset == addr
                           && blocks == old(blocks)[..k] + old(blocks)[k + 1..])
              || (blocks == old(blocks) && forall k :: 0 <= k < |blocks| ==> blocks[k].offset != addr)
    {
      var k := 0;
      while k < |blocks|
        invariant 0 <= k <= |blocks| && forall j :: 0 <= j < k ==> blocks[j].offset != addr
      {
        if blocks[k].offset == addr {
          blocks := blocks[..k] + blocks[k + 1..];
          mru := None;
          return;
        }
        k := k + 1;
      }
    }

    /** The test of the lookup, in unsigned 64-bit arithmetic. */
    static predicate Test(b: RamBlock, addr: nat) {
      (addr - b.offset) % RAM_ADDR_SPACE < b.length
    }

    /** qemu_get_ram_block: the one block that contains the address; None is its abort. */
    method Lookup(addr: nat) returns (r: Option<RamBlock>)
      requires Valid() && addr < RAM_ADDR_SPACE
      modifies this`mru
      ensures Valid() && (r.Some? ==> mru == r)
      ensures r.Some? ==> r.value in blocks && r.value.Contains(addr)
      ensures r.Some? ==> forall b :: b in blocks && b.Contains(addr) ==> b == r.value
      ensures r.None? ==> forall b :: b in blocks ==> !b.Contains(addr)
    {
      if mru.Some? && Test(mru.value, addr) {
        TestIff(blocks, mru.value, addr);
        OnlyOne(blocks, mru.value, addr);
        return mru;
      }
      var i := 0;
      while i < |blocks|
        invariant 0 <= i <= |blocks| && mru == old(mru) && forall j :: 0 <= j < i ==> !blocks[j].Contains(addr)
      {
        TestIff(blocks, blocks[i], addr);
        if Test(blocks[i], addr) {
          mru := Some(blocks[i]);
          OnlyOne(blocks, blocks[i], addr);
          return mru;
        }
        i := i + 1;
      }
      return None;
    }
  }

  lemma InsertOk(blocks: seq<RamBlock>, b: RamBlock, k: nat)
    requires BlocksOk(blocks) && BlockOk(b) && (forall j :: 0 <= j < |blocks| ==> Apart(blocks[j], b)) && k <= |blocks|
    requires (forall j :: 0 <= j < k ==> blocks[j].length >= b.length) && (k < |blocks| ==> blocks[k].length < b.length)
    ensures BlocksOk(blocks[..k] + [b] + blocks[k..])
    ensures blocks == (blocks[..k] + [b] + blocks[k..])[..k] + (blocks[..k] + [b] + blocks[k..])[k + 1..]
  {
    hide BlockOk, Apart;
    var c := blocks[..k] + [b] + blocks[k..];
    forall i, j | 0 <= i < j < |c| ensures Apart(c[i], c[j]) {
      ApartFlips(c[i], c[j]);
    }
  }

  lemma ApartFlips(a: RamBlock, b: RamBlock)
    ensures Apart(a, b) <==> Apart(b, a)
  {
  }

  lemma Fits(blocks: seq<RamBlock>, size: nat, offset: nat)
    requires BlocksOk(blocks) && 0 < size < RAM_ADDR_SPACE && Aligned(size)
    requires if blocks == [] then offset == 0
             else exists i :: 0 <= i < |blocks| && offset == blocks[i].End() && BestFit(blocks, size, i)
    ensures BlockOk(RamBlock(offset, size))
    ensures forall j :: 0 <= j < |blocks| ==> Apart(blocks[j], RamBlock(offset, size))
  {
    hide Aligned, Gap, AlignUp;
    AlignedZero();
    if blocks != [] {
      var i :| 0 <= i < |blocks| && offset == blocks[i].End() && BestFit(blocks, size, i);
      InGap(blocks, i, size);
      AlignedSum(blocks[i].offset, blocks[i].length);
    }
  }

  lemma TestIff(blocks: seq<RamBlock>, b: RamBlock, addr: nat)
    requires BlocksOk(blocks) && b in blocks && addr < RAM_ADDR_SPACE
    ensures RamBlockList.Test(b, addr) <==> b.Contains(addr)
  {
    assert BlockOk(b);
    if addr < b.offset {
      assert (addr - b.offset) % RAM_ADDR_SPACE == addr - b.offset + RAM_ADDR_SPACE;
    }
  }

  lemma OnlyOne(blocks: seq<RamBlock>, b: RamBlock, addr: nat)
    requires BlocksOk(blocks) && b in blocks && b.Contains(addr)
    ensures forall c :: c in blocks && c.Contains(addr) ==> c == b
  {
    forall c | c in blocks && c.Contains(addr) ensures c == b {
      var i :| 0 <= i < |blocks| && blocks[i] == b;
      var j :| 0 <= j < |blocks| && blocks[j] == c;
    }
  }
}
