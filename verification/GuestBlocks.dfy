/** The guest-physical blocks that a dump walks (qemu-2.0/memory_mapping.c). */
module GuestBlocks {
  /** Guest-physical addresses [start, end), backed by host memory from `host` on. */
  datatype GuestBlock = GuestBlock(start: nat, end: nat, host: nat)

  /** Ascending, disjoint and not empty. */
  ghost predicate Ascending(blocks: seq<GuestBlock>) {
    && (forall i :: 0 <= i < |blocks| ==> blocks[i].start < blocks[i].end)
    && (forall i, j :: 0 <= i < j < |blocks| ==> blocks[i].end <= blocks[j].start)
  }

  predicate InBlock(b: GuestBlock, p: nat) { b.start <= p < b.end }

  /** The host address behind guest-physical address p in a block. */
  function HostIn(b: GuestBlock, p: nat): int { b.host + (p - b.start) }

  /** Some block puts guest-physical address p at host address h. */
  ghost predicate Maps(blocks: seq<GuestBlock>, p: nat, h: int) {
    exists i :: 0 <= i < |blocks| && InBlock(blocks[i], p) && h == HostIn(blocks[i], p)
  }

  /** An address is in one block at most, so its host address is unique. */
  lemma MapsOnce(blocks: seq<GuestBlock>, i: nat, j: nat, p: nat)
    requires Ascending(blocks) && i < |blocks| && j < |blocks| && InBlock(blocks[i], p) && InBlock(blocks[j], p)
    ensures i == j
  {
  }

  /** The second block goes on where the first ends, in the guest and in the host. */
  predicate Continues(b: GuestBlock, c: GuestBlock) { b.end == c.start && HostIn(b, b.end) == c.host }

  /** The block does not continue the last of the list. */
  predicate Separate(blocks: seq<GuestBlock>, b: GuestBlock) { blocks == [] || !Continues(blocks[|blocks| - 1], b) }

  /** No two neighbours could be one block. */
  ghost predicate Joined(blocks: seq<GuestBlock>) {
    forall i :: 0 <= i < |blocks| - 1 ==> !Continues(blocks[i], blocks[i + 1])
  }

  class GuestBlockList {
    var blocks: seq<GuestBlock>

    constructor ()
      ensures blocks == []
    {
      blocks := [];
    }

    /** guest_phys_blocks_region_add: afterwards the list maps what it mapped and, if the section is RAM, the
        section. */
    method RegionAdd(isRam: bool, start: nat, size: nat, host: nat)
      requires Ascending(blocks) && size > 0
      requires isRam && blocks != [] ==> blocks[|blocks| - 1].end <= start
      modifies this
      ensures Ascending(blocks)
      ensures !isRam ==> blocks == old(blocks)
      ensures old(Joined(blocks)) ==> Joined(blocks)
      ensures isRam ==>
                |blocks| == |old(blocks)| +
                            if Separate(old(blocks), GuestBlock(start, start + size, host)) then 1 else 0
      ensures isRam ==> blocks != [] && blocks[|blocks| - 1].end == start + size
      ensures forall p: nat, h :: Maps(blocks, p, h) <==>
              Maps(old(blocks), p, h) || (isRam && start <= p < start + size && h == host + (p - start))
    {
      if !isRam {
        return;
      }
      var end := start + size;
      var merge := false;
      if |blocks| > 0 {
        var last := blocks[|blocks| - 1];
        merge := last.end == start && last.host + (last.end - last.start) == host;
      }
      ghost var before := blocks;
      if merge {
        var k := |blocks| - 1;
        blocks := blocks[k := blocks[k].(end := end)];
        Extended(before, blocks, k, start, size, host);
      } else {
        blocks := blocks + [GuestBlock(start, end, host)];
        Appended(before, GuestBlock(start, end, host));
      }
    }
  }

  lemma Appended(blocks: seq<GuestBlock>, b: GuestBlock)
    ensures forall p: nat, h :: Maps(blocks + [b], p, h) <==> Maps(blocks, p, h) || (InBlock(b, p) && h == HostIn(b, p))
  {
    var c := blocks + [b];
    forall p: nat, h ensures Maps(c, p, h) <==> Maps(blocks, p, h) || (InBlock(b, p) && h == HostIn(b, p)) {
      if Maps(blocks, p, h) {
        var i :| 0 <= i < |blocks| && InBlock(blocks[i], p) && h == HostIn(blocks[i], p);
        assert InBlock(c[i], p);
      }
      if InBlock(b, p) && h == HostIn(b, p) {
        assert InBlock(c[|blocks|], p);
      }
    }
  }

  lemma Extended(blocks: seq<GuestBlock>, c: seq<GuestBlock>, k: nat, start: nat, size: nat, host: nat)
    requires k < |blocks| && blocks[k].start <= blocks[k].end == start
    requires blocks[k].host + (start - blocks[k].start) == host
    requires c == blocks[k := blocks[k].(end := start + size)]
    ensures forall p: nat, h :: Maps(c, p, h) <==>
            Maps(blocks, p, h) || (start <= p < start + size && h == host + (p - start))
  {
    forall p: nat, h
      ensures Maps(c, p, h) <==> Maps(blocks, p, h) || (start <= p < start + size && h == host + (p - start))
    {
      if Maps(c, p, h) {
        var i :| 0 <= i < |c| && InBlock(c[i], p) && h == HostIn(c[i], p);
        assert InBlock(blocks[i], p) || (i == k && start <= p < start + size);
      }
      if Maps(blocks, p, h) {
        var i :| 0 <= i < |blocks| && InBlock(blocks[i], p) && h == HostIn(blocks[i], p);
        assert InBlock(c[i], p);
      }
      if start <= p < start + size {
        assert InBlock(c[k], p);
      }
    }
  }
}
