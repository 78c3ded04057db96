/** The search for the next page to send, which ram_save_block makes around the list of RAM blocks
    (qemu-2.0/arch_init.c).  Addresses are page numbers; a bitmap is the set of its set bits. */
module MigrationScan {
  const BITS_PER_LONG: nat := 64

  /** A RAM block: page numbers [base, base + pages). */
  datatype Block = Block(base: nat, pages: nat)

  predicate InBlock(b: Block, q: nat) { b.base <= q < b.base + b.pages }

  predicate IsPage(blocks: seq<Block>, q: nat) {
    exists i :: 0 <= i < |blocks| && InBlock(blocks[i], q)
  }

  ghost predicate BlocksOk(blocks: seq<Block>) {
    && |blocks| > 0
    && (forall i :: 0 <= i < |blocks| ==> blocks[i].pages > 0)
    && forall i, j, q: nat :: 0 <= i < |blocks| && 0 <= j < |blocks| && InBlock(blocks[i], q)
                              && InBlock(blocks[j], q) ==>
         i == j
  }

  /** No page of any block is marked. */
  ghost predicate NoneIn(blocks: seq<Block>, pending: set<nat>) {
    forall q: nat :: IsPage(blocks, q) ==> q !in pending
  }

  function FirstPages(n: nat): (s: set<nat>)
    ensures |s| == n && forall q :: q in s <==> 0 <= q < n
  {
    if n == 0 then {} else FirstPages(n - 1) + {n - 1}
  }

  /** The page is after the cursor of the bulk stage. */
  predicate Ahead(blocks: seq<Block>, seen: int, offset: nat, i: nat, q: nat)
    requires i < |blocks|
  {
    i > seen || (i == seen && q > blocks[i].base + offset)
  }

  /** Everything after the cursor is still dirty. */
  ghost predicate BulkAhead(blocks: seq<Block>, bitmap: set<nat>, seen: int, offset: nat) {
    forall i, q: nat :: 0 <= i < |blocks| && InBlock(blocks[i], q) && Ahead(blocks, seen, offset, i, q) ==> q in bitmap
  }

  lemma AheadDirty(blocks: seq<Block>, bitmap: set<nat>, seen: int, offset: nat, i: nat, o: nat)
    requires BulkAhead(blocks, bitmap, seen, offset) && i < |blocks| && o < blocks[i].pages
    requires i > seen || (i == seen && o > offset)
    ensures blocks[i].base + o in bitmap
  {
    assert InBlock(blocks[i], blocks[i].base + o) && Ahead(blocks, seen, offset, i, blocks[i].base + o);
  }

  /** In the bulk stage a block is left only after its last page was sent. */
  lemma BulkBlockDone(blocks: seq<Block>, bitmap: set<nat>, seen: int, offset: nat, i: nat, o: nat)
    requires BlocksOk(blocks) && BulkAhead(blocks, bitmap, seen, offset) && seen <= i < |blocks| && o <= blocks[i].pages
    requires o == if i == seen then offset else 0
    requires if 0 < o then blocks[i].pages == o + 1
             else CleanRange(bitmap, blocks[i].base + o, blocks[i].base + blocks[i].pages)
    ensures i == seen && offset + 1 == blocks[i].pages
  {
    if i > seen {
      AheadDirty(blocks, bitmap, seen, offset, i, 0);
    } else if offset + 1 < blocks[i].pages {
      AheadDirty(blocks, bitmap, seen, offset, i, offset + 1);
    }
  }

  /** Moving the cursor to a later page, which is sent, keeps the rest of the bulk dirty. */
  lemma BulkStep(blocks: seq<Block>, bitmap: set<nat>, seen: int, offset: nat, i: nat, o: nat)
    requires BlocksOk(blocks) && BulkAhead(blocks, bitmap, seen, offset) && i < |blocks| && o < blocks[i].pages
    requires i > seen || (i == seen && o >= offset)
    ensures BulkAhead(blocks, bitmap - {blocks[i].base + o}, i, o)
  {
    var sent := blocks[i].base + o;
    forall j, q: nat | 0 <= j < |blocks| && InBlock(blocks[j], q) && Ahead(blocks, i, o, j, q)
      ensures q in bitmap - {sent}
    {
      assert Ahead(blocks, seen, offset, j, q);
      assert InBlock(blocks[i], sent);
    }
  }

  /** No page lies between the two cursors but the second's own. */
  ghost predicate InOrder(blocks: seq<Block>, seen: int, offset: nat, seen': nat, offset': nat)
    requires seen' < |blocks|
  {
    forall j, q: nat :: 0 <= j < |blocks| && InBlock(blocks[j], q) && Ahead(blocks, seen, offset, j, q)
                        && !Ahead(blocks, seen', offset', j, q) ==>
      q == blocks[seen'].base + offset'
  }

  /** The bulk stage goes through the pages in order and leaves out none. */
  lemma BulkInOrder(blocks: seq<Block>, bitmap: set<nat>, seen: int, offset: nat, i: nat, o: nat)
    requires BlocksOk(blocks) && BulkAhead(blocks, bitmap, seen, offset) && i < |blocks| && o < blocks[i].pages
    requires -1 <= seen <= i && (i == seen || (i == seen + 1 && (seen >= 0 ==> offset + 1 >= blocks[seen].pages)))
    requires if i == seen && 0 < offset then o == offset + 1 else CleanRange(bitmap, blocks[i].base, blocks[i].base + o)
    ensures InOrder(blocks, seen, offset, i, o)
  {
    if i > seen && o > 0 {
      AheadDirty(blocks, bitmap, seen, offset, i, 0);
    } else if i == seen && offset == 0 && o > 1 {
      AheadDirty(blocks, bitmap, seen, offset, i, 1);
    }
  }

  /** The last page of the last block was sent in the bulk stage, it is the only page to send and it is not the
      first of its block. */
  ghost predicate LossGuard(blocks: seq<Block>, bulk: bool, seen: int, offset: nat, pending: set<nat>) {
    && bulk && 0 <= seen == |blocks| - 1 && 0 < offset == blocks[seen].pages - 1
    && blocks[seen].base + offset in pending
    && forall q: nat :: IsPage(blocks, q) && q in pending ==> q == blocks[seen].base + offset
  }

  /** The page that the guard is about. */
  predicate LastPage(blocks: seq<Block>, q: nat) {
    blocks != [] && var b := blocks[|blocks| - 1]; b.pages > 1 && q == b.base + b.pages - 1
  }

  lemma GuardLast(blocks: seq<Block>, bulk: bool, seen: int, offset: nat, pending: set<nat>)
    requires LossGuard(blocks, bulk, seen, offset, pending)
    ensures bulk && 0 <= seen < |blocks| && LastPage(blocks, blocks[seen].base + offset)
  {
  }

  lemma NotGuarded(blocks: seq<Block>, bulk: bool, seen: int, offset: nat, pending: set<nat>, i: nat, o: nat)
    requires BlocksOk(blocks) && i < |blocks| && o < blocks[i].pages && blocks[i].base + o in pending
    requires !(i == seen && o == offset && 0 < offset)
    ensures !LossGuard(blocks, bulk, seen, offset, pending)
  {
    assert InBlock(blocks[i], blocks[i].base + o);
    if LossGuard(blocks, bulk, seen, offset, pending) {
      assert IsPage(blocks, blocks[i].base + o);
      assert InBlock(blocks[seen], blocks[i].base + o);
    }
  }

  /** The scan from page `start` of block `first` on, around the block list, has been past page q of block j. */
  predicate Passed(first: nat, start: nat, wrapped: bool, i: nat, here: nat, j: nat, q: nat) {
    var after := j > first || (j == first && q >= start);
    var before := j < i || (j == i && q < here);
    if wrapped then after || before else after && before
  }

  /** The pages the scan has been past are clean, except perhaps `start` if it is skipped. */
  ghost predicate Clean(blocks: seq<Block>, bitmap: set<nat>, first: nat, start: nat, skip: bool, wrapped: bool, i: nat,
                        here: nat) {
    forall j, q: nat :: 0 <= j < |blocks| && InBlock(blocks[j], q) && Passed(first, start, wrapped, i, here, j, q)
                        && !(skip && q == start) ==>
      q !in bitmap
  }

  ghost predicate CleanRange(bitmap: set<nat>, lo: nat, hi: nat) {
    forall q :: lo <= q < hi ==> q !in bitmap
  }

  lemma CleanFurther(blocks: seq<Block>, bitmap: set<nat>, first: nat, start: nat, skip: bool, wrapped: bool, i: nat,
                     here: nat, bitmap': set<nat>, here': nat)
    requires Clean(blocks, bitmap, first, start, skip, wrapped, i, here) && bitmap' <= bitmap && here <= here'
    requires CleanRange(bitmap, here, here') || (skip && here == start && here' == start + 1)
    ensures Clean(blocks, bitmap', first, start, skip, wrapped, i, here')
  {
  }

  lemma CleanNext(blocks: seq<Block>, bitmap: set<nat>, first: nat, start: nat, skip: bool, wrapped: bool, i: nat,
                  here: nat)
    requires i + 1 < |blocks| && here >= blocks[i].base + blocks[i].pages
    requires Clean(blocks, bitmap, first, start, skip, wrapped, i, here)
    ensures Clean(blocks, bitmap, first, start, skip, wrapped, i + 1, blocks[i + 1].base)
  {
  }

  lemma CleanWrap(blocks: seq<Block>, bitmap: set<nat>, first: nat, start: nat, skip: bool, i: nat, here: nat)
    requires i + 1 == |blocks| && here >= blocks[i].base + blocks[i].pages
    requires Clean(blocks, bitmap, first, start, skip, false, i, here)
    ensures Clean(blocks, bitmap, first, start, skip, true, 0, blocks[0].base)
  {
  }

  /** Back where it began, the scan has been past every page. */
  lemma CleanAll(blocks: seq<Block>, bitmap: set<nat>, first: nat, start: nat, skip: bool, here: nat, q: nat)
    requires Clean(blocks, bitmap, first, start, skip, true, first, here) && here >= start
    requires IsPage(blocks, q) && !(skip && q == start)
    ensures q !in bitmap
  {
    var j :| 0 <= j < |blocks| && InBlock(blocks[j], q);
    assert Passed(first, start, true, first, here, j, q);
  }

  /** The round ends on a dirty page only if that is the page the scan skipped. */
  lemma RoundEnds(blocks: seq<Block>, bitmap: set<nat>, seen: nat, offset: nat, skip: bool, from: nat, o: nat)
    requires seen < |blocks| && from <= offset <= o <= blocks[seen].pages && (skip ==> offset < blocks[seen].pages)
    requires Clean(blocks, bitmap, seen, blocks[seen].base + offset, skip, true, seen, blocks[seen].base + from)
    requires CleanRange(bitmap, blocks[seen].base + from, blocks[seen].base + o)
    ensures forall q: nat :: IsPage(blocks, q) && q in bitmap ==> o < blocks[seen].pages && q == blocks[seen].base + o
    ensures o < blocks[seen].pages && blocks[seen].base + o in bitmap ==> skip && o == offset
    ensures skip && offset < o ==> blocks[seen].base + offset !in bitmap
  {
    var start := blocks[seen].base + offset;
    CleanFurther(blocks, bitmap, seen, start, skip, true, seen, blocks[seen].base + from, bitmap,
                 blocks[seen].base + o);
    forall q: nat | IsPage(blocks, q) && q in bitmap
      ensures skip && q == start && o == offset && o < blocks[seen].pages
    {
      if !(skip && q == start) {
        CleanAll(blocks, bitmap, seen, start, skip, blocks[seen].base + o, q);
      }
    }
    assert o < blocks[seen].pages ==> InBlock(blocks[seen], blocks[seen].base + o);
  }

  /** Where ram_save_block is, begun at the cursor (seen, offset) in bulk stage or not (bulk0): at offset o of
      block i. */
  ghost predicate At(blocks: seq<Block>, bitmap: set<nat>, bulk0: bool, bulk: bool, seen: int, offset: nat, i: nat,
                     o: nat, wrapped: bool) {
    var first := if seen < 0 then 0 else seen;
    && BlocksOk(blocks) && -1 <= seen < |blocks| && i < |blocks| && o <= blocks[i].pages
    && offset <= blocks[first].pages && (seen < 0 ==> offset == 0 && bulk)
    && (if wrapped then !bulk && i <= seen && (i == seen ==> o <= offset) else first <= i && bulk == bulk0)
    && Clean(blocks, bitmap, first, blocks[first].base + offset, bulk0 && 0 < offset, wrapped, i, blocks[i].base + o)
    && (bulk0 ==> BulkAhead(blocks, bitmap, seen, offset) && offset < blocks[first].pages)
    && (bulk0 && !wrapped ==> (i == first && o == offset)
                              || (0 <= seen && i == seen + 1 && o == 0 && offset + 1 == blocks[first].pages))
    && (bulk0 && wrapped ==> seen == |blocks| - 1 && offset + 1 == blocks[first].pages)
  }

  /** What migration_bitmap_find_and_reset_dirty finds from offset o of block i on. */
  ghost predicate Probed(blocks: seq<Block>, bitmap: set<nat>, bulk: bool, i: nat, o: nat, next: nat) {
    && i < |blocks| && o <= next <= blocks[i].pages
    && (if bulk && 0 < o then next == o + 1 else CleanRange(bitmap, blocks[i].base + o, blocks[i].base + next))
    && (next < blocks[i].pages ==> blocks[i].base + next in bitmap)
  }

  lemma ProbedBounds(blocks: seq<Block>, bitmap: set<nat>, bulk: bool, i: nat, o: nat, next: nat)
    requires Probed(blocks, bitmap, bulk, i, o, next)
    ensures o <= next <= blocks[i].pages && (next < blocks[i].pages ==> blocks[i].base + next in bitmap)
  {
  }

  /** A page to send, which becomes the cursor. */
  ghost predicate FoundOk(blocks: seq<Block>, bitmap: set<nat>, bulk0: bool, bulk: bool, seen: int, offset: nat, i: nat,
                          o: nat) {
    && i < |blocks| && o < blocks[i].pages && blocks[i].base + o in bitmap
    && !LossGuard(blocks, bulk0, seen, offset, bitmap)
    && (bulk ==> bulk0 && BulkAhead(blocks, bitmap - {blocks[i].base + o}, i, o) && InOrder(blocks, seen, offset, i, o))
    && (bulk0 && !bulk ==> 0 <= seen == |blocks| - 1 && offset == blocks[seen].pages - 1)
  }

  /** The end of a round: no page is left, and a bit was cleared for nothing just under the guard. */
  ghost predicate NothingOk(blocks: seq<Block>, bitmap: set<nat>, bulk0: bool, seen: int, offset: nat,
                            bitmap': set<nat>) {
    && 0 <= seen < |blocks| && NoneIn(blocks, bitmap')
    && bitmap' == (if LossGuard(blocks, bulk0, seen, offset, bitmap) then bitmap - {blocks[seen].base + offset}
                   else bitmap)
    && (bulk0 ==> seen == |blocks| - 1 && offset == blocks[seen].pages - 1)
  }

  /** What a call of ram_save_block does to the bitmap and the cursor. */
  ghost predicate Outcome(blocks: seq<Block>, bitmap: set<nat>, bulk: bool, seen: int, offset: nat,
                          sent: bool, bitmap': set<nat>, bulk': bool, seen': int, offset': nat)
  {
    && 0 <= seen' < |blocks| && offset' <= blocks[seen'].pages && bitmap' <= bitmap
    && var page := blocks[seen'].base + offset';
    && (LossGuard(blocks, bulk, seen, offset, bitmap) ==> !sent && bitmap' == bitmap - {blocks[seen].base + offset})
    && (if sent then offset' < blocks[seen'].pages && page in bitmap && page !in bitmap' else NoneIn(blocks, bitmap'))
    && (bulk' ==> bulk && sent && bitmap' == bitmap - {page} && InOrder(blocks, seen, offset, seen', offset')
                  && BulkAhead(blocks, bitmap', seen', offset'))
    && (bulk && !bulk' ==> 0 <= seen == |blocks| - 1 && offset == blocks[seen].pages - 1)
  }

  lemma FoundOutcome(blocks: seq<Block>, bitmap: set<nat>, bitmap1: set<nat>, bulk0: bool, bulk: bool, seen: int,
                     offset: nat, i: nat, o: nat)
    requires FoundOk(blocks, bitmap1, bulk0, bulk, seen, offset, i, o) && bitmap1 <= bitmap
    requires (bulk0 ==> bitmap1 == bitmap)
    ensures Outcome(blocks, bitmap, bulk0, seen, offset, true, bitmap1 - {blocks[i].base + o}, bulk, i, o)
    ensures !LossGuard(blocks, bulk0, seen, offset, bitmap)
    ensures bulk ==> BulkAhead(blocks, bitmap1 - {blocks[i].base + o}, i, o) && o < blocks[i].pages
  {
  }

  lemma NothingOutcome(blocks: seq<Block>, bitmap: set<nat>, bitmap1: set<nat>, bulk0: bool, seen: int, offset: nat,
                       bitmap': set<nat>, i: nat, o: nat)
    requires NothingOk(blocks, bitmap1, bulk0, seen, offset, bitmap') && bitmap1 <= bitmap
    requires (bulk0 ==> bitmap1 == bitmap)
    requires i < |blocks| && o <= blocks[i].pages
    ensures Outcome(blocks, bitmap, bulk0, seen, offset, false, bitmap', false, i, o)
    ensures LossGuard(blocks, bulk0, seen, offset, bitmap) || bitmap' == bitmap1
    ensures LossGuard(blocks, bulk0, seen, offset, bitmap) ==> bulk0
  {
  }

  lemma AtStart(blocks: seq<Block>, bitmap: set<nat>, bulk: bool, seen: int, offset: nat)
    requires BlocksOk(blocks) && -1 <= seen < |blocks| && (seen < 0 ==> offset == 0 && bulk)
    requires (seen >= 0 ==> offset <= blocks[seen].pages)
    requires bulk ==> BulkAhead(blocks, bitmap, seen, offset) && (seen >= 0 ==> offset < blocks[seen].pages)
    ensures |blocks| > 0 && At(blocks, bitmap, bulk, bulk, seen, offset, if seen < 0 then 0 else seen, offset, false)
  {
    hide BulkAhead;
  }

  lemma AtReady(blocks: seq<Block>, bitmap: set<nat>, bulk0: bool, bulk: bool, seen: int, offset: nat, i: nat, o: nat,
                wrapped: bool)
    requires At(blocks, bitmap, bulk0, bulk, seen, offset, i, o, wrapped)
    ensures i < |blocks| && o <= blocks[i].pages
    ensures wrapped ==> !bulk && 0 <= seen && (i == seen ==> offset <= blocks[i].pages)
    ensures bulk && 0 < o ==> o < blocks[i].pages && (o + 1 < blocks[i].pages ==> blocks[i].base + o + 1 in bitmap)
  {
    hide BulkAhead, Clean;
    if bulk && 0 < o && o + 1 < blocks[i].pages {
      AheadDirty(blocks, bitmap, seen, offset, i, o + 1);
    }
  }

  /** Nothing more in block i: on to the next block, or around. */
  lemma AtNext(blocks: seq<Block>, bitmap: set<nat>, bulk0: bool, bulk: bool, seen: int, offset: nat, i: nat, o: nat,
               wrapped: bool)
    requires At(blocks, bitmap, bulk0, bulk, seen, offset, i, o, wrapped)
    requires Probed(blocks, bitmap, bulk, i, o, blocks[i].pages)
    requires !(wrapped && i == seen)
    ensures if i + 1 < |blocks| then At(blocks, bitmap, bulk0, bulk, seen, offset, i + 1, 0, wrapped)
            else !wrapped && At(blocks, bitmap, bulk0, false, seen, offset, 0, 0, true)
    ensures bulk ==> i == seen && offset + 1 == blocks[i].pages
  {
    hide BulkAhead, Clean, CleanRange, BlocksOk;
    if bulk {
      BulkBlockDone(blocks, bitmap, seen, offset, i, o);
    }
    var first := if seen < 0 then 0 else seen;
    var start, end := blocks[first].base + offset, blocks[i].base + blocks[i].pages;
    CleanFurther(blocks, bitmap, first, start, bulk0 && 0 < offset, wrapped, i, blocks[i].base + o, bitmap, end);
    if i + 1 < |blocks| {
      CleanNext(blocks, bitmap, first, start, bulk0 && 0 < offset, wrapped, i, end);
    } else {
      CleanWrap(blocks, bitmap, first, start, bulk0 && 0 < offset, i, end);
    }
  }

  /** A dirty page that is not where the round ends. */
  lemma AtFound(blocks: seq<Block>, bitmap: set<nat>, bulk0: bool, bulk: bool, seen: int, offset: nat, i: nat, o: nat,
                wrapped: bool, next: nat)
    requires At(blocks, bitmap, bulk0, bulk, seen, offset, i, o, wrapped) && Probed(blocks, bitmap, bulk, i, o, next)
    requires next < blocks[i].pages
    requires !(wrapped && i == seen && next >= offset)
    ensures FoundOk(blocks, bitmap, bulk0, bulk, seen, offset, i, next)
    ensures !bulk0 ==> At(blocks, bitmap - {blocks[i].base + next}, bulk0, bulk, seen, offset, i, next, wrapped)
  {
    hide BulkAhead, Clean, CleanRange, BlocksOk, InOrder;
    if bulk0 {
      NotGuarded(blocks, bulk0, seen, offset, bitmap, i, next);
    } else {
      var first := if seen < 0 then 0 else seen;
      CleanFurther(blocks, bitmap, first, blocks[first].base + offset, false, wrapped, i, blocks[i].base + o,
                   bitmap - {blocks[i].base + next}, blocks[i].base + next);
    }
    if bulk {
      BulkStep(blocks, bitmap, seen, offset, i, next);
      BulkInOrder(blocks, bitmap, seen, offset, i, next);
    }
  }

  /** The round ends: there is nothing to send, and a dirty page is found only under the guard. */
  lemma AtEnd(blocks: seq<Block>, bitmap: set<nat>, bulk0: bool, bulk: bool, seen: nat, offset: nat, o: nat, next: nat)
    requires At(blocks, bitmap, bulk0, bulk, seen, offset, seen, o, true) && Probed(blocks, bitmap, bulk, seen, o, next)
    requires offset <= next
    ensures NothingOk(blocks, bitmap, bulk0, seen, offset, if next < blocks[seen].pages
                      then bitmap - {blocks[seen].base + next} else bitmap)
  {
    hide BulkAhead, Clean, CleanRange, BlocksOk;
    RoundEnds(blocks, bitmap, seen, offset, bulk0 && 0 < offset, o, next);
  }

  /** The bits of a set in word k of the bitmap. */
  function Word(s: set<nat>, k: nat): (w: set<nat>)
    ensures w <= s
  {
    set q | q in s && BITS_PER_LONG * k <= q < BITS_PER_LONG * k + BITS_PER_LONG
  }

  function Max(a: nat, b: nat): nat { if a > b then a else b }

  /** The bits of a word from nr on. */
  function From(w: set<nat>, nr: nat): set<nat> {
    set q | q in w && q >= nr
  }

  lemma WordFrom(s: set<nat>, k: nat, nr: nat)
    requires BITS_PER_LONG * k <= nr < BITS_PER_LONG * (k + 1)
    ensures forall q: nat :: q in From(Word(s, k), nr) <==> nr <= q < BITS_PER_LONG * (k + 1) && q in s
    ensures nr == BITS_PER_LONG * k ==> From(Word(s, k), nr) == Word(s, k)
  {
  }

  lemma FourClean(s: set<nat>, k: nat, nr: nat)
    requires Word(s, k) + Word(s, k + 1) + Word(s, k + 2) + Word(s, k + 3) == {}
    requires CleanRange(s, nr, k * BITS_PER_LONG)
    ensures CleanRange(s, nr, (k + 4) * BITS_PER_LONG)
  {
    var four := Word(s, k) + Word(s, k + 1) + Word(s, k + 2) + Word(s, k + 3);
    assert forall q: nat :: k * BITS_PER_LONG <= q < (k + 4) * BITS_PER_LONG && q in s ==> q in four;
  }

  /** Bits have moved from the log to the bitmap, and none got lost or made up. */
  ghost predicate Moved(log: set<nat>, bitmap: set<nat>, log': set<nat>, bitmap': set<nat>) {
    log' <= log && bitmap' == bitmap + (log - log')
  }

  lemma MovedAll(log: set<nat>, bitmap: set<nat>, log': set<nat>, bitmap': set<nat>, more: set<nat>)
    requires Moved(log, bitmap, log', bitmap')
    ensures bitmap' + log' + more == bitmap + log + more
  {
  }

  lemma MovedNone(log: set<nat>, bitmap: set<nat>)
    ensures Moved(log, bitmap, log, bitmap)
  {
  }

  lemma MovedMore(log: set<nat>, bitmap: set<nat>, log1: set<nat>, bitmap1: set<nat>, some: set<nat>)
    requires Moved(log, bitmap, log1, bitmap1) && some <= log1
    ensures Moved(log, bitmap, log1 - some, bitmap1 + some)
  {
  }

  lemma MovedTrans(log: set<nat>, bitmap: set<nat>, log1: set<nat>, bitmap1: set<nat>, log2: set<nat>,
                   bitmap2: set<nat>)
    requires Moved(log, bitmap, log1, bitmap1) && Moved(log1, bitmap1, log2, bitmap2)
    ensures Moved(log, bitmap, log2, bitmap2) && log2 <= log1 && bitmap <= bitmap2
  {
  }

  lemma BulkMore(blocks: seq<Block>, bitmap: set<nat>, seen: int, offset: nat, bitmap': set<nat>)
    requires BulkAhead(blocks, bitmap, seen, offset) && bitmap <= bitmap'
    ensures BulkAhead(blocks, bitmap', seen, offset)
  {
  }

  lemma CleanNone(bitmap: set<nat>, q: nat)
    ensures CleanRange(bitmap, q, q)
  {
  }

  lemma NoBlocks(log: set<nat>)
    ensures NoneIn([], log)
  {
  }

  /** Taking word k out of the log clears another 64 pages. */
  lemma WordCleared(log: set<nat>, base: nat, word: nat, k: nat)
    requires word * BITS_PER_LONG == base && CleanRange(log, base, base + k * BITS_PER_LONG)
    ensures CleanRange(log - Word(log, word + k), base, base + (k + 1) * BITS_PER_LONG)
  {
  }

  /** Where the sync of a block ends. */
  function SyncEnd(b: Block): nat {
    if b.base % BITS_PER_LONG == 0 then b.base + (b.pages + BITS_PER_LONG - 1) / BITS_PER_LONG * BITS_PER_LONG
    else b.base + b.pages
  }

  lemma CleanFewer(log: set<nat>, lo: nat, hi: nat, hi': nat)
    requires CleanRange(log, lo, hi) && hi' <= hi
    ensures CleanRange(log, lo, hi')
  {
  }

  /** Pages outside the range stay in the log. */
  ghost predicate Spared(log: set<nat>, log': set<nat>, lo: nat, hi: nat) {
    forall q: nat :: q in log && !(lo <= q < hi) ==> q in log'
  }

  lemma NoneSpared(log: set<nat>, lo: nat)
    ensures CleanRange(log, lo, lo) && Spared(log, log, lo, lo)
  {
  }

  /** Taking one page out of the log. */
  lemma PageSpared(log0: set<nat>, log: set<nat>, lo: nat, q: nat)
    requires lo <= q && CleanRange(log, lo, q) && Spared(log0, log, lo, q)
    ensures CleanRange(log - {q}, lo, q + 1) && Spared(log0, log - {q}, lo, q + 1)
    ensures q !in log ==> log - {q} == log
  {
  }

  lemma WordSpared(log0: set<nat>, log: set<nat>, base: nat, word: nat, k: nat)
    requires word * BITS_PER_LONG == base && Spared(log0, log, base, base + k * BITS_PER_LONG)
    ensures Spared(log0, log - Word(log, word + k), base, base + (k + 1) * BITS_PER_LONG)
  {
  }

  lemma CleanBlocks(blocks: seq<Block>, i: nat, log: set<nat>, log': set<nat>)
    requires i < |blocks| && NoneIn(blocks[..i], log) && log' <= log
    requires CleanRange(log', blocks[i].base, blocks[i].base + blocks[i].pages)
    ensures NoneIn(blocks[..i + 1], log')
  {
    forall q: nat | IsPage(blocks[..i + 1], q) ensures q !in log' {
      var j :| 0 <= j < i + 1 && InBlock(blocks[..i + 1][j], q);
      if j < i {
        assert InBlock(blocks[..i][j], q);
        assert IsPage(blocks[..i], q);
      }
    }
  }

  /** For the guard only the pages of blocks matter, so it is the same before and after the bits move. */
  lemma GuardMoved(blocks: seq<Block>, bulk: bool, seen: int, offset: nat, log: set<nat>, bitmap: set<nat>,
                   log': set<nat>, bitmap': set<nat>)
    requires Moved(log, bitmap, log', bitmap') && NoneIn(blocks, log')
    ensures LossGuard(blocks, bulk, seen, offset, bitmap') <==> LossGuard(blocks, bulk, seen, offset, bitmap + log)
  {
    if bulk && 0 <= seen < |blocks| && offset < blocks[seen].pages {
      assert InBlock(blocks[seen], blocks[seen].base + offset);
      assert IsPage(blocks, blocks[seen].base + offset);
    }
    assert forall q: nat :: IsPage(blocks, q) ==> (q in bitmap' <==> q in bitmap + log);
  }

  /** The word-at-a-time and the page-at-a-time sync agree on the pages of the block: whatever each of them does beyond,
      for these pages its contract leaves one outcome. */
  lemma SyncAgrees(b: Block, log: set<nat>, bitmap: set<nat>, log1: set<nat>, bitmap1: set<nat>, log2: set<nat>,
                   bitmap2: set<nat>)
    requires Moved(log, bitmap, log1, bitmap1) && CleanRange(log1, b.base, b.base + b.pages)
    requires Moved(log, bitmap, log2, bitmap2) && CleanRange(log2, b.base, b.base + b.pages)
    ensures forall q: nat :: InBlock(b, q) ==>
              (q in bitmap1 <==> q in bitmap2) && (q in bitmap1 <==> q in bitmap || q in log)
  {
  }

  /** After a page is sent the guard is off. */
  lemma SentUnguards(blocks: seq<Block>, bitmap: set<nat>, bulk: bool, seen: int, offset: nat, bitmap': set<nat>,
                     bulk': bool, seen': int, offset': nat)
    requires Outcome(blocks, bitmap, bulk, seen, offset, true, bitmap', bulk', seen', offset')
    ensures bitmap' < bitmap && !LossGuard(blocks, bulk', seen', offset', bitmap')
  {
  }

  // One block of two pages, for which the guard comes to hold.

  lemma TwoPages()
    ensures BlocksOk([Block(0, 2)])
    ensures forall q: nat :: IsPage([Block(0, 2)], q) <==> q < 2
    ensures FirstPages(2) == {0, 1}
    ensures LossGuard([Block(0, 2)], true, 0, 1, {} + {1})
    ensures forall pending: set<nat> :: !LossGuard([Block(0, 2)], true, -1, 0, pending)
                                        && !LossGuard([Block(0, 2)], true, 0, 0, pending)
  {
    var blocks := [Block(0, 2)];
    assert forall q: nat :: q < 2 ==> InBlock(blocks[0], q);
  }

  lemma FirstTurn(sent: bool, bitmap: set<nat>, bulk: bool, seen: int, offset: nat)
    requires Outcome([Block(0, 2)], {0, 1}, true, -1, 0, sent, bitmap, bulk, seen, offset)
    ensures sent && bulk && seen == 0 && offset == 0 && bitmap == {1}
  {
    assert InBlock(Block(0, 2), 0) && Ahead([Block(0, 2)], -1, 0, 0, 0);
  }

  lemma SecondTurn(sent: bool, bitmap: set<nat>, bulk: bool, seen: int, offset: nat)
    requires Outcome([Block(0, 2)], {1}, true, 0, 0, sent, bitmap, bulk, seen, offset)
    ensures sent && bulk && seen == 0 && offset == 1 && bitmap == {}
  {
  }
}
