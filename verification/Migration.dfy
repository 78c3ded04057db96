/** Live migration of guest RAM (qemu-2.0/arch_init.c, with the page cache of
    qemu-2.0/page_cache.c).  Addresses are page numbers. */
module Migration {
  import opened MigrationScan
  import opened Values
  import Xbzrle

  const PAGE_SIZE: nat := 4096

  type Page = p: seq<Byte> | |p| == PAGE_SIZE witness seq(PAGE_SIZE, _ => 0)

  function ZeroPage(): Page { seq(PAGE_SIZE, _ => 0) }

  datatype Item = Item(addr: nat, data: Page)

  /** How many of the events are turns of the guest. */
  function GuestTurns(schedule: seq<Event>): nat {
    if schedule == [] then 0
    else GuestTurns(schedule[..|schedule| - 1]) + if schedule[|schedule| - 1].GuestEvent? then 1 else 0
  }

  /** What goes over the wire for one page. */
  datatype Message = Zero(addr: nat) | Full(addr: nat, data: Page) | Delta(addr: nat, delta: seq<Byte>)

  /** What happens between setup and completion. */
  datatype Event = GuestEvent | SyncEvent | SaveEvent

  /** How a turn of the scan ends. */
  datatype Turn = Again | Found | Nothing

  ghost predicate Mapped(blocks: seq<Block>, src: map<nat, Page>, dst: map<nat, Page>) {
    forall q: nat :: IsPage(blocks, q) ==> q in src && q in dst
  }

  lemma MappedAt(blocks: seq<Block>, src: map<nat, Page>, dst: map<nat, Page>, i: nat, offset: nat)
    requires Mapped(blocks, src, dst) && i < |blocks| && offset < blocks[i].pages
    ensures blocks[i].base + offset in src && blocks[i].base + offset in dst
  {
    assert InBlock(blocks[i], blocks[i].base + offset);
    assert IsPage(blocks, blocks[i].base + offset);
  }

  lemma MappedKept(blocks: seq<Block>, g: Guest, dst: map<nat, Page>, g': Guest, dst': map<nat, Page>, racing: bool)
    requires Mapped(blocks, g.src, dst) && Drifted(g, g', racing) && dst.Keys <= dst'.Keys
    ensures Mapped(blocks, g'.src, dst')
  {
  }

  /** Nothing lost: every page is the same on both sides or marked for sending. */
  ghost predicate Safe(blocks: seq<Block>, src: map<nat, Page>, dst: map<nat, Page>, pending: set<nat>) {
    forall q: nat :: IsPage(blocks, q) ==> q in src && q in dst && (src[q] == dst[q] || q in pending)
  }

  /** A store of the guest: a page and what is in it afterwards. */
  datatype Store = Store(addr: nat, data: Page)

  /** Memory after the stores, in order; those to other addresses do not matter. */
  function Stored(src: map<nat, Page>, writes: seq<Store>): (src': map<nat, Page>)
    ensures src'.Keys == src.Keys
  {
    if writes == [] then src
    else
      var before, w := Stored(src, writes[..|writes| - 1]), writes[|writes| - 1];
      if w.addr in src then before[w.addr := w.data] else before
  }

  /** The pages that the stores write. */
  function Written(pages: set<nat>, writes: seq<Store>): set<nat> {
    set i | 0 <= i < |writes| && writes[i].addr in pages :: writes[i].addr
  }

  /** Memory after the guest's turns from t to t'. */
  function Replay(stores: nat -> seq<Store>, src: map<nat, Page>, t: nat, t': nat): (src': map<nat, Page>)
    ensures src'.Keys == src.Keys
    decreases t'
  {
    if t' <= t then src else Stored(Replay(stores, src, t, t' - 1), stores(t' - 1))
  }

  /** The pages written in those turns. */
  function WrittenIn(stores: nat -> seq<Store>, pages: set<nat>, t: nat, t': nat): set<nat>
    decreases t'
  {
    if t' <= t then {} else WrittenIn(stores, pages, t, t' - 1) + Written(pages, stores(t' - 1))
  }

  /** Memory and dirty log of a guest that makes the given stores in its turns, and how many turns it has had. */
  datatype Guest = Guest(stores: nat -> seq<Store>, src: map<nat, Page>, log: set<nat>, tick: nat)

  /** Memory is what it was, with the stores of the turns since then. */
  ghost predicate Ran(g: Guest, g': Guest) {
    g.tick <= g'.tick && g'.stores == g.stores && g'.src == Replay(g.stores, g.src, g.tick, g'.tick)
  }

  /** What the guest can do to memory and the dirty log meanwhile: make its stores, which are logged. */
  ghost predicate Drifted(g: Guest, g': Guest, racing: bool) {
    && Ran(g, g') && g'.log == g.log + WrittenIn(g.stores, g.src.Keys, g.tick, g'.tick)
    && (forall q :: q in g.src ==> g'.src[q] == g.src[q] || q in WrittenIn(g.stores, g.src.Keys, g.tick, g'.tick))
    && (!racing ==> g' == g)
  }

  lemma WrittenNext(pages: set<nat>, writes: seq<Store>, i: nat)
    requires i < |writes|
    ensures Written(pages, writes[..i + 1]) ==
            Written(pages, writes[..i]) + if writes[i].addr in pages then {writes[i].addr} else {}
  {
    var s, s' := writes[..i], writes[..i + 1];
    forall x | x in Written(pages, s') ensures x in Written(pages, s) || x == writes[i].addr {
      var j :| 0 <= j < |s'| && s'[j].addr == x;
      assert j < i ==> s[j].addr == x;
    }
    forall x | x in Written(pages, s) ensures x in Written(pages, s') {
      var j :| 0 <= j < |s| && s[j].addr == x;
      assert s'[j].addr == x;
    }
    assert s'[i].addr == writes[i].addr;
  }

  lemma {:induction false} StoredElsewhere(src: map<nat, Page>, writes: seq<Store>, q: nat)
    requires q in src && q !in Written(src.Keys, writes)
    ensures Stored(src, writes)[q] == src[q]
  {
    if writes != [] {
      var n := |writes| - 1;
      assert writes[..n + 1] == writes;
      WrittenNext(src.Keys, writes, n);
      StoredElsewhere(src, writes[..n], q);
    }
  }

  lemma NothingWritten(pages: set<nat>)
    ensures Written(pages, []) == {}
  {
  }

  lemma NotRun(g: Guest, racing: bool)
    ensures Drifted(g, g, racing)
  {
  }

  lemma OneTurn(g: Guest, g': Guest)
    requires g'.stores == g.stores && g'.tick == g.tick + 1
    requires g'.src == Stored(g.src, g.stores(g.tick)) && g'.log == g.log + Written(g.src.Keys, g.stores(g.tick))
    ensures Drifted(g, g', true)
  {
    assert Replay(g.stores, g.src, g.tick, g.tick) == g.src;
    assert WrittenIn(g.stores, g.src.Keys, g.tick, g.tick) == {};
    forall q | q in g.src ensures g'.src[q] == g.src[q] || q in Written(g.src.Keys, g.stores(g.tick)) {
      if q !in Written(g.src.Keys, g.stores(g.tick)) {
        StoredElsewhere(g.src, g.stores(g.tick), q);
      }
    }
  }

  lemma {:induction false} ReplayMore(stores: nat -> seq<Store>, src: map<nat, Page>, t: nat, t1: nat, t2: nat)
    requires t <= t1 <= t2
    ensures Replay(stores, Replay(stores, src, t, t1), t1, t2) == Replay(stores, src, t, t2)
    ensures WrittenIn(stores, src.Keys, t, t1) + WrittenIn(stores, src.Keys, t1, t2) ==
            WrittenIn(stores, src.Keys, t, t2)
    decreases t2
  {
    if t1 < t2 {
      ReplayMore(stores, src, t, t1, t2 - 1);
    }
  }

  lemma RanMore(g: Guest, g1: Guest, g2: Guest)
    requires Ran(g, g1) && Ran(g1, g2)
    ensures Ran(g, g2)
  {
    ReplayMore(g.stores, g.src, g.tick, g1.tick, g2.tick);
  }

  lemma DriftRan(g: Guest, g1: Guest, g2: Guest, racing: bool)
    requires Ran(g, g1) && Drifted(g1, g2, racing)
    ensures Ran(g, g2) && g1.tick <= g2.tick
  {
    hide Replay, WrittenIn;
    RanMore(g, g1, g2);
  }

  /** The pages whose bit went are on the destination, and no other page of it changed. */
  ghost predicate Sent(bitmap: set<nat>, dst: map<nat, Page>, bitmap': set<nat>, dst': map<nat, Page>, src': map<nat,
                       Page>, log': set<nat>) {
    && bitmap' <= bitmap && dst.Keys == dst'.Keys
    && (forall q :: q in bitmap && q !in bitmap' ==> q in src' && q in dst' && (dst'[q] == src'[q] || q in log'))
    && (forall q :: q in dst && !(q in bitmap && q !in bitmap') ==> dst'[q] == dst[q])
  }

  lemma NothingSent(bitmap: set<nat>, dst: map<nat, Page>, g: Guest, racing: bool)
    ensures Sent(bitmap, dst, bitmap, dst, g.src, g.log) && Drifted(g, g, racing)
  {
  }

  lemma DriftedMore(g: Guest, g1: Guest, g2: Guest, racing: bool)
    requires Drifted(g, g1, racing) && Drifted(g1, g2, racing)
    ensures Drifted(g, g2, racing)
    ensures g.src.Keys == g1.src.Keys == g2.src.Keys
    ensures WrittenIn(g.stores, g2.src.Keys, g1.tick, g2.tick) <= WrittenIn(g.stores, g2.src.Keys, g.tick, g2.tick)
  {
    hide Replay, WrittenIn;
    ReplayMore(g.stores, g.src, g.tick, g1.tick, g2.tick);
  }

  lemma DriftLogged(g: Guest, g': Guest, racing: bool)
    requires Drifted(g, g', racing)
    ensures g'.src.Keys == g.src.Keys && WrittenIn(g.stores, g'.src.Keys, g.tick, g'.tick) <= g'.log
  {
    hide Replay, WrittenIn;
  }

  lemma SentOne(bitmap: set<nat>, dst: map<nat, Page>, q: nat, page: Page, src: map<nat, Page>, log: set<nat>)
    requires q in bitmap && q in dst && q in src && (page == src[q] || q in log)
    ensures Sent(bitmap, dst, bitmap - {q}, dst[q := page], src, log)
  {
  }

  lemma SentMore(bitmap: set<nat>, dst: map<nat, Page>, bitmap1: set<nat>, dst1: map<nat, Page>, g1: Guest,
                 bitmap2: set<nat>, dst2: map<nat, Page>, g2: Guest, racing: bool)
    requires Sent(bitmap, dst, bitmap1, dst1, g1.src, g1.log) && Drifted(g1, g2, racing)
    requires Sent(bitmap1, dst1, bitmap2, dst2, g2.src, g2.log)
    ensures Sent(bitmap, dst, bitmap2, dst2, g2.src, g2.log)
  {
  }

  /** Sending keeps what is safe safe; `lost` is what was not before. */
  lemma SentSafe(blocks: seq<Block>, g: Guest, dst: map<nat, Page>, bitmap: set<nat>, g': Guest, dst': map<nat, Page>,
                 bitmap': set<nat>, racing: bool, lost: set<nat>)
    requires Safe(blocks, g.src, dst, bitmap + g.log + lost)
    requires Drifted(g, g', racing) && Sent(bitmap, dst, bitmap', dst', g'.src, g'.log)
    ensures Safe(blocks, g'.src, dst', bitmap' + g'.log + lost)
  {
  }

  /** Under the guard a call loses the page under the cursor, unless the destination happens to have it or the guest
      writes it again. */
  lemma GuardLoses(blocks: seq<Block>, bulk: bool, seen: int, offset: nat, g: Guest, dst: map<nat, Page>,
                   bitmap: set<nat>, g': Guest, racing: bool)
    requires Safe(blocks, g.src, dst, bitmap + g.log) && LossGuard(blocks, bulk, seen, offset, bitmap)
    requires Drifted(g, g', racing)
    ensures var q := blocks[seen].base + offset;
            && q in g'.src && q in dst
            && (Safe(blocks, g'.src, dst, bitmap - {q} + g'.log) <==> g'.src[q] == dst[q] || q in g'.log)
  {
    var q := blocks[seen].base + offset;
    assert InBlock(blocks[seen], q);
    assert IsPage(blocks, q);
  }

  lemma GuardLost(blocks: seq<Block>, g: Guest, dst: map<nat, Page>, bitmap: set<nat>, g': Guest, racing: bool, q: nat)
    requires Safe(blocks, g.src, dst, bitmap + g.log) && Drifted(g, g', racing)
    ensures Safe(blocks, g'.src, dst, bitmap - {q} + g'.log + {q})
  {
  }

  lemma DriftSafe(blocks: seq<Block>, g: Guest, dst: map<nat, Page>, bitmap: set<nat>, g': Guest, racing: bool,
                  lost: set<nat>)
    requires Safe(blocks, g.src, dst, bitmap + g.log + lost) && Drifted(g, g', racing)
    ensures Safe(blocks, g'.src, dst, bitmap + g'.log + lost)
  {
  }

  /** Every page of guest memory is on the destination. */
  ghost predicate Same(blocks: seq<Block>, src: map<nat, Page>, dst: map<nat, Page>) {
    forall q: nat :: IsPage(blocks, q) ==> q in src && q in dst && dst[q] == src[q]
  }

  /** Under the guard all but the page under the cursor are there. */
  lemma GuardSame(blocks: seq<Block>, bulk: bool, seen: int, offset: nat, src: map<nat, Page>, dst: map<nat, Page>,
                  pending: set<nat>)
    requires Safe(blocks, src, dst, pending) && LossGuard(blocks, bulk, seen, offset, pending)
    ensures var q := blocks[seen].base + offset; q in src && q in dst && (Same(blocks, src, dst) <==> dst[q] == src[q])
    ensures Safe(blocks, src, dst, {blocks[seen].base + offset})
  {
    var q := blocks[seen].base + offset;
    assert InBlock(blocks[seen], q);
    assert IsPage(blocks, q);
  }

  lemma AllSent(blocks: seq<Block>, src: map<nat, Page>, dst: map<nat, Page>, log: set<nat>, bitmap: set<nat>,
                lost: set<nat>)
    requires Safe(blocks, src, dst, bitmap + log + lost) && NoneIn(blocks, log) && NoneIn(blocks, bitmap)
    ensures Safe(blocks, src, dst, lost)
  {
  }

  /** The page lost in a run, if there is one. */
  function Only(lost: Option<nat>): set<nat> { if lost.None? then {} else {lost.value} }

  function Listed(lost: Option<nat>): seq<nat> { if lost.None? then [] else [lost.value] }

  /** What a run lost decides whether memory is the same. */
  lemma OnlyLost(blocks: seq<Block>, src: map<nat, Page>, dst: map<nat, Page>, lost: Option<nat>)
    requires Safe(blocks, src, dst, Only(lost)) && (lost.Some? ==> LastPage(blocks, lost.value))
    ensures lost.Some? ==> lost.value in src && lost.value in dst
    ensures Same(blocks, src, dst) <==> (lost.Some? ==> dst[lost.value] == src[lost.value])
  {
    if lost.Some? {
      assert InBlock(blocks[|blocks| - 1], lost.value);
      assert IsPage(blocks, lost.value);
    }
  }

  /** cache_get_cache_pos. */
  function CachePos(slots: nat, q: nat): (pos: nat)
    requires slots > 0
    ensures pos < slots
  {
    q % slots
  }

  /** The page cache: a page lives in its own slot, and before the last stage (in the last stage: as long
      as it is still to be sent) what it holds is what the destination has. */
  ghost predicate CacheOk(cache: map<nat, Item>, slots: nat, dst: map<nat, Page>, lastStage: bool, bitmap: set<nat>)
    requires slots > 0
  {
    forall k :: k in cache ==>
      && k == CachePos(slots, cache[k].addr)
      && (!lastStage || cache[k].addr in bitmap ==> cache[k].addr in dst && dst[cache[k].addr] == cache[k].data)
  }

  lemma CacheAny(cache: map<nat, Item>, slots: nat, dst: map<nat, Page>, bitmap: set<nat>, bitmap': set<nat>)
    requires slots > 0 && CacheOk(cache, slots, dst, false, bitmap)
    ensures CacheOk(cache, slots, dst, false, bitmap')
  {
  }

  lemma LastStage(cache: map<nat, Item>, slots: nat, dst: map<nat, Page>, bitmap: set<nat>)
    requires slots > 0 && CacheOk(cache, slots, dst, false, bitmap)
    ensures CacheOk(cache, slots, dst, true, bitmap)
  {
  }

  /** The page is sent and cached. */
  lemma CacheSent(cache: map<nat, Item>, slots: nat, dst: map<nat, Page>, lastStage: bool, bitmap: set<nat>, q: nat,
                  page: Page, cache': map<nat, Item>)
    requires slots > 0 && CacheOk(cache, slots, dst, lastStage, bitmap + {q}) && q !in bitmap
    requires forall k :: k in cache' && k != CachePos(slots, q) ==> k in cache && cache'[k] == cache[k]
    requires var k := CachePos(slots, q);
             if k in cache' && cache'[k].addr == q then lastStage || cache'[k].data == page
             else k in cache' ==> lastStage && k in cache && cache'[k] == cache[k]
    ensures CacheOk(cache', slots, dst[q := page], lastStage, bitmap)
  {
    hide CachePos;
  }

  lemma CacheNone(slots: nat, dst: map<nat, Page>, lastStage: bool, bitmap: set<nat>)
    requires slots > 0
    ensures CacheOk(map[], slots, dst, lastStage, bitmap)
  {
  }

  lemma CachedSame(cache: map<nat, Item>, slots: nat, dst: map<nat, Page>, lastStage: bool, bitmap: set<nat>, q: nat)
    requires slots > 0 && CacheOk(cache, slots, dst, lastStage, bitmap + {q}) && q in dst
    requires CachePos(slots, q) in cache && cache[CachePos(slots, q)].addr == q
    ensures dst[q] == cache[CachePos(slots, q)].data
  {
  }

  /** ram_load for one message: None is -EINVAL. */
  function Loaded(dst: map<nat, Page>, m: Message): Option<map<nat, Page>> {
    match m
    case Zero(a) => Some(dst[a := ZeroPage()])
    case Full(a, data) => Some(dst[a := data])
    case Delta(a, delta) =>
      if a !in dst then None
      else
        match Xbzrle.Decoded(delta, true, dst[a], 0)
        case None => None
        case Some(page) => if |page| == PAGE_SIZE then Some(dst[a := page]) else None
  }

  lemma PageLoads(dst: map<nat, Page>, a: nat, page: Page)
    ensures Loaded(dst, Full(a, page)) == Some(dst[a := page]) && Loaded(dst, Zero(a)) == Some(dst[a := ZeroPage()])
  {
  }

  /** A delta against the page the destination has decodes to the new page. */
  lemma DeltaLoads(dst: map<nat, Page>, a: nat, page: Page)
    requires a in dst
    ensures Loaded(dst, Delta(a, Xbzrle.Encoded(dst[a], page, 0))) == Some(dst[a := page])
  {
    Xbzrle.RoundTrip(dst[a], page);
  }

  class RamMigration {
    const blocks: seq<Block>
    const useXbzrle: bool
    const slots: nat
    /** What the guest stores in each of its turns. */
    const stores: nat -> seq<Store>
    /** Guest memory and the log of the pages the guest wrote. */
    var src: map<nat, Page>
    var log: set<nat>
    /** Memory at the destination. */
    var dst: map<nat, Page>
    var bitmap: set<nat>
    var dirtyPages: int
    /** The cursor: block index (-1: none yet) and page offset in the block. */
    var lastSeen: int
    var lastOffset: nat
    var bulk: bool
    var cache: map<nat, Item>
    /** For every call of ram_save_block under the guard the page under the cursor. */
    ghost var losses: seq<nat>
    /** Whether the guest runs while the sender works, and how many turns it has had. */
    var racing: bool
    var tick: nat

    ghost function Mem(): Guest
      reads this`src, this`log, this`tick
    {
      Guest(stores, src, log, tick)
    }

    /** The pages the guest has written since turn t. */
    function Meanwhile(t: nat): set<nat>
      reads this`src, this`tick
    {
      WrittenIn(stores, src.Keys, t, tick)
    }

    /** Fit to send the pages marked in `pending`. */
    ghost predicate Ready(lastStage: bool, pending: set<nat>)
      reads this`src, this`dst, this`dirtyPages, this`bitmap, this`racing, this`cache
    {
      && BlocksOk(blocks) && slots > 0 && Mapped(blocks, src, dst)
      && dirtyPages == |bitmap|
      && (lastStage ==> !racing)
      && CacheOk(cache, slots, dst, lastStage, pending)
      && (!useXbzrle ==> cache == map[])
    }

    ghost predicate Valid(lastStage: bool)
      reads this
    {
      && Ready(lastStage, bitmap) && (bulk ==> cache == map[])
      && -1 <= lastSeen < |blocks|
      && (lastSeen >= 0 ==> lastOffset <= blocks[lastSeen].pages)
      && (lastSeen < 0 ==> lastOffset == 0)
      && (!bulk ==> lastSeen >= 0)
      && (bulk ==> BulkAhead(blocks, bitmap, lastSeen, lastOffset)
                   && (lastSeen >= 0 ==> lastOffset < blocks[lastSeen].pages))
    }

    /** ram_save_setup, up to the first bitmap sync. */
    constructor (blocks: seq<Block>, src: map<nat, Page>, dst: map<nat, Page>, ramPages: nat, useXbzrle: bool,
                 slots: nat, stores: nat -> seq<Store>)
      requires BlocksOk(blocks) && slots > 0
      requires forall q: nat :: IsPage(blocks, q) ==> q in src && q in dst && q < ramPages
      ensures Valid(false) && bulk && !racing && lastSeen == -1 && log == {} && losses == []
      ensures this.blocks == blocks && this.src == src && this.dst == dst && this.useXbzrle == useXbzrle
      ensures this.slots == slots && this.stores == stores && tick == 0
      ensures bitmap == FirstPages(ramPages)
      ensures Safe(blocks, src, dst, bitmap + log)
    {
      this.blocks, this.src, this.dst, this.useXbzrle, this.slots := blocks, src, dst, useXbzrle, slots;
      this.stores, tick := stores, 0;
      log, bitmap, dirtyPages := {}, FirstPages(ramPages), ramPages;
      lastSeen, lastOffset, bulk, cache, racing, losses := -1, 0, true, map[], false, [];
      new;
      forall i, q: nat | 0 <= i < |blocks| && InBlock(blocks[i], q) ensures q in bitmap {
        assert IsPage(blocks, q);
      }
    }

    /** A guest store: memory changes and the page is logged. */
    method GuestWrite(q: nat, page: Page)
      requires q in src
      modifies this`src, this`log
      ensures src == old(src)[q := page] && log == old(log) + {q}
    {
      src := src[q := page];
      log := log + {q};
    }

    /** The guest has a turn, if it is not stopped. */
    method GuestRuns()
      modifies this`src, this`log, this`tick
      ensures Drifted(old(Mem()), Mem(), racing) && tick == old(tick) + if racing then 1 else 0
    {
      hide Drifted, Written;
      NotRun(Mem(), racing);
      NothingWritten(old(src).Keys);
      if racing {
        var writes := stores(tick);
        var i := 0;
        while i < |writes|
          invariant 0 <= i <= |writes| && src == Stored(old(src), writes[..i])
          invariant log == old(log) + Written(old(src).Keys, writes[..i]) && tick == old(tick)
        {
          assert writes[..i + 1][..i] == writes[..i];
          WrittenNext(old(src).Keys, writes, i);
          if writes[i].addr in src {
            GuestWrite(writes[i].addr, writes[i].data);
          }
          i := i + 1;
        }
        assert writes[..i] == writes;
        tick := tick + 1;
        OneTurn(old(Mem()), Mem());
      }
    }

    /** Copy a guest page; a page the guest writes meanwhile can come out as anything. */
    method Sample(q: nat) returns (page: Page)
      requires q in src
      modifies this`src, this`log, this`tick
      ensures Drifted(old(Mem()), Mem(), racing) && tick == old(tick) + if racing then 1 else 0
      ensures q in src && (page == src[q] || q in Meanwhile(old(tick))) && (!racing ==> page == old(src)[q])
    {
      var t := tick;
      GuestRuns();
      page := src[q];
      if q in Meanwhile(t) {
        page :| true;
      }
    }

    predicate IsCached(q: nat)
      requires slots > 0
      reads this
    {
      CachePos(slots, q) in cache && cache[CachePos(slots, q)].addr == q
    }

    /** cache_insert, when its allocation succeeds: the slot of the page takes the page. */
    method CacheInsert(q: nat, page: Page)
      requires slots > 0
      modifies this`cache
      ensures cache == old(cache)[CachePos(slots, q) := Item(q, page)]
    {
      cache := cache[CachePos(slots, q) := Item(q, page)];
    }

    /** One message on the stream, applied by the destination. */
    method Send(m: Message)
      requires Loaded(dst, m).Some?
      modifies this`dst
      ensures dst == old(Loaded(dst, m)).value
    {
      dst := Loaded(dst, m).value;
    }

    /** The page is not cached: it is sent in full, and cached before the last stage. */
    method SendMiss(q: nat, lastStage: bool) returns (page: Page)
      requires slots > 0 && q in src && q in dst
      modifies this`src, this`log, this`tick, this`dst, this`cache
      ensures Drifted(old(Mem()), Mem(), racing) && q in src
      ensures dst == old(dst)[q := page] && (page == src[q] || q in Meanwhile(old(tick)))
      ensures cache == if lastStage then old(cache) else old(cache)[CachePos(slots, q) := Item(q, page)]
    {
      hide CachePos, Loaded, Drifted, WrittenIn;
      page := Sample(q);
      if !lastStage {
        CacheInsert(q, page);
      }
      PageLoads(dst, q, page);
      Send(Full(q, page));
    }

    /** The delta is too long: the cached page is renewed; before the last stage it is what is sent, in the last stage
        the guest's page is. */
    method SendOverflow(q: nat, lastStage: bool) returns (page: Page)
      requires slots > 0 && q in src && q in dst
      modifies this`src, this`log, this`tick, this`dst, this`cache
      ensures Drifted(old(Mem()), Mem(), racing) && q in src
      ensures dst == old(dst)[q := page] && (page == src[q] || q in Meanwhile(old(tick)))
      ensures CachePos(slots, q) in cache && cache[CachePos(slots, q)].addr == q
      ensures cache == old(cache)[CachePos(slots, q) := cache[CachePos(slots, q)]]
      ensures !lastStage ==> cache[CachePos(slots, q)].data == page
    {
      hide CachePos, Loaded, Drifted, WrittenIn;
      page := Sample(q);
      CacheInsert(q, page);
      if lastStage {
        ghost var g1 := Mem();
        page := Sample(q);
        DriftedMore(old(Mem()), g1, Mem(), racing);
      }
      PageLoads(dst, q, page);
      Send(Full(q, page));
    }

    /** What save_xbzrle_page and the code after it send for a page that is not all zero,
        when XBZRLE is in use.  `page` is what the destination then has. */
    method SendXbzrle(q: nat, lastStage: bool) returns (sent: bool, ghost page: Page)
      requires slots > 0 && q in src && q in dst
      requires IsCached(q) ==> dst[q] == cache[CachePos(slots, q)].data
      modifies this`src, this`log, this`tick, this`dst, this`cache
      ensures Drifted(old(Mem()), Mem(), racing) && q in src
      ensures dst == old(dst)[q := page] && (page == src[q] || q in Meanwhile(old(tick)))
      ensures cache == old(cache)
              || (IsCached(q) && cache == old(cache)[CachePos(slots, q) := cache[CachePos(slots, q)]])
      ensures !lastStage ==> IsCached(q) && cache[CachePos(slots, q)].data == page
      ensures !sent ==> old(IsCached(q)) && dst == old(dst) && cache == old(cache)
      ensures !racing && old(IsCached(q)) && old(cache)[CachePos(slots, q)].data == old(src)[q] ==> !sent
    {
      hide CachePos, Loaded, Xbzrle.Encoded, Xbzrle.Decoded, Drifted, WrittenIn;
      if !IsCached(q) {
        sent := true;
        page := SendMiss(q, lastStage);
        return;
      }
      var current := Sample(q);
      var encoded := Xbzrle.EncodeBuffer(cache[CachePos(slots, q)].data, current, PAGE_SIZE);
      Xbzrle.RoundTrip(dst[q], current);
      if encoded == Some([]) {
        sent, page := false, current;
        assert dst == dst[q := current];
      } else if encoded.None? {
        ghost var g1 := Mem();
        sent := true;
        page := SendOverflow(q, lastStage);
        DriftedMore(old(Mem()), g1, Mem(), racing);
      } else {
        sent, page := true, current;
        if !lastStage {
          CacheInsert(q, current);
        }
        DeltaLoads(dst, q, current);
        Send(Delta(q, encoded.value));
      }
    }

    /** The body of ram_save_block for one dirty page. */
    method SendPage(q: nat, lastStage: bool) returns (sent: bool, ghost page: Page)
      requires slots > 0 && q in src && q in dst && q !in bitmap
      requires lastStage ==> !racing
      requires CacheOk(cache, slots, dst, lastStage, bitmap + {q})
      requires !useXbzrle || bulk ==> cache == map[]
      modifies this`src, this`log, this`tick, this`dst, this`cache
      ensures Drifted(old(Mem()), Mem(), racing)
      ensures q in src && dst == old(dst)[q := page] && (page == src[q] || q in Meanwhile(old(tick)))
      ensures CacheOk(cache, slots, dst, lastStage, bitmap)
      ensures !useXbzrle || bulk ==> cache == map[]
      ensures !sent ==> old(cache) != map[]
    {
      hide CachePos, Loaded, Drifted, CacheOk, WrittenIn;
      ghost var cache1, dst1 := cache, dst;
      var first := Sample(q);
      ghost var g1 := Mem();
      PageLoads(dst, q, first);
      if first == ZeroPage() {
        sent, page := true, first;
        Send(Zero(q));
        if !bulk && useXbzrle {
          CacheInsert(q, ZeroPage());
          CacheSent(cache1, slots, dst1, lastStage, bitmap, q, first, cache);
        } else {
          CacheNone(slots, dst, lastStage, bitmap);
        }
      } else if !bulk && useXbzrle {
        if IsCached(q) {
          CachedSame(cache, slots, dst, lastStage, bitmap, q);
        }
        sent, page := SendXbzrle(q, lastStage);
        CacheSent(cache1, slots, dst1, lastStage, bitmap, q, page, cache);
        DriftedMore(old(Mem()), g1, Mem(), racing);
      } else {
        sent := true;
        var data := Sample(q);
        page := data;
        DriftedMore(old(Mem()), g1, Mem(), racing);
        PageLoads(dst, q, data);
        Send(Full(q, data));
        CacheNone(slots, dst, lastStage, bitmap);
      }
    }

    /** find_next_bit: the first set bit from nr on, or size.  Word by word; a word is the set of its bits. */
    method FindNextBit(size: nat, nr: nat) returns (next: nat)
      ensures nr <= size ==> nr <= next <= size
      ensures nr > size ==> next == size
      ensures CleanRange(bitmap, nr, next)
      ensures next < size ==> next in bitmap
    {
      if nr >= size {
        return size;
      }
      var p := nr / BITS_PER_LONG;
      var result, left := p * BITS_PER_LONG, size - p * BITS_PER_LONG;
      if nr % BITS_PER_LONG != 0 {
        var tmp := From(Word(bitmap, p), nr);
        WordFrom(bitmap, p, nr);
        if left < BITS_PER_LONG {
          next := FoundFirst(tmp, result, left, nr);
          return;
        }
        if tmp != {} {
          next := Lowest(tmp, result, nr, result + BITS_PER_LONG);
          return;
        }
        p, result, left := p + 1, result + BITS_PER_LONG, left - BITS_PER_LONG;
      }
      p, result, left := SkipFour(p, left, nr);
      while left >= BITS_PER_LONG
        invariant nr <= result == p * BITS_PER_LONG && 0 <= left == size - result && CleanRange(bitmap, nr, result)
      {
        var tmp := Word(bitmap, p);
        WordFrom(bitmap, p, result);
        if tmp != {} {
          next := Lowest(tmp, result, nr, result + BITS_PER_LONG);
          return;
        }
        p, result, left := p + 1, result + BITS_PER_LONG, left - BITS_PER_LONG;
      }
      if left == 0 {
        return result;
      }
      WordFrom(bitmap, p, result);
      next := FoundFirst(Word(bitmap, p), result, left, nr);
    }

    /** The loop over four words at a time: it stops early at the first four that have a bit set. */
    method SkipFour(p0: nat, left0: nat, ghost nr: nat) returns (p: nat, result: nat, left: nat)
      requires nr <= p0 * BITS_PER_LONG && CleanRange(bitmap, nr, p0 * BITS_PER_LONG)
      ensures nr <= result == p * BITS_PER_LONG && result + left == p0 * BITS_PER_LONG + left0
      ensures CleanRange(bitmap, nr, result)
    {
      p, result, left := p0, p0 * BITS_PER_LONG, left0;
      while left >= 4 * BITS_PER_LONG
        invariant nr <= result == p * BITS_PER_LONG && result + left == p0 * BITS_PER_LONG + left0
        invariant CleanRange(bitmap, nr, result)
      {
        if Word(bitmap, p) + Word(bitmap, p + 1) + Word(bitmap, p + 2) + Word(bitmap, p + 3) != {} {
          break;
        }
        FourClean(bitmap, p, nr);
        p, result, left := p + 4, result + 4 * BITS_PER_LONG, left - 4 * BITS_PER_LONG;
      }
    }

    /** found_first: the bits from result + left on are not counted. */
    method FoundFirst(tmp: set<nat>, result: nat, left: nat, ghost nr: nat) returns (next: nat)
      requires left < BITS_PER_LONG && nr < result + left && CleanRange(bitmap, nr, result)
      requires forall q: nat :: q in tmp <==> Max(result, nr) <= q < result + BITS_PER_LONG && q in bitmap
      ensures nr <= next <= result + left && CleanRange(bitmap, nr, next)
      ensures next < result + left ==> next in bitmap
    {
      var some := set q | q in tmp && q < result + left;
      if some == {} {
        assert forall q: nat :: q in tmp ==> q in some || q >= result + left;
        return result + left;
      }
      next := Lowest(some, result, nr, result + left);
    }

    /** found_middle: ctzl. */
    method Lowest(tmp: set<nat>, result: nat, ghost nr: nat, ghost end: nat) returns (next: nat)
      requires tmp != {} && CleanRange(bitmap, nr, result)
      requires forall q: nat :: q in tmp <==> Max(result, nr) <= q < end && q in bitmap
      ensures next in tmp && nr <= next && CleanRange(bitmap, nr, next)
    {
      var some :| some in tmp;
      next := result;
      while next !in tmp
        invariant result <= next <= some && CleanRange(tmp, result, next)
        decreases some - next
      {
        next := next + 1;
      }
    }

    /** migration_bitmap_find_and_reset_dirty, on offsets in pages. */
    method FindAndReset(ghost lastStage: bool, i: nat, offset: nat) returns (next: nat)
      requires Ready(lastStage, bitmap) && i < |blocks| && offset <= blocks[i].pages
      requires bulk && 0 < offset ==>
                 offset < blocks[i].pages && (offset + 1 < blocks[i].pages ==> blocks[i].base + offset + 1 in bitmap)
      modifies this`bitmap, this`dirtyPages
      ensures Ready(lastStage, old(bitmap)) && Probed(blocks, old(bitmap), bulk, i, offset, next)
      ensures bitmap == if next < blocks[i].pages then old(bitmap) - {blocks[i].base + next} else old(bitmap)
    {
      hide CacheOk, BlocksOk, Mapped, CleanRange;
      var base := blocks[i].base;
      var nr := base + offset;
      var size := base + blocks[i].pages;
      var page: nat;
      if bulk && nr > base {
        page := nr + 1;
      } else {
        page := FindNextBit(size, nr);
      }
      if page < size {
        bitmap := bitmap - {page};
        dirtyPages := dirtyPages - 1;
      }
      next := page - base;
    }

    lemma ReadyLess(lastStage: bool, pending: set<nat>)
      requires Ready(lastStage, pending) && bitmap <= pending
      ensures Ready(lastStage, bitmap)
    {
    }

    /** Send the page whose bit was just cleared. */
    method SendFound(i: nat, offset: nat, lastStage: bool, ghost bitmap1: set<nat>) returns (sent: bool)
      requires Ready(lastStage, bitmap1) && (bulk ==> cache == map[])
      requires i < |blocks| && offset < blocks[i].pages && blocks[i].base + offset in bitmap1
      requires bitmap == bitmap1 - {blocks[i].base + offset}
      modifies this`src, this`log, this`tick, this`dst, this`cache
      ensures Ready(lastStage, bitmap) && (bulk ==> cache == map[])
      ensures Drifted(old(Mem()), Mem(), racing) && Sent(bitmap1, old(dst), bitmap, dst, src, log)
      ensures !sent ==> old(cache) != map[]
    {
      hide Sent, Drifted, CacheOk, BlocksOk, Mapped, WrittenIn;
      ghost var page;
      MappedAt(blocks, src, dst, i, offset);
      assert bitmap + {blocks[i].base + offset} == bitmap1;
      sent, page := SendPage(blocks[i].base + offset, lastStage);
      MappedKept(blocks, old(Mem()), old(dst), Mem(), dst, racing);
      DriftLogged(old(Mem()), Mem(), racing);
      SentOne(bitmap1, old(dst), blocks[i].base + offset, page, src, log);
    }

    /** The page under the cursor. */
    function Cursor(): nat
      requires 0 <= lastSeen < |blocks|
      reads this
    {
      blocks[lastSeen].base + lastOffset
    }

    /** One turn of the loop of ram_save_block, at offset `offset` of block i. */
    method ScanTurn(lastStage: bool, ghost bulk0: bool, i: nat, offset: nat, wrapped: bool)
      returns (turn: Turn, i': nat, offset': nat, wrapped': bool)
      requires Ready(lastStage, bitmap) && At(blocks, bitmap, bulk0, bulk, lastSeen, lastOffset, i, offset, wrapped)
      requires bulk0 || bulk ==> cache == map[]
      modifies this`src, this`log, this`tick, this`dst, this`cache, this`bitmap, this`dirtyPages, this`bulk
      ensures Ready(lastStage, bitmap) && (bulk ==> cache == map[]) && i' < |blocks| && offset' <= blocks[i'].pages
      ensures bitmap <= old(bitmap)
      ensures Drifted(old(Mem()), Mem(), racing)
      ensures turn.Nothing? || Sent(old(bitmap), old(dst), bitmap, dst, src, log)
      ensures turn.Again? ==> At(blocks, bitmap, bulk0, bulk, lastSeen, lastOffset, i', offset', wrapped')
      ensures turn.Again? ==> if i' == i && wrapped' == wrapped then bitmap < old(bitmap)
              else (wrapped' && !wrapped) || (wrapped' == wrapped && i' > i)
      ensures turn.Again? && bulk0 ==> bitmap == old(bitmap) && dst == old(dst) && cache == map[]
      ensures turn.Found? ==> FoundOk(blocks, old(bitmap), bulk0, bulk, lastSeen, lastOffset, i', offset')
                              && bitmap == old(bitmap) - {blocks[i'].base + offset'}
      ensures turn.Nothing? ==> NothingOk(blocks, old(bitmap), bulk0, lastSeen, lastOffset, bitmap)
      ensures turn.Nothing? ==> dst == old(dst) && Mem() == old(Mem()) && !bulk
    {
      hide Ready, BulkAhead, At, Probed, Sent, Drifted, CacheOk, BlocksOk, InOrder, LossGuard, Mapped, NoneIn, FoundOk,
           NothingOk;
      i', wrapped' := i, wrapped;
      NothingSent(bitmap, dst, Mem(), racing);
      AtReady(blocks, bitmap, bulk0, bulk, lastSeen, lastOffset, i, offset, wrapped);
      offset' := FindAndReset(lastStage, i, offset);
      ProbedBounds(blocks, old(bitmap), bulk, i, offset, offset');
      if wrapped && i == lastSeen && offset' >= lastOffset {
        turn := Nothing;
        AtEnd(blocks, old(bitmap), bulk0, bulk, lastSeen, lastOffset, offset, offset');
        ReadyLess(lastStage, old(bitmap));
      } else if offset' >= blocks[i].pages {
        turn := Again;
        AtNext(blocks, bitmap, bulk0, bulk, lastSeen, lastOffset, i, offset, wrapped);
        offset', i' := 0, i + 1;
        if i' == |blocks| {
          i', wrapped' := 0, true;
          bulk := false;
        }
      } else {
        AtFound(blocks, old(bitmap), bulk0, bulk, lastSeen, lastOffset, i, offset, wrapped, offset');
        var sent := SendFound(i, offset', lastStage, old(bitmap));
        turn := if sent then Found else Again;
      }
    }

    lemma ReadyFacts(lastStage: bool)
      requires Ready(lastStage, bitmap)
      ensures BlocksOk(blocks)
    {
    }

    /** The loop of ram_save_block. */
    method Scan(lastStage: bool) returns (sent: bool, i: nat, offset: nat)
      requires Valid(lastStage)
      modifies this`src, this`log, this`tick, this`dst, this`cache, this`bitmap, this`dirtyPages, this`bulk
      ensures Ready(lastStage, bitmap) && (bulk ==> cache == map[]) && Drifted(old(Mem()), Mem(), racing)
      ensures !LossGuard(blocks, old(bulk), lastSeen, lastOffset, old(bitmap)) ==>
                Sent(old(bitmap), old(dst), bitmap, dst, src, log)
      ensures LossGuard(blocks, old(bulk), lastSeen, lastOffset, old(bitmap)) ==> dst == old(dst)
      ensures Outcome(blocks, old(bitmap), old(bulk), lastSeen, lastOffset, sent, bitmap, bulk, i, offset)
    {
      hide Ready, At, Sent, Drifted, CacheOk, BlocksOk, LossGuard, Mapped, FoundOk, NothingOk, BulkAhead, InOrder,
           Outcome;
      i, offset := if lastSeen < 0 then 0 else lastSeen, lastOffset;
      var wrapped := false;
      var turn;
      ReadyFacts(lastStage);
      AtStart(blocks, bitmap, bulk, lastSeen, lastOffset);
      NothingSent(bitmap, dst, Mem(), racing);
      while true
        invariant Ready(lastStage, bitmap) && (bulk ==> cache == map[]) && i < |blocks|
        invariant At(blocks, bitmap, old(bulk), bulk, lastSeen, lastOffset, i, offset, wrapped)
        invariant Drifted(old(Mem()), Mem(), racing) && Sent(old(bitmap), old(dst), bitmap, dst, src, log)
        invariant bitmap <= old(bitmap) && (old(bulk) ==> bitmap == old(bitmap) && dst == old(dst) && cache == map[])
        decreases !wrapped, |blocks| - i, bitmap
      {
        ghost var bitmap1, dst1, g1 := bitmap, dst, Mem();
        turn, i, offset, wrapped := ScanTurn(lastStage, old(bulk), i, offset, wrapped);
        DriftedMore(old(Mem()), g1, Mem(), racing);
        if turn.Nothing? {
          sent := false;
          NothingOutcome(blocks, old(bitmap), bitmap1, old(bulk), lastSeen, lastOffset, bitmap, i, offset);
          break;
        }
        SentMore(old(bitmap), old(dst), bitmap1, dst1, g1, bitmap, dst, Mem(), racing);
        if turn.Found? {
          sent := true;
          FoundOutcome(blocks, old(bitmap), bitmap1, old(bulk), bulk, lastSeen, lastOffset, i, offset);
          break;
        }
      }
    }

    /** ram_save_block: send one page, if there is one to send.  A bit goes only with the page sent (or found
        unmodified), unless the guard holds: then the bit of the page under the cursor goes and nothing is sent. */
    method RamSaveBlock(lastStage: bool) returns (sent: bool)
      requires Valid(lastStage)
      modifies this`src, this`log, this`tick, this`dst, this`cache, this`bitmap, this`dirtyPages, this`lastSeen,
               this`lastOffset, this`bulk, this`losses
      ensures Valid(lastStage)
      ensures Drifted(old(Mem()), Mem(), racing)
      ensures !old(LossGuard(blocks, bulk, lastSeen, lastOffset, bitmap)) ==>
                Sent(old(bitmap), old(dst), bitmap, dst, src, log)
      ensures old(LossGuard(blocks, bulk, lastSeen, lastOffset, bitmap)) ==> dst == old(dst)
      ensures losses == old(losses + Loses())
      ensures Outcome(blocks, old(bitmap), old(bulk), old(lastSeen), old(lastOffset), sent, bitmap, bulk, lastSeen,
                      lastOffset)
    {
      hide Ready, Sent, Drifted, LossGuard, BulkAhead, InOrder;
      losses := losses + Loses();
      var i, offset;
      sent, i, offset := Scan(lastStage);
      lastSeen, lastOffset := i, offset;
    }

    /** The page that a call of ram_save_block loses, if any. */
    ghost function Loses(): seq<nat>
      reads this
    {
      if LossGuard(blocks, bulk, lastSeen, lastOffset, bitmap) then [Cursor()] else []
    }

    /** One word of the log goes over into the bitmap. */
    method SyncWord(k: nat)
      requires dirtyPages == |bitmap|
      modifies this`log, this`bitmap, this`dirtyPages
      ensures bitmap == old(bitmap) + Word(old(log), k) && log == old(log) - Word(old(log), k)
      ensures dirtyPages == |bitmap|
    {
      var word := Word(log, k);
      if word != {} {
        var newDirty := word - bitmap;
        assert bitmap + word == bitmap + newDirty;
        bitmap := bitmap + word;
        dirtyPages := dirtyPages + |newDirty|;
        log := log - word;
      }
    }

    /** migration_bitmap_sync_range for one block: by words, the last of which may go on behind the block, if the block
        begins at a word, else by pages. */
    method SyncRange(b: Block)
      requires dirtyPages == |bitmap|
      modifies this`log, this`bitmap, this`dirtyPages
      ensures Moved(old(log), old(bitmap), log, bitmap) && dirtyPages == |bitmap|
      ensures CleanRange(log, b.base, b.base + b.pages)
      ensures CleanRange(log, b.base, SyncEnd(b)) && Spared(old(log), log, b.base, SyncEnd(b))
    {
      hide Moved, CleanRange, Spared;
      var word := b.base / BITS_PER_LONG;
      if word * BITS_PER_LONG == b.base {
        SyncWords(b.base, word, (b.pages + BITS_PER_LONG - 1) / BITS_PER_LONG);
        CleanFewer(log, b.base, SyncEnd(b), b.base + b.pages);
      } else {
        SyncPages(b);
      }
    }

    method SyncWords(ghost base: nat, word: nat, nr: nat)
      requires dirtyPages == |bitmap| && word * BITS_PER_LONG == base
      modifies this`log, this`bitmap, this`dirtyPages
      ensures Moved(old(log), old(bitmap), log, bitmap) && dirtyPages == |bitmap|
      ensures CleanRange(log, base, base + nr * BITS_PER_LONG)
      ensures Spared(old(log), log, base, base + nr * BITS_PER_LONG)
    {
      hide Moved, CleanRange, Word;
      MovedNone(log, bitmap);
      CleanNone(log, base);
      var k := 0;
      while k < nr
        invariant 0 <= k <= nr
        invariant Moved(old(log), old(bitmap), log, bitmap) && dirtyPages == |bitmap|
        invariant CleanRange(log, base, base + k * BITS_PER_LONG)
        invariant Spared(old(log), log, base, base + k * BITS_PER_LONG)
      {
        SyncNext(old(log), old(bitmap), base, word, k);
        k := k + 1;
      }
    }

    method SyncNext(ghost log0: set<nat>, ghost bitmap0: set<nat>, ghost base: nat, word: nat, k: nat)
      requires dirtyPages == |bitmap| && word * BITS_PER_LONG == base
      requires Moved(log0, bitmap0, log, bitmap) && CleanRange(log, base, base + k * BITS_PER_LONG)
      requires Spared(log0, log, base, base + k * BITS_PER_LONG)
      modifies this`log, this`bitmap, this`dirtyPages
      ensures dirtyPages == |bitmap|
      ensures Moved(log0, bitmap0, log, bitmap) && CleanRange(log, base, base + (k + 1) * BITS_PER_LONG)
      ensures Spared(log0, log, base, base + (k + 1) * BITS_PER_LONG)
    {
      hide Moved, CleanRange, Word, Spared;
      WordSpared(log0, log, base, word, k);
      MovedMore(log0, bitmap0, log, bitmap, Word(log, word + k));
      WordCleared(log, base, word, k);
      SyncWord(word + k);
    }

    method SyncPages(b: Block)
      requires dirtyPages == |bitmap|
      modifies this`log, this`bitmap, this`dirtyPages
      ensures Moved(old(log), old(bitmap), log, bitmap) && dirtyPages == |bitmap|
      ensures CleanRange(log, b.base, b.base + b.pages) && Spared(old(log), log, b.base, b.base + b.pages)
    {
      hide Moved, CleanRange, Spared;
      MovedNone(log, bitmap);
      NoneSpared(log, b.base);
      var offset := 0;
      while offset < b.pages
        invariant 0 <= offset <= b.pages
        invariant Moved(old(log), old(bitmap), log, bitmap) && dirtyPages == |bitmap|
        invariant CleanRange(log, b.base, b.base + offset) && Spared(old(log), log, b.base, b.base + offset)
      {
        SyncPage(old(log), old(bitmap), b.base, b.base + offset);
        offset := offset + 1;
      }
    }

    method SyncPage(ghost log0: set<nat>, ghost bitmap0: set<nat>, ghost base: nat, q: nat)
      requires dirtyPages == |bitmap| && base <= q
      requires Moved(log0, bitmap0, log, bitmap) && CleanRange(log, base, q) && Spared(log0, log, base, q)
      modifies this`log, this`bitmap, this`dirtyPages
      ensures dirtyPages == |bitmap|
      ensures Moved(log0, bitmap0, log, bitmap) && CleanRange(log, base, q + 1) && Spared(log0, log, base, q + 1)
    {
      hide Moved, CleanRange, Spared;
      PageSpared(log0, log, base, q);
      if q in log {
        MovedMore(log0, bitmap0, log, bitmap, {q});
        log := log - {q};
        SetDirty(q);
      }
    }

    /** migration_bitmap_set_dirty. */
    method SetDirty(q: nat)
      requires dirtyPages == |bitmap|
      modifies this`bitmap, this`dirtyPages
      ensures bitmap == old(bitmap) + {q} && dirtyPages == |bitmap|
    {
      if q !in bitmap {
        bitmap := bitmap + {q};
        dirtyPages := dirtyPages + 1;
      } else {
        assert bitmap == bitmap + {q};
      }
    }

    /** migration_bitmap_sync: afterwards the log has no page of any block. */
    method Sync()
      requires Valid(false)
      modifies this`log, this`bitmap, this`dirtyPages
      ensures Valid(false) && Moved(old(log), old(bitmap), log, bitmap) && NoneIn(blocks, log)
    {
      hide Moved, CleanRange, NoneIn, BulkAhead, CacheOk, Mapped, BlocksOk;
      MovedNone(log, bitmap);
      NoBlocks(log);
      assert blocks[..0] == [];
      var i := 0;
      while i < |blocks|
        invariant 0 <= i <= |blocks| && dirtyPages == |bitmap|
        invariant Moved(old(log), old(bitmap), log, bitmap) && old(bitmap) <= bitmap && NoneIn(blocks[..i], log)
      {
        ghost var log1, bitmap1 := log, bitmap;
        SyncRange(blocks[i]);
        MovedTrans(old(log), old(bitmap), log1, bitmap1, log, bitmap);
        CleanBlocks(blocks, i, log1, log);
        i := i + 1;
      }
      assert blocks[..i] == blocks;
      if bulk {
        BulkMore(blocks, old(bitmap), lastSeen, lastOffset, bitmap);
      }
      CacheAny(cache, slots, dst, old(bitmap), bitmap);
    }

    /** ram_save_complete, with the guest stopped: all of memory is then on the destination, unless the guard holds of
        what is still to be sent; then the call sends nothing at all.  So it succeeds just when the guard does not hold
        or the destination happens to have the page under the cursor. */
    method RamSaveComplete(ghost lost: set<nat>)
      requires Valid(false) && !racing
      modifies this
      ensures src == old(src) && tick == old(tick)
      ensures old(Safe(blocks, src, dst, bitmap + log + lost) && !Guarded(log)) ==> Safe(blocks, src, dst, lost)
      ensures old(Guarded(log)) ==> dst == old(dst)
      ensures losses == if old(Guarded(log)) then old(losses) + [old(Cursor())] else old(losses)
      ensures old(Safe(blocks, src, dst, bitmap + log) && Guarded(log)) ==>
                && Safe(blocks, src, dst, {old(Cursor())}) && old(Cursor()) in src && old(Cursor()) in dst
                && (Same(blocks, src, dst) <==> dst[old(Cursor())] == src[old(Cursor())])
    {
      hide Safe, Same, BulkAhead, BlocksOk, Mapped, LossGuard, Moved, CacheOk;
      ghost var guarded := Guarded(log);
      if guarded {
        GuardLast(blocks, bulk, lastSeen, lastOffset, bitmap + log);
        if Safe(blocks, src, dst, bitmap + log) {
          GuardSame(blocks, bulk, lastSeen, lastOffset, src, dst, bitmap + log);
        }
      }
      Sync();
      MovedAll(old(log), old(bitmap), log, bitmap, lost);
      GuardMoved(blocks, bulk, lastSeen, lastOffset, old(log), old(bitmap), log, bitmap);
      LastStage(cache, slots, dst, bitmap);
      SaveRest(lost);
    }

    /** The loop of ram_save_complete. */
    method SaveRest(ghost lost: set<nat>)
      requires Valid(true) && !racing && NoneIn(blocks, log)
      modifies this
      ensures src == old(src) && tick == old(tick) && losses == old(losses + Loses())
      ensures old(Loses()) != [] ==> dst == old(dst)
      ensures old(Safe(blocks, src, dst, bitmap + log + lost) && Loses() == []) ==> Safe(blocks, src, dst, lost)
    {
      hide Safe, BulkAhead, Sent, BlocksOk, InOrder, Mapped, LossGuard, CacheOk;
      ghost var safe, guarded := Safe(blocks, src, dst, bitmap + log + lost), Loses() != [];
      var more := true;
      while more
        invariant Valid(true) && !racing && src == old(src) && tick == old(tick) && NoneIn(blocks, log)
        invariant guarded ==> dst == old(dst)
        invariant !guarded && safe ==> Safe(blocks, src, dst, bitmap + log + lost)
        invariant more ==> Loses() == old(Loses()) && losses == old(losses)
        invariant !more ==> NoneIn(blocks, bitmap) && losses == old(losses + Loses())
        decreases more, bitmap
      {
        ghost var g1, dst1, bitmap1, bulk1, seen1, offset1 := Mem(), dst, bitmap, bulk, lastSeen, lastOffset;
        more := RamSaveBlock(true);
        if !guarded && safe {
          SentSafe(blocks, g1, dst1, bitmap1, Mem(), dst, bitmap, racing, lost);
        }
        if more {
          SentUnguards(blocks, bitmap1, bulk1, seen1, offset1, bitmap, bulk, lastSeen, lastOffset);
        }
      }
      if !guarded && safe {
        AllSent(blocks, src, dst, log, bitmap, lost);
      }
    }

    /** The guard holds, counting the pages in `more` as marked. */
    ghost predicate Guarded(more: set<nat>)
      reads this`bulk, this`lastSeen, this`lastOffset, this`bitmap
    {
      LossGuard(blocks, bulk, lastSeen, lastOffset, bitmap + more)
    }

    /** In a run that began with the guest `g`, the losses `base`, in the bulk stage or not, and has lost `lost` so far:
        memory is what the guest has stored, everything else is safe, and the guard never holds again. */
    ghost predicate Running(g: Guest, base: seq<nat>, bulk0: bool, lost: Option<nat>)
      reads this
    {
      && Ran(g, Mem())
      && Valid(false) && Safe(blocks, src, dst, bitmap + log + Only(lost)) && losses == base + Listed(lost)
      && (lost.Some? ==> !bulk && LastPage(blocks, lost.value))
      && (bulk || lost.Some? ==> bulk0)
    }

    method RunGuest(ghost g: Guest, ghost base: seq<nat>, ghost bulk0: bool, ghost lost: Option<nat>)
      requires Running(g, base, bulk0, lost)
      modifies this`src, this`log, this`tick
      ensures Running(g, base, bulk0, lost) && tick == old(tick) + if racing then 1 else 0
    {
      hide Safe, CacheOk, BulkAhead, BlocksOk, Ran;
      GuestRuns();
      DriftRan(g, old(Mem()), Mem(), racing);
      DriftSafe(blocks, old(Mem()), dst, bitmap, Mem(), racing, Only(lost));
    }

    method RunSync(ghost g: Guest, ghost base: seq<nat>, ghost bulk0: bool, ghost lost: Option<nat>)
      requires Running(g, base, bulk0, lost)
      modifies this`log, this`bitmap, this`dirtyPages
      ensures Running(g, base, bulk0, lost) && NoneIn(blocks, log)
    {
      hide Valid, Safe, Moved, NoneIn;
      Sync();
      assert Mem().src == old(Mem()).src;
      MovedAll(old(log), old(bitmap), log, bitmap, Only(lost));
    }

    /** ram_save_block in a run: under the guard, which can happen once, the page under the cursor is lost. */
    method RunSave(ghost g: Guest, ghost base: seq<nat>, ghost bulk0: bool, ghost lost: Option<nat>)
      returns (ghost lost': Option<nat>)
      requires Running(g, base, bulk0, lost)
      modifies this`src, this`log, this`tick, this`dst, this`cache, this`bitmap, this`dirtyPages, this`lastSeen,
               this`lastOffset, this`bulk, this`losses
      ensures Running(g, base, bulk0, lost') && losses == old(losses + Loses()) && old(tick) <= tick
      ensures lost' == if old(Guarded({})) then Some(old(Cursor())) else lost
    {
      hide Valid, Safe, LossGuard, Sent, Drifted, Ran;
      ghost var g1, dst1, bitmap1 := Mem(), dst, bitmap;
      assert bitmap + {} == bitmap;
      ghost var guarded := Guarded({});
      if guarded {
        GuardLast(blocks, bulk, lastSeen, lastOffset, bitmap);
        lost' := Some(Cursor());
      } else {
        lost' := lost;
      }
      var sent := RamSaveBlock(false);
      DriftRan(g, g1, Mem(), racing);
      if guarded {
        assert bitmap1 + g1.log + Only(lost) == bitmap1 + g1.log;
        GuardLost(blocks, g1, dst, bitmap1, Mem(), racing, lost'.value);
      } else {
        SentSafe(blocks, g1, dst1, bitmap1, Mem(), dst, bitmap, racing, Only(lost));
      }
    }

    /** The run before completion. */
    method RunAll(schedule: seq<Event>, ghost g: Guest, ghost base: seq<nat>, ghost bulk0: bool)
      returns (ghost lost: Option<nat>)
      requires Running(g, base, bulk0, None) && racing
      modifies this
      ensures Running(g, base, bulk0, lost) && tick >= old(tick) + GuestTurns(schedule)
    {
      hide Running;
      lost := None;
      var i := 0;
      assert schedule[..0] == [];
      while i < |schedule|
        invariant 0 <= i <= |schedule| && Running(g, base, bulk0, lost) && racing
        invariant tick >= old(tick) + GuestTurns(schedule[..i])
      {
        match schedule[i] {
        case GuestEvent => RunGuest(g, base, bulk0, lost);
        case SyncEvent => RunSync(g, base, bulk0, lost);
        case SaveEvent => lost := RunSave(g, base, bulk0, lost);
        }
        assert schedule[..i + 1][..i] == schedule[..i];
        i := i + 1;
      }
      assert schedule[..i] == schedule;
    }

    /** A whole migration: the guest runs, the bitmap is synced and pages are sent in any order, then the guest is
        stopped and the rest is sent.  Guest memory is what the guest has stored in its turns.  At most one call of
        ram_save_block is under the guard.  Afterwards all of memory is on the destination, but for the page that such a
        call lost: it is the last page of the last block, and the destination may still have it. */
    method Migrate(schedule: seq<Event>) returns (ghost lost: Option<nat>)
      requires Valid(false) && Safe(blocks, src, dst, bitmap + log)
      modifies this
      ensures src == Replay(stores, old(src), old(tick), tick) && tick >= old(tick) + GuestTurns(schedule)
      ensures losses == old(losses) + Listed(lost) && Safe(blocks, src, dst, Only(lost))
      ensures lost.Some? ==> old(bulk) && LastPage(blocks, lost.value) && lost.value in src && lost.value in dst
      ensures Same(blocks, src, dst) <==> (lost.Some? ==> dst[lost.value] == src[lost.value])
    {
      hide Safe, LossGuard, CacheOk, BulkAhead, BlocksOk, Mapped, Same;
      assert bitmap + log + Only(None) == bitmap + log;
      racing := true;
      lost := RunAll(schedule, Mem(), losses, bulk);
      racing := false;
      ghost var guarded, before := Guarded(log), lost;
      if guarded {
        GuardLast(blocks, bulk, lastSeen, lastOffset, bitmap + log);
        assert bitmap + log + Only(lost) == bitmap + log;
        lost := Some(Cursor());
      }
      RamSaveComplete(Only(before));
      OnlyLost(blocks, src, dst, lost);
    }
  }

  /** The bulk stage of a guest of two pages. */
  method TwoPagesMarked(useXbzrle: bool, slots: nat, first: Page, second: Page) returns (m: RamMigration)
    requires slots > 0
    ensures fresh(m) && m.blocks == [Block(0, 2)] && m.Valid(false) && !m.racing && m.log == {} && m.bitmap == {0, 1}
    ensures m.bulk && m.lastSeen == -1 && m.lastOffset == 0
    ensures m.src == map[0 := first, 1 := second]
  {
    hide BlocksOk, IsPage, Safe, BulkAhead, CacheOk;
    TwoPages();
    var blank: map<nat, Page> := map[0 := ZeroPage(), 1 := ZeroPage()];
    m := new RamMigration([Block(0, 2)], map[0 := first, 1 := second], blank, 2, useXbzrle, slots, _ => []);
    m.Sync();
    assert m.log == {} && m.bitmap == {0, 1};
  }

  method TwoPagesSent(useXbzrle: bool, slots: nat, first: Page, second: Page) returns (m: RamMigration)
    requires slots > 0
    ensures fresh(m) && m.blocks == [Block(0, 2)] && m.Valid(false) && !m.racing && m.log == {} && m.bitmap == {}
    ensures m.bulk && m.lastSeen == 0 && m.lastOffset == 1
    ensures m.src == map[0 := first, 1 := second] && 1 in m.dst && m.dst[1] == second
  {
    hide LossGuard, Outcome, BlocksOk, IsPage, Safe, BulkAhead, CacheOk;
    TwoPages();
    m := TwoPagesMarked(useXbzrle, slots, first, second);
    var sent := m.RamSaveBlock(false);
    FirstTurn(sent, m.bitmap, m.bulk, m.lastSeen, m.lastOffset);
    sent := m.RamSaveBlock(false);
    SecondTurn(sent, m.bitmap, m.bulk, m.lastSeen, m.lastOffset);
  }

  /** The guard can hold: after the bulk stage the guest writes the last page again and is stopped; the completed
      migration has left the old page on the destination. */
  method LostPage(useXbzrle: bool, slots: nat, first: Page, second: Page, later: Page) returns (m: RamMigration)
    requires slots > 0
    ensures fresh(m) && m.blocks == [Block(0, 2)] && 1 in m.src && m.src[1] == later && 1 in m.dst && m.dst[1] == second
  {
    hide LossGuard, IsPage, Safe, BulkAhead, CacheOk, BlocksOk;
    m := TwoPagesSent(useXbzrle, slots, first, second);
    TwoPages();
    m.GuestWrite(1, later);
    m.RamSaveComplete({});
  }
}
