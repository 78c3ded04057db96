/** The two page bitmaps of a kdump file, written through a buffer of one window (qemu-2.0/dump.c). */
module KdumpBitmap {
  import opened Numbers
  import opened Values
  import opened Vmcore

  const CHAR_BIT: nat := 8
  const BUFSIZE_BITMAP: nat := 4096
  const PFN_BUFBITMAP: nat := CHAR_BIT * BUFSIZE_BITMAP

  /** The bits of the byte are the page frames base .. base + 7. */
  ghost predicate ByteOk(b: Octet, base: nat, pages: set<nat>) {
    forall t :: 0 <= t < 8 ==> (Bit(b, t) <==> base + t in pages)
  }

  /** The first n bytes of a bitmap are in the file. */
  ghost predicate BitsOk(records: seq<Record>, start: nat, n: nat, pages: set<nat>) {
    forall a :: start <= a < start + n ==>
      At(records, a).Some? && ByteOk(At(records, a).value, CHAR_BIT * (a - start), pages)
  }

  /** The buffer holds window w. */
  ghost predicate WindowOk(buf: seq<Octet>, w: nat, pages: set<nat>) {
    |buf| == BUFSIZE_BITMAP && forall j :: 0 <= j < |buf| ==> ByteOk(buf[j], CHAR_BIT * (BUFSIZE_BITMAP * w + j), pages)
  }

  ghost predicate AllBelow(pages: set<nat>, n: nat) { forall q :: q in pages ==> q < n }

  /** Both bitmaps are in the file up to window w, which is in the buffer. */
  ghost predicate Synced(records: seq<Record>, start: nat, len: nat, buf: seq<Octet>, w: nat, pages: set<nat>) {
    && BitsOk(records, start, BUFSIZE_BITMAP * w, pages) && BitsOk(records, start + len, BUFSIZE_BITMAP * w, pages)
    && WindowOk(buf, w, pages) && AllBelow(pages, PFN_BUFBITMAP * (w + 1))
  }

  lemma BitsKept(records: seq<Record>, records': seq<Record>, lo: nat, hi: nat, start: nat, n: nat, pages: set<nat>)
    requires BitsOk(records, start, n, pages) && SameOutside(records, records', lo, hi)
    requires (start + n <= lo || hi <= start)
    ensures BitsOk(records', start, n, pages)
  {
    hide ByteOk, At;
    forall a | start <= a < start + n
      ensures At(records', a).Some? && ByteOk(At(records', a).value, CHAR_BIT * (a - start), pages)
    {
      assert !(lo <= a < hi);
    }
  }

  lemma BitsMore(records: seq<Record>, start: nat, w: nat, buf: seq<Octet>, pages: set<nat>)
    requires BitsOk(records, start, BUFSIZE_BITMAP * w, pages) && WindowOk(buf, w, pages)
    ensures BitsOk(records + [Record(start + BUFSIZE_BITMAP * w, buf)], start, BUFSIZE_BITMAP * (w + 1), pages)
  {
    hide ByteOk, At;
    var r := Record(start + BUFSIZE_BITMAP * w, buf);
    forall a | start <= a < start + BUFSIZE_BITMAP * (w + 1)
      ensures At(records + [r], a).Some? && ByteOk(At(records + [r], a).value, CHAR_BIT * (a - start), pages)
    {
      AtAppend(records, r, a);
      assert r.Covers(a) ==> ByteOk(buf[a - r.offset], CHAR_BIT * (BUFSIZE_BITMAP * w + (a - r.offset)), pages);
    }
  }

  lemma ZeroWindow(w: nat, pages: set<nat>, buf: seq<Octet>)
    requires AllBelow(pages, PFN_BUFBITMAP * w) && |buf| == BUFSIZE_BITMAP && forall j :: 0 <= j < |buf| ==> buf[j] == 0
    ensures WindowOk(buf, w, pages)
  {
    forall j | 0 <= j < |buf| ensures ByteOk(buf[j], CHAR_BIT * (BUFSIZE_BITMAP * w + j), pages) {
      forall t | 0 <= t < 8 ensures !Bit(buf[j], t) {
        BitZero(t);
      }
    }
  }

  /** Writing the window out to both bitmaps. */
  lemma Flushed(records: seq<Record>, start: nat, len: nat, buf: seq<Octet>, w: nat, pages: set<nat>, zero: seq<Octet>)
    requires Synced(records, start, len, buf, w, pages) && BUFSIZE_BITMAP * (w + 1) <= len
    requires |zero| == BUFSIZE_BITMAP && forall j :: 0 <= j < |zero| ==> zero[j] == 0
    ensures Synced(records + [Record(start + BUFSIZE_BITMAP * w, buf)]
                           + [Record(start + len + BUFSIZE_BITMAP * w, buf)], start, len, zero, w + 1, pages)
  {
    hide BitsOk, WindowOk;
    var r1, r2 := Record(start + BUFSIZE_BITMAP * w, buf), Record(start + len + BUFSIZE_BITMAP * w, buf);
    WindowSize(buf, w, pages);
    BitsMore(records, start, w, buf, pages);
    WriteHolds(records, r1);
    BitsKept(records, records + [r1], r1.offset, r1.offset + |buf|, start + len, BUFSIZE_BITMAP * w, pages);
    BitsMore(records + [r1], start + len, w, buf, pages);
    WriteHolds(records + [r1], r2);
    BitsKept(records + [r1], records + [r1] + [r2], r2.offset, r2.offset + |buf|, start, BUFSIZE_BITMAP * (w + 1),
             pages);
    ZeroWindow(w + 1, pages, zero);
  }

  /** Nothing outside the two bitmaps is written. */
  lemma FlushedInside(records: seq<Record>, start: nat, len: nat, buf: seq<Octet>, w: nat)
    requires |buf| == BUFSIZE_BITMAP && BUFSIZE_BITMAP * (w + 1) <= len
    ensures SameOutside(records, records + [Record(start + BUFSIZE_BITMAP * w, buf)]
                                         + [Record(start + len + BUFSIZE_BITMAP * w, buf)], start, start + 2 * len)
  {
    hide At;
    var r1, r2 := Record(start + BUFSIZE_BITMAP * w, buf), Record(start + len + BUFSIZE_BITMAP * w, buf);
    WriteHolds(records, r1);
    WriteHolds(records + [r1], r2);
  }

  lemma WindowSize(buf: seq<Octet>, w: nat, pages: set<nat>)
    requires WindowOk(buf, w, pages)
    ensures |buf| == BUFSIZE_BITMAP
  {
  }

  /** Where the bit of a page frame is in the window. */
  lemma PlaceOf(pfn: nat, w: nat, j: nat)
    requires w == pfn / PFN_BUFBITMAP && j < BUFSIZE_BITMAP
    ensures var base := CHAR_BIT * (BUFSIZE_BITMAP * w + j);
            && (base <= pfn < base + 8 <==> j == pfn % PFN_BUFBITMAP / CHAR_BIT)
            && (base <= pfn < base + 8 ==> pfn % PFN_BUFBITMAP % CHAR_BIT == pfn - base)
  {
  }

  lemma BytePut(b: Octet, base: nat, pages: set<nat>, pfn: nat)
    requires ByteOk(b, base, pages)
    ensures base <= pfn < base + 8 ==>
              ByteOk(BitOn(b, pfn - base), base, pages + {pfn}) && ByteOk(BitOff(b, pfn - base), base, pages - {pfn})
    ensures !(base <= pfn < base + 8) ==> ByteOk(b, base, pages + {pfn}) && ByteOk(b, base, pages - {pfn})
  {
    hide Bit, BitOn, BitOff;
    if base <= pfn < base + 8 {
      var on, off := BitOn(b, pfn - base), BitOff(b, pfn - base);
      forall t | 0 <= t < 8 ensures Bit(on, t) <==> base + t in pages + {pfn} {
        BitSet(b, pfn - base, t);
      }
      forall t | 0 <= t < 8 ensures Bit(off, t) <==> base + t in pages - {pfn} {
        BitClear(b, pfn - base, t);
      }
    }
  }

  /** The bit of a page frame of the window, set or cleared. */
  function BufPut(buf: seq<Octet>, pfn: nat, value: bool): seq<Octet>
    requires |buf| == BUFSIZE_BITMAP
  {
    var byte, bit := pfn % PFN_BUFBITMAP / CHAR_BIT, pfn % PFN_BUFBITMAP % CHAR_BIT;
    buf[byte := if value then BitOn(buf[byte], bit) else BitOff(buf[byte], bit)]
  }

  lemma BufPutOk(buf: seq<Octet>, w: nat, pages: set<nat>, pfn: nat, value: bool)
    requires WindowOk(buf, w, pages) && w == pfn / PFN_BUFBITMAP
    ensures WindowOk(BufPut(buf, pfn, value), w, if value then pages + {pfn} else pages - {pfn})
  {
    hide ByteOk, BitOn, BitOff;
    var buf', pages' := BufPut(buf, pfn, value), if value then pages + {pfn} else pages - {pfn};
    forall j | 0 <= j < BUFSIZE_BITMAP ensures ByteOk(buf'[j], CHAR_BIT * (BUFSIZE_BITMAP * w + j), pages') {
      assert ByteOk(buf[j], CHAR_BIT * (BUFSIZE_BITMAP * w + j), pages);
      PlaceOf(pfn, w, j);
      BytePut(buf[j], CHAR_BIT * (BUFSIZE_BITMAP * w + j), pages, pfn);
    }
  }

  lemma BitsOther(records: seq<Record>, start: nat, n: nat, pages: set<nat>, pfn: nat)
    requires BitsOk(records, start, n, pages) && CHAR_BIT * n <= pfn
    ensures BitsOk(records, start, n, pages + {pfn}) && BitsOk(records, start, n, pages - {pfn})
  {
    hide At, ByteOk;
    forall a | start <= a < start + n
      ensures ByteOk(At(records, a).value, CHAR_BIT * (a - start), pages + {pfn})
      ensures ByteOk(At(records, a).value, CHAR_BIT * (a - start), pages - {pfn})
    {
      BytePut(At(records, a).value, CHAR_BIT * (a - start), pages, pfn);
    }
  }

  lemma SyncedPut(records: seq<Record>, start: nat, len: nat, buf: seq<Octet>, w: nat, pages: set<nat>, pfn: nat,
                  value: bool)
    requires Synced(records, start, len, buf, w, pages) && w == pfn / PFN_BUFBITMAP
    ensures |buf| == BUFSIZE_BITMAP
    ensures Synced(records, start, len, BufPut(buf, pfn, value), w, if value then pages + {pfn} else pages - {pfn})
  {
    hide BitsOk, WindowOk, BufPut;
    WindowSize(buf, w, pages);
    BufPutOk(buf, w, pages, pfn, value);
    BitsOther(records, start, BUFSIZE_BITMAP * w, pages, pfn);
    BitsOther(records, start + len, BUFSIZE_BITMAP * w, pages, pfn);
  }
}
