/** The kdump-compressed writer (qemu-2.0/dump.c): headers, two page bitmaps, page descriptors and page data. */
module Kdump {
  import opened GuestBlocks
  import opened KdumpBitmap
  import opened KdumpPages
  import opened Numbers
  import opened Values
  import opened Vmcore

  const DISKDUMP_HEADER_BLOCKS: nat := 1

  function DivRoundUp(n: nat, d: nat): nat
    requires d > 0
  {
    (n + d - 1) / d
  }

  /** Length in bytes of one bitmap in the file, as dump_init computes it. */
  function LenBitmap(maxMapnr: nat): nat { DivRoundUp(DivRoundUp(maxMapnr, CHAR_BIT), PAGE_SIZE) * PAGE_SIZE }

  /** It is just the windows up to that of the last page frame. */
  lemma LenIsWindows(last: nat)
    ensures LenBitmap(last + 1) == BUFSIZE_BITMAP * (last / PFN_BUFBITMAP + 1)
  {
    var w, r := last / PFN_BUFBITMAP, last % PFN_BUFBITMAP;
    var bytes := DivRoundUp(last + 1, CHAR_BIT);
    assert bytes == last / CHAR_BIT + 1;
    assert last / CHAR_BIT == BUFSIZE_BITMAP * w + r / CHAR_BIT;
  }

  lemma WindowMono(p: nat, q: nat)
    requires p <= q
    ensures p / PFN_BUFBITMAP <= q / PFN_BUFBITMAP
  {
  }

  lemma WindowBounds(pfn: nat)
    ensures PFN_BUFBITMAP * (pfn / PFN_BUFBITMAP) <= pfn < PFN_BUFBITMAP * (pfn / PFN_BUFBITMAP + 1)
  {
  }

  lemma WindowAfter(pfn: nat)
    ensures (pfn + PFN_BUFBITMAP) / PFN_BUFBITMAP == pfn / PFN_BUFBITMAP + 1
  {
  }

  function Pfns(pages: seq<GuestPage>, n: nat): (s: set<nat>)
    requires n <= |pages|
    ensures forall q :: q in s <==> exists k :: 0 <= k < n && pages[k].pfn == q
  {
    if n == 0 then {} else Pfns(pages, n - 1) + {pages[n - 1].pfn}
  }

  function MaxMapnr(blocks: seq<GuestBlock>): nat
    requires blocks != []
  {
    EndPfn(blocks[|blocks| - 1])
  }

  lemma PageBelowMax(blocks: seq<GuestBlock>, k: nat)
    requires BlocksOk(blocks) && k < |Pages(blocks)|
    ensures Pages(blocks)[k].pfn < MaxMapnr(blocks)
    ensures k == |Pages(blocks)| - 1 ==> Pages(blocks)[k].pfn == MaxMapnr(blocks) - 1
  {
    hide Pages, FirstPfn, EndPfn;
    var n := |blocks| - 1;
    PfnBounds(blocks[n]);
    PageIn(blocks, n, EndPfn(blocks[n]) - 1);
    PagesNext(blocks, n);
    assert blocks[..n + 1] == blocks;
    if k < |Pages(blocks)| - 1 {
      PagesAscend(blocks, k, |Pages(blocks)| - 1);
    }
  }

  lemma PfnsNext(pages: seq<GuestPage>, n: nat)
    requires n < |pages|
    ensures Pfns(pages, n + 1) == Pfns(pages, n) + {pages[n].pfn}
  {
  }

  lemma PfnsMax(blocks: seq<GuestBlock>, n: nat)
    requires BlocksOk(blocks) && 0 < n <= |Pages(blocks)|
    ensures forall q :: q in Pfns(Pages(blocks), n) ==> q <= Pages(blocks)[n - 1].pfn
  {
    hide Pages;
    forall q | q in Pfns(Pages(blocks), n) ensures q <= Pages(blocks)[n - 1].pfn {
      var k :| 0 <= k < n && Pages(blocks)[k].pfn == q;
      if k < n - 1 {
        PagesAscend(blocks, k, n - 1);
      }
    }
  }

  lemma LenFits(pfn: nat, max: nat)
    requires pfn < max
    ensures BUFSIZE_BITMAP * (pfn / PFN_BUFBITMAP) <= LenBitmap(max)
  {
    hide LenBitmap;
    LenIsWindows(max - 1);
    WindowMono(pfn, max - 1);
  }

  lemma SomePage(blocks: seq<GuestBlock>)
    requires BlocksOk(blocks)
    ensures |Pages(blocks)| > 0
  {
    hide Pages;
    PfnBounds(blocks[0]);
    PageIn(blocks, 0, FirstPfn(blocks[0]));
  }

  lemma StartSynced(records: seq<Record>, start: nat, len: nat, buf: seq<Octet>, pages: seq<GuestPage>)
    requires |buf| == BUFSIZE_BITMAP && forall j :: 0 <= j < |buf| ==> buf[j] == 0
    ensures Synced(records, start, len, buf, 0, Pfns(pages, 0))
  {
    ZeroWindow(0, {}, buf);
  }

  lemma AllSynced(records: seq<Record>, start: nat, len: nat, buf: seq<Octet>, last: nat, pages: seq<GuestPage>)
    requires forall q :: q in Pfns(pages, |pages|) ==> q <= last
    requires Synced(records, start, len, buf, last / PFN_BUFBITMAP + 1, Pfns(pages, |pages|) - {last + PFN_BUFBITMAP})
    requires len == BUFSIZE_BITMAP * (last / PFN_BUFBITMAP + 1)
    ensures BitsOk(records, start, len, Pfns(pages, |pages|)) && BitsOk(records, start + len, len, Pfns(pages, |pages|))
  {
    hide BitsOk, WindowOk, Pfns;
    assert Pfns(pages, |pages|) - {last + PFN_BUFBITMAP} == Pfns(pages, |pages|);
  }

  const DUMP_DH_COMPRESSED_ZLIB: nat := 0x1
  const DUMP_DH_COMPRESSED_LZO: nat := 0x2
  const DUMP_DH_COMPRESSED_SNAPPY: nat := 0x4

  function FlagOf(c: Compression): nat {
    match c
    case Zlib => DUMP_DH_COMPRESSED_ZLIB
    case Lzo => DUMP_DH_COMPRESSED_LZO
    case Snappy => DUMP_DH_COMPRESSED_SNAPPY
  }

  class KdumpWriter {
    const blocks: seq<GuestBlock>
    var records: seq<Record>
    var offsetBitmap: nat
    var lenBitmap: nat
    var offsetPage: nat
    var numDumpable: nat

    /** The part of dump_init that is for this format. */
    constructor (blocks: seq<GuestBlock>)
      requires BlocksOk(blocks)
      ensures this.blocks == blocks && records == [] && lenBitmap == LenBitmap(MaxMapnr(blocks))
    {
      this.blocks := blocks;
      records, offsetBitmap, offsetPage, numDumpable := [], 0, 0, 0;
      lenBitmap := LenBitmap(MaxMapnr(blocks));
    }

    /** write_buffer. */
    method WriteBuffer(offset: nat, data: seq<Octet>)
      modifies this`records
      ensures records == old(records) + [Record(offset, data)]
    {
      records := records + [Record(offset, data)];
    }

    /** create_header32 and create_header64, up to the contents of the headers: what they write ends before the bitmaps,
        and the page descriptors begin where the second bitmap ends. */
    method CreateHeader(header: seq<Octet>, sub: seq<Octet>, note: seq<Octet>)
      requires |header| <= PAGE_SIZE && lenBitmap % PAGE_SIZE == 0
      modifies this`records, this`offsetBitmap, this`offsetPage
      ensures offsetBitmap == (DISKDUMP_HEADER_BLOCKS + DivRoundUp(|sub| + |note|, PAGE_SIZE)) * PAGE_SIZE
      ensures offsetPage == offsetBitmap + 2 * lenBitmap
      ensures SameOutside(old(records), records, 0, offsetBitmap)
      ensures Holds(records, 0, header) && Holds(records, PAGE_SIZE, sub) && Holds(records, PAGE_SIZE + |sub|, note)
    {
      hide Holds, SameOutside;
      var subBlocks := DivRoundUp(|sub| + |note|, PAGE_SIZE);
      var bitmapBlocks := DivRoundUp(lenBitmap, PAGE_SIZE) * 2;
      WriteBuffer(0, header);
      WriteBuffer(DISKDUMP_HEADER_BLOCKS * PAGE_SIZE, sub);
      WriteBuffer(DISKDUMP_HEADER_BLOCKS * PAGE_SIZE + |sub|, note);
      HeadersHold(old(records), header, sub, note);
      offsetBitmap := (DISKDUMP_HEADER_BLOCKS + subBlocks) * PAGE_SIZE;
      offsetPage := (DISKDUMP_HEADER_BLOCKS + subBlocks + bitmapBlocks) * PAGE_SIZE;
      SameWider(old(records), records, PAGE_SIZE + |sub| + |note|, offsetBitmap);
    }

    /** set_dump_bitmap: the windows before that of pfn go to the file, then the bit of pfn is set in the buffer. */
    method SetDumpBitmap(lastPfn: nat, pfn: nat, value: bool, buf: array<Octet>, ghost pages: set<nat>)
      requires lastPfn <= pfn && buf.Length == BUFSIZE_BITMAP && BUFSIZE_BITMAP * (pfn / PFN_BUFBITMAP) <= lenBitmap
      requires Synced(records, offsetBitmap, lenBitmap, buf[..], lastPfn / PFN_BUFBITMAP, pages)
      modifies this`records, buf
      ensures Synced(records, offsetBitmap, lenBitmap, buf[..], pfn / PFN_BUFBITMAP,
                     if value then pages + {pfn} else pages - {pfn})
      ensures SameOutside(old(records), records, offsetBitmap, offsetBitmap + 2 * lenBitmap)
    {
      hide BitsOk, WindowOk, Synced, BitOn, BitOff, SameOutside;
      SameRefl(records, offsetBitmap, offsetBitmap + 2 * lenBitmap);
      var oldOffset, newOffset := BUFSIZE_BITMAP * (lastPfn / PFN_BUFBITMAP), BUFSIZE_BITMAP * (pfn / PFN_BUFBITMAP);
      ghost var w := lastPfn / PFN_BUFBITMAP;
      WindowMono(lastPfn, pfn);
      while oldOffset < newOffset
        invariant oldOffset == BUFSIZE_BITMAP * w && w <= pfn / PFN_BUFBITMAP
        invariant Synced(records, offsetBitmap, lenBitmap, buf[..], w, pages)
        invariant SameOutside(old(records), records, offsetBitmap, offsetBitmap + 2 * lenBitmap)
      {
        var window := buf[..];
        ghost var before := records;
        WriteBuffer(offsetBitmap + oldOffset, window);
        WriteBuffer(offsetBitmap + lenBitmap + oldOffset, window);
        forall j | 0 <= j < buf.Length {
          buf[j] := 0;
        }
        Flushed(before, offsetBitmap, lenBitmap, window, w, pages, buf[..]);
        FlushedInside(before, offsetBitmap, lenBitmap, window, w);
        SameTrans(old(records), before, records, offsetBitmap, offsetBitmap + 2 * lenBitmap);
        w := w + 1;
        oldOffset := oldOffset + BUFSIZE_BITMAP;
      }
      var byte, bit := pfn % PFN_BUFBITMAP / CHAR_BIT, pfn % PFN_BUFBITMAP % CHAR_BIT;
      ghost var window := buf[..];
      SyncedPut(records, offsetBitmap, lenBitmap, window, w, pages, pfn, value);
      buf[byte] := if value then BitOn(buf[byte], bit) else BitOff(buf[byte], bit);
      assert buf[..] == BufPut(window, pfn, value);
    }

    /** write_dump_bitmap: in both bitmaps just the bits of the guest's pages are set. */
    method WriteDumpBitmap()
      requires BlocksOk(blocks) && lenBitmap == LenBitmap(MaxMapnr(blocks))
      modifies this`records, this`numDumpable
      ensures numDumpable == |Pages(blocks)|
      ensures BitsOk(records, offsetBitmap, lenBitmap, Pfns(Pages(blocks), |Pages(blocks)|))
      ensures BitsOk(records, offsetBitmap + lenBitmap, lenBitmap, Pfns(Pages(blocks), |Pages(blocks)|))
      ensures SameOutside(old(records), records, offsetBitmap, offsetBitmap + 2 * lenBitmap)
    {
      hide BitsOk, WindowOk, Synced, Pages, FirstPfn, EndPfn, LenBitmap, Pfns, SameOutside;
      SameRefl(records, offsetBitmap, offsetBitmap + 2 * lenBitmap);
      var buf := new Octet[BUFSIZE_BITMAP](_ => 0);
      var n, last := 0, 0;
      var c := Start;
      ghost var pages := Pages(blocks);
      StartSynced(records, offsetBitmap, lenBitmap, buf[..], pages);
      while true
        invariant fresh(buf) && n <= |pages| && CursorAt(blocks, c, n)
        invariant n > 0 ==> last == pages[n - 1].pfn
        invariant n == 0 ==> last == 0
        invariant Synced(records, offsetBitmap, lenBitmap, buf[..], last / PFN_BUFBITMAP, Pfns(pages, n))
        invariant SameOutside(old(records), records, offsetBitmap, offsetBitmap + 2 * lenBitmap)
        decreases |pages| - n
      {
        var more, host;
        more, c, host := GetNextPage(blocks, c, n);
        if !more {
          break;
        }
        var pfn := c.pfn;
        PageBelowMax(blocks, n);
        if n > 0 {
          PagesAscend(blocks, n - 1, n);
        }
        LenFits(pfn, MaxMapnr(blocks));
        ghost var before := records;
        SetDumpBitmap(last, pfn, true, buf, Pfns(pages, n));
        SameTrans(old(records), before, records, offsetBitmap, offsetBitmap + 2 * lenBitmap);
        PfnsNext(pages, n);
        last, n := pfn, n + 1;
      }
      SomePage(blocks);
      PageBelowMax(blocks, n - 1);
      PfnsMax(blocks, n);
      LenIsWindows(last);
      WindowAfter(last);
      ghost var before := records;
      SetDumpBitmap(last, last + PFN_BUFBITMAP, false, buf, Pfns(pages, n));
      SameTrans(old(records), before, records, offsetBitmap, offsetBitmap + 2 * lenBitmap);
      AllSynced(records, offsetBitmap, lenBitmap, buf[..], last, pages);
      numDumpable := n;
    }

    /** write_dump_pages: reading the k-th page of the file gives the guest's k-th page. */
    method WriteDumpPages(ram: nat -> Octet, e: Endian, compress: seq<Octet> -> Option<seq<Octet>>,
                          ghost expand: (Compression, seq<Octet>) -> seq<Octet>, with: Compression)
      requires BlocksOk(blocks) && numDumpable == |Pages(blocks)|
      requires forall p :: compress(p).Some? ==> expand(with, compress(p).value) == p
      requires offsetPage + (DESC_SIZE + PAGE_SIZE) * (numDumpable + 1) < 0x1_0000_0000_0000_0000
      modifies this`records
      ensures forall k :: 0 <= k < |Pages(blocks)| ==>
                ReadPage(records, offsetPage, k, e, expand) == Some(PageBytes(ram, Pages(blocks)[k].host))
      ensures forall a: nat :: a < offsetPage ==> At(records, a) == old(At(records, a))
    {
      hide Pages, FirstPfn, EndPfn, Holds, PagesHeld, SameOutside, At, DataAt, CacheOk, ReadPage, PageBytes, ZeroPage,
           PutDesc;
      var offsetDesc := offsetPage;
      var offsetData := offsetDesc + DESC_SIZE * numDumpable;
      var desc := new DataCache(this, offsetDesc);
      var data := new DataCache(this, offsetData);
      var zeroData := offsetData;
      ghost var before := records;
      data.WriteCache(ZeroPage(), false);
      desc.Kept(before, data.base, data.base);
      SameLow(records, before, records, data.base, data.base, offsetPage);
      offsetData := offsetData + PAGE_SIZE;
      ghost var ds: seq<Desc> := [];
      ghost var pages := Pages(blocks);
      PagesStart(data.base, pages, ram, e, expand);
      var c := Start;
      while true
        invariant Caches(desc, data) && fresh(desc) && fresh(data)
        invariant desc.base == offsetPage && data.base == zeroData == offsetPage + DESC_SIZE * |pages|
        invariant |ds| <= |pages| && CursorAt(blocks, c, |ds|)
        invariant offsetData == data.base + |data.written| <= data.base + PAGE_SIZE * (|ds| + 1)
        invariant PagesHeld(desc.written, data.base, data.written, ds, pages, ram, e, expand)
        invariant SameBelow(old(records), records, offsetPage)
        decreases |pages| - |ds|
      {
        var more, host;
        more, c, host := GetNextPage(blocks, c, |ds|);
        if !more {
          break;
        }
        var page := PageBytes(ram, host);
        PagesZero(desc.written, data.base, data.written, ds, pages, ram, e, expand);
        var bytes, d := Pack(page, zeroData, data.written, offsetData, compress, expand, with);
        PagesMore(desc.written, data.base, data.written, ds, pages, ram, e, expand, bytes, d);
        Append(desc, data, bytes, PutDesc(d, e), page != ZeroPage());
        offsetData := offsetData + |bytes|;
        ds := ds + [d];
      }
      Finish(desc, data);
      forall k | 0 <= k < |pages|
        ensures ReadPage(records, offsetPage, k, e, expand) == Some(PageBytes(ram, pages[k].host))
      {
        PageHeld(records, offsetPage, desc.written, data.base, data.written, ds, pages, ram, e, expand, k);
      }
    }

    /** The data and the descriptor of one page: a zero page has the data of the first page in the file. */
    method Pack(page: seq<Octet>, base: nat, ghost data: seq<Octet>, offsetData: nat,
                compress: seq<Octet> -> Option<seq<Octet>>,
                ghost expand: (Compression, seq<Octet>) -> seq<Octet>, with: Compression)
      returns (bytes: seq<Octet>, d: Desc)
      requires |page| == PAGE_SIZE <= |data| && data[..PAGE_SIZE] == ZeroPage() && offsetData == base + |data|
      requires forall p :: compress(p).Some? ==> expand(with, compress(p).value) == p
      ensures |bytes| <= PAGE_SIZE && (page == ZeroPage() ==> bytes == [])
      ensures page != ZeroPage() ==> bytes == if compress(page).Some? && |compress(page).value| < PAGE_SIZE
                                              then compress(page).value else page
      ensures DataAt(base, data + bytes, d, page, expand)
    {
      hide ZeroPage;
      if page == ZeroPage() {
        bytes, d := [], Desc(base, PAGE_SIZE, 0, 0);
        assert (data + bytes)[0..PAGE_SIZE] == data[..PAGE_SIZE];
      } else {
        var z := compress(page);
        var packed := z.Some? && |z.value| < PAGE_SIZE;
        bytes := if packed then z.value else page;
        d := Desc(offsetData, |bytes|, if packed then FlagOf(with) else 0, 0);
        assert (data + bytes)[|data|..|data| + |bytes|] == bytes;
      }
    }

    /** The two caches of write_dump_pages: data follow the descriptors in the file. */
    ghost predicate Caches(desc: DataCache, data: DataCache)
      reads this, desc, data
    {
      desc != data && desc.fd == this && data.fd == this && desc.Valid() && data.Valid()
        && desc.base + |desc.written| <= data.base
    }

    /** A page goes into the caches: its data, unless it is the zero page, then its descriptor. */
    method Append(desc: DataCache, data: DataCache, bytes: seq<Octet>, d: seq<Octet>, withData: bool)
      requires Caches(desc, data) && desc.base + |desc.written| + |d| <= data.base
      requires |bytes| <= PAGE_SIZE && |d| <= PAGE_SIZE && (!withData ==> bytes == [])
      modifies this`records, desc, data
      ensures Caches(desc, data) && desc.base == old(desc.base) && data.base == old(data.base)
      ensures desc.written == old(desc.written) + d && data.written == old(data.written) + bytes
      ensures SameBelow(old(records), records, desc.base)
    {
      hide Holds, SameOutside, At, CacheOk;
      ghost var r0 := records;
      SameLow(r0, r0, r0, 0, 0, desc.base);
      if withData {
        data.WriteCache(bytes, false);
        desc.Kept(r0, data.base, data.base + |old(data.written)|);
        SameLow(r0, r0, records, data.base, data.base + |old(data.written)|, desc.base);
      }
      ghost var r1 := records;
      desc.WriteCache(d, false);
      data.Kept(r1, desc.base, desc.base + |old(desc.written)|);
      SameLow(r0, r1, records, desc.base, desc.base + |old(desc.written)|, desc.base);
    }

    method Finish(desc: DataCache, data: DataCache)
      requires Caches(desc, data)
      modifies this`records, desc, data
      ensures desc.base == old(desc.base) && data.base == old(data.base) && desc.written == old(desc.written)
      ensures data.written == old(data.written)
      ensures Holds(records, desc.base, desc.written) && Holds(records, data.base, data.written)
      ensures SameBelow(old(records), records, desc.base)
    {
      hide Holds, SameOutside, At, CacheOk;
      ghost var r0 := records;
      desc.WriteCache([], true);
      ghost var r1 := records;
      data.Kept(r0, desc.base, desc.base + |desc.written|);
      SameLow(r0, r0, r1, desc.base, desc.base + |desc.written|, desc.base);
      data.WriteCache([], true);
      HoldsKept(r1, records, data.base, data.base + |data.written|, desc.base, desc.written);
      SameLow(r0, r1, records, data.base, data.base + |data.written|, desc.base);
    }

    /** create_kdump_vmcore: the headers are in front, in both bitmaps just the bits of the guest's pages are set, and
        reading the file back page frame by page frame gives the guest. */
    method CreateKdump(header: seq<Octet>, sub: seq<Octet>, note: seq<Octet>, ram: nat -> Octet, e: Endian,
                       compress: seq<Octet> -> Option<seq<Octet>>,
                       ghost expand: (Compression, seq<Octet>) -> seq<Octet>, with: Compression)
      requires BlocksOk(blocks) && lenBitmap == LenBitmap(MaxMapnr(blocks)) && |header| <= PAGE_SIZE
      requires forall p :: compress(p).Some? ==> expand(with, compress(p).value) == p
      requires FileSize(|sub| + |note|, lenBitmap, |Pages(blocks)|) < 0x1_0000_0000_0000_0000
      modifies this
      ensures offsetBitmap == (DISKDUMP_HEADER_BLOCKS + DivRoundUp(|sub| + |note|, PAGE_SIZE)) * PAGE_SIZE
      ensures offsetPage == offsetBitmap + 2 * lenBitmap && lenBitmap == old(lenBitmap)
      ensures numDumpable == |Pages(blocks)|
      ensures Holds(records, 0, header) && Holds(records, PAGE_SIZE, sub) && Holds(records, PAGE_SIZE + |sub|, note)
      ensures forall q :: 0 <= q < CHAR_BIT * lenBitmap ==>
                && (BitAt(records, offsetBitmap, q) <==> InGuest(blocks, q))
                && (BitAt(records, offsetBitmap + lenBitmap, q) <==> InGuest(blocks, q))
      ensures forall q :: 0 <= q < CHAR_BIT * lenBitmap ==>
                FrameOk(records, offsetBitmap, offsetPage, blocks, ram, e, expand, q)
      ensures forall q: nat :: InGuest(blocks, q) ==> q < CHAR_BIT * lenBitmap
    {
      hide Pages, BitsOk, BitAt, FrameOk, Holds, SameOutside, LenBitmap, InGuest, ReadPage, PageBytes, Pfns;
      LenAligned(MaxMapnr(blocks));
      CreateHeader(header, sub, note);
      ghost var before := records;
      WriteDumpBitmap();
      HeadersStay(before, records, offsetBitmap, offsetPage, header, sub, note);
      before := records;
      WriteDumpPages(ram, e, compress, expand, with);
      HeadersBelow(before, records, offsetPage, header, sub, note);
      ghost var pages := Pages(blocks);
      BitsStay(before, records, offsetBitmap, lenBitmap, Pfns(pages, |pages|), offsetPage);
      BitsStay(before, records, offsetBitmap + lenBitmap, lenBitmap, Pfns(pages, |pages|), offsetPage);
      forall q | 0 <= q < CHAR_BIT * lenBitmap
        ensures BitAt(records, offsetBitmap, q) <==> InGuest(blocks, q)
        ensures BitAt(records, offsetBitmap + lenBitmap, q) <==> InGuest(blocks, q)
        ensures FrameOk(records, offsetBitmap, offsetPage, blocks, ram, e, expand, q)
      {
        GuestListed(blocks, q);
        BitIff(records, offsetBitmap, lenBitmap, Pfns(pages, |pages|), q);
        BitIff(records, offsetBitmap + lenBitmap, lenBitmap, Pfns(pages, |pages|), q);
        FrameReads(records, offsetBitmap, lenBitmap, offsetPage, blocks, ram, e, expand, q);
      }
      forall q: nat | InGuest(blocks, q) ensures q < CHAR_BIT * lenBitmap {
        GuestBelow(blocks, q);
      }
    }
  }

  /** How long the file gets at most. */
  function FileSize(sub: nat, len: nat, pages: nat): nat {
    (DISKDUMP_HEADER_BLOCKS + DivRoundUp(sub, PAGE_SIZE)) * PAGE_SIZE + 2 * len + (DESC_SIZE + PAGE_SIZE) * (pages + 1)
  }

  predicate BitAt(records: seq<Record>, start: nat, q: nat) {
    match At(records, start + q / CHAR_BIT)
    case Some(b) => Bit(b, q % CHAR_BIT)
    case None => false
  }

  /** How many bits are set before bit n. */
  function Rank(records: seq<Record>, start: nat, n: nat): nat {
    if n == 0 then 0 else Rank(records, start, n - 1) + if BitAt(records, start, n - 1) then 1 else 0
  }

  /** A reader of the file: the bitmap says whether the page frame is there and which descriptor is its own. */
  function ReadFrame(records: seq<Record>, bitmap: nat, start: nat, e: Endian,
                     expand: (Compression, seq<Octet>) -> seq<Octet>, pfn: nat): Option<seq<Octet>> {
    if BitAt(records, bitmap, pfn) then ReadPage(records, start, Rank(records, bitmap, pfn), e, expand) else None
  }

  /** The bytes read are those of host memory from h on. */
  ghost predicate IsPage(page: Option<seq<Octet>>, ram: nat -> Octet, h: nat) {
    page.Some? && |page.value| == PAGE_SIZE && forall i :: 0 <= i < PAGE_SIZE ==> page.value[i] == ram(h + i)
  }

  lemma PageBytesIs(ram: nat -> Octet, h: nat)
    ensures IsPage(Some(PageBytes(ram, h)), ram, h)
  {
  }

  /** The page frame reads as the guest's page, or is absent if the guest has none there. */
  ghost predicate FrameOk(records: seq<Record>, bitmap: nat, start: nat, blocks: seq<GuestBlock>, ram: nat -> Octet,
                          e: Endian, expand: (Compression, seq<Octet>) -> seq<Octet>, pfn: nat)
  {
    if InGuest(blocks, pfn)
    then exists h: nat :: Maps(blocks, pfn * PAGE_SIZE, h)
                          && IsPage(ReadFrame(records, bitmap, start, e, expand, pfn), ram, h)
    else ReadFrame(records, bitmap, start, e, expand, pfn) == None
  }

  lemma LenAligned(max: nat)
    ensures LenBitmap(max) % PAGE_SIZE == 0
  {
  }

  lemma BitsStay(records: seq<Record>, records': seq<Record>, start: nat, n: nat, pages: set<nat>, end: nat)
    requires BitsOk(records, start, n, pages) && start + n <= end && forall a: nat :: a < end ==>
               At(records', a) == At(records, a)
    ensures BitsOk(records', start, n, pages)
  {
    hide At, ByteOk;
  }

  lemma BitIff(records: seq<Record>, start: nat, n: nat, pages: set<nat>, q: nat)
    requires BitsOk(records, start, n, pages) && q < CHAR_BIT * n
    ensures BitAt(records, start, q) <==> q in pages
  {
    hide At, Bit;
    var a := start + q / CHAR_BIT;
    assert ByteOk(At(records, a).value, CHAR_BIT * (a - start), pages);
    assert CHAR_BIT * (a - start) + q % CHAR_BIT == q;
  }

  /** The rank of the k-th page frame is k. */
  lemma {:induction false} RankIs(records: seq<Record>, start: nat, blocks: seq<GuestBlock>, n: nat, k: nat)
    requires BlocksOk(blocks) && k <= |Pages(blocks)|
    requires forall q :: 0 <= q < n ==> (BitAt(records, start, q) <==> q in Pfns(Pages(blocks), |Pages(blocks)|))
    requires (k > 0 ==> Pages(blocks)[k - 1].pfn < n) && (k < |Pages(blocks)| ==> n <= Pages(blocks)[k].pfn)
    ensures Rank(records, start, n) == k
    decreases n
  {
    hide Pages, BitAt;
    var pages := Pages(blocks);
    if n > 0 {
      if k > 0 && pages[k - 1].pfn == n - 1 {
        assert n - 1 in Pfns(pages, |pages|);
        if k > 1 {
          PagesAscend(blocks, k - 2, k - 1);
        }
        RankIs(records, start, blocks, n - 1, k - 1);
      } else {
        NotListed(blocks, n - 1, k);
        RankIs(records, start, blocks, n - 1, k);
      }
    }
  }

  lemma NotListed(blocks: seq<GuestBlock>, q: nat, k: nat)
    requires BlocksOk(blocks) && k <= |Pages(blocks)|
    requires (k > 0 ==> Pages(blocks)[k - 1].pfn < q) && (k < |Pages(blocks)| ==> q < Pages(blocks)[k].pfn)
    ensures q !in Pfns(Pages(blocks), |Pages(blocks)|)
  {
    hide Pages;
    var pages := Pages(blocks);
    if q in Pfns(pages, |pages|) {
      var j :| 0 <= j < |pages| && pages[j].pfn == q;
      if j < k - 1 {
        PagesAscend(blocks, j, k - 1);
      } else if j > k {
        PagesAscend(blocks, k, j);
      }
    }
  }

  lemma FrameReads(records: seq<Record>, bitmap: nat, len: nat, start: nat, blocks: seq<GuestBlock>, ram: nat -> Octet,
                   e: Endian, expand: (Compression, seq<Octet>) -> seq<Octet>, pfn: nat)
    requires BlocksOk(blocks) && pfn < CHAR_BIT * len
    requires BitsOk(records, bitmap, len, Pfns(Pages(blocks), |Pages(blocks)|))
    requires forall k :: 0 <= k < |Pages(blocks)| ==>
               ReadPage(records, start, k, e, expand) == Some(PageBytes(ram, Pages(blocks)[k].host))
    ensures FrameOk(records, bitmap, start, blocks, ram, e, expand, pfn)
  {
    hide Pages, BitAt, BitsOk, ReadPage, PageBytes, Rank, InGuest, IsPage;
    var pages := Pages(blocks);
    ListedIff(blocks, pfn);
    forall q | 0 <= q <= pfn ensures BitAt(records, bitmap, q) <==> q in Pfns(pages, |pages|) {
      BitIff(records, bitmap, len, Pfns(pages, |pages|), q);
    }
    if InGuest(blocks, pfn) {
      var k :| 0 <= k < |pages| && pages[k].pfn == pfn;
      if k > 0 {
        PagesAscend(blocks, k - 1, k);
      }
      RankIs(records, bitmap, blocks, pfn, k);
      PageMapped(blocks, k);
      PageBytesIs(ram, pages[k].host);
    }
  }

  lemma PageMapped(blocks: seq<GuestBlock>, k: nat)
    requires BlocksOk(blocks) && k < |Pages(blocks)|
    ensures Maps(blocks, Pages(blocks)[k].pfn * PAGE_SIZE, Pages(blocks)[k].host)
  {
    hide Pages;
    assert blocks[..|blocks|] == blocks;
    var i := PageFrom(blocks, |blocks|, k);
    var pfn := Pages(blocks)[k].pfn;
    PageIn(blocks, i, pfn);
    PfnBounds(blocks[i]);
    assert InBlock(blocks[i], pfn * PAGE_SIZE);
  }

  lemma GuestBelow(blocks: seq<GuestBlock>, q: nat)
    requires BlocksOk(blocks) && InGuest(blocks, q)
    ensures q < CHAR_BIT * LenBitmap(MaxMapnr(blocks))
  {
    hide Pages, LenBitmap, FirstPfn, EndPfn;
    ListedIff(blocks, q);
    var k :| 0 <= k < |Pages(blocks)| && Pages(blocks)[k].pfn == q;
    PageBelowMax(blocks, k);
    LenIsWindows(MaxMapnr(blocks) - 1);
    WindowBounds(MaxMapnr(blocks) - 1);
  }

  function PageBytes(ram: nat -> Octet, host: nat): (s: seq<Octet>)
    ensures |s| == PAGE_SIZE
  {
    seq(PAGE_SIZE, i requires 0 <= i => ram(host + i))
  }

  function ZeroPage(): (s: seq<Octet>)
    ensures |s| == PAGE_SIZE
  {
    seq(PAGE_SIZE, _ => 0)
  }

  const BUFSIZE_DATA_CACHE: nat := PAGE_SIZE * 4

  /** A buffered writer at the end of what it has written. */
  class DataCache {
    const fd: KdumpWriter
    var offset: nat
    var buf: seq<Octet>
    ghost var base: nat
    /** All that was given to it. */
    ghost var written: seq<Octet>

    ghost predicate Valid()
      reads this, fd
    {
      && |buf| <= BUFSIZE_DATA_CACHE && CacheOk(fd.records, base, written, offset, buf)
    }

    constructor (fd: KdumpWriter, offset: nat)
      ensures Valid() && this.fd == fd && base == offset && written == []
    {
      this.fd, this.offset, buf, base, written := fd, offset, [], offset, [];
    }

    /** Writes elsewhere in the file do not matter. */
    lemma Kept(records: seq<Record>, lo: nat, hi: nat)
      requires |buf| <= BUFSIZE_DATA_CACHE && CacheOk(records, base, written, offset, buf)
      requires SameOutside(records, fd.records, lo, hi) && (base + |written| <= lo || hi <= base)
      ensures Valid()
    {
      hide Holds, SameOutside;
      HoldsKept(records, fd.records, lo, hi, base, written[..|written| - |buf|]);
    }

    /** write_cache: whenever it happens to write, the bytes land one after the other. */
    method WriteCache(data: seq<Octet>, sync: bool)
      requires Valid() && |data| <= BUFSIZE_DATA_CACHE
      modifies this, fd`records
      ensures Valid() && base == old(base) && written == (if sync then old(written) else old(written) + data)
      ensures SameOutside(old(fd.records), fd.records, base, base + |old(written)|)
      ensures sync ==> Holds(fd.records, base, written)
      ensures buf == if sync then [] else if |old(buf)| + |data| > BUFSIZE_DATA_CACHE then data else old(buf) + data
    {
      SameRefl(fd.records, base, base + |written|);
      if (!sync && |buf| + |data| > BUFSIZE_DATA_CACHE) || (sync && |buf| > 0) {
        CacheFlush(fd.records, base, written, offset, buf);
        fd.WriteBuffer(offset, buf);
        offset, buf := offset + |buf|, [];
      }
      if !sync {
        buf, written := buf + data, written + data;
      }
    }
  }

  lemma SameLow(r0: seq<Record>, r1: seq<Record>, r2: seq<Record>, lo: nat, hi: nat, n: nat)
    requires SameBelow(r0, r1, n) || r0 == r1
    requires SameOutside(r1, r2, lo, hi) || r1 == r2
    requires n <= lo || lo == hi
    ensures SameBelow(r0, r2, n)
  {
  }

  /** The file holds what was written, but for what is in the buffer. */
  ghost predicate CacheOk(records: seq<Record>, base: nat, written: seq<Octet>, offset: nat, buf: seq<Octet>) {
    && |buf| <= |written| && offset == base + |written| - |buf| && written[|written| - |buf|..] == buf
    && Holds(records, base, written[..|written| - |buf|])
  }

  lemma CacheFlush(records: seq<Record>, base: nat, written: seq<Octet>, offset: nat, buf: seq<Octet>)
    requires CacheOk(records, base, written, offset, buf)
    ensures CacheOk(records + [Record(offset, buf)], base, written, base + |written|, [])
    ensures SameOutside(records, records + [Record(offset, buf)], base, base + |written|)
  {
    hide Holds, At;
    var n := |written| - |buf|;
    var r := records + [Record(offset, buf)];
    WriteHolds(records, Record(offset, buf));
    HoldsKept(records, r, offset, offset + |buf|, base, written[..n]);
    HoldsJoin(r, base, written[..n], buf);
    assert written[..n] + buf == written == written[..|written|];
  }

  lemma SameRefl(records: seq<Record>, lo: nat, hi: nat)
    ensures SameOutside(records, records, lo, hi)
  {
  }

  ghost predicate SameBelow(records: seq<Record>, records': seq<Record>, n: nat) {
    forall a: nat :: a < n ==> At(records', a) == At(records, a)
  }

  /** The descriptors written so far and the data they point at. */
  ghost predicate PagesHeld(descs: seq<Octet>, base: nat, data: seq<Octet>, ds: seq<Desc>, pages: seq<GuestPage>,
                            ram: nat -> Octet,
                            e: Endian, expand: (Compression, seq<Octet>) -> seq<Octet>)
  {
    && |descs| == DESC_SIZE * |ds| && |ds| <= |pages|
    && (PAGE_SIZE <= |data| && data[..PAGE_SIZE] == ZeroPage())
    && forall k :: 0 <= k < |ds| ==>
         DescAt(descs, k, ds[k], e) && DataAt(base, data, ds[k], PageBytes(ram, pages[k].host), expand)
  }

  ghost predicate DescAt(descs: seq<Octet>, k: nat, d: Desc, e: Endian) {
    DESC_SIZE * (k + 1) <= |descs| && descs[DESC_SIZE * k..DESC_SIZE * (k + 1)] == PutDesc(d, e)
  }

  ghost predicate DataAt(base: nat, data: seq<Octet>, d: Desc, page: seq<Octet>,
                         expand: (Compression, seq<Octet>) -> seq<Octet>) {
    && base <= d.offset && d.offset - base + d.size <= |data| && d.size <= PAGE_SIZE && d.flags < 8 && d.pageFlags == 0
    && var bytes := data[d.offset - base..d.offset - base + d.size];
    Expanded(d.flags, bytes, expand) == page
  }

  lemma HeadersHold(records: seq<Record>, header: seq<Octet>, sub: seq<Octet>, note: seq<Octet>)
    requires |header| <= PAGE_SIZE
    ensures var r := records + [Record(0, header)] + [Record(PAGE_SIZE, sub)] + [Record(PAGE_SIZE + |sub|, note)];
            && SameOutside(records, r, 0, PAGE_SIZE + |sub| + |note|)
            && Holds(r, 0, header) && Holds(r, PAGE_SIZE, sub) && Holds(r, PAGE_SIZE + |sub|, note)
  {
    hide At, Holds;
    var r1 := records + [Record(0, header)];
    var r2 := r1 + [Record(PAGE_SIZE, sub)];
    var r3 := r2 + [Record(PAGE_SIZE + |sub|, note)];
    WriteHolds(records, Record(0, header));
    WriteHolds(r1, Record(PAGE_SIZE, sub));
    WriteHolds(r2, Record(PAGE_SIZE + |sub|, note));
    HoldsKept(r1, r2, PAGE_SIZE, PAGE_SIZE + |sub|, 0, header);
    HoldsKept(r2, r3, PAGE_SIZE + |sub|, PAGE_SIZE + |sub| + |note|, 0, header);
    HoldsKept(r2, r3, PAGE_SIZE + |sub|, PAGE_SIZE + |sub| + |note|, PAGE_SIZE, sub);
  }

  /** The headers end before the bitmaps. */
  lemma HeadersStay(records: seq<Record>, records': seq<Record>, lo: nat, hi: nat, header: seq<Octet>, sub: seq<Octet>,
                    note: seq<Octet>)
    requires Holds(records, 0, header) && Holds(records, PAGE_SIZE, sub) && Holds(records, PAGE_SIZE + |sub|, note)
    requires SameOutside(records, records', lo, hi) && |header| <= lo && PAGE_SIZE + |sub| + |note| <= lo
    ensures Holds(records', 0, header) && Holds(records', PAGE_SIZE, sub) && Holds(records', PAGE_SIZE + |sub|, note)
  {
    hide Holds, SameOutside;
    HoldsKept(records, records', lo, hi, 0, header);
    HoldsKept(records, records', lo, hi, PAGE_SIZE, sub);
    HoldsKept(records, records', lo, hi, PAGE_SIZE + |sub|, note);
  }

  lemma HeadersBelow(records: seq<Record>, records': seq<Record>, n: nat, header: seq<Octet>, sub: seq<Octet>,
                     note: seq<Octet>)
    requires Holds(records, 0, header) && Holds(records, PAGE_SIZE, sub) && Holds(records, PAGE_SIZE + |sub|, note)
    requires (forall a: nat :: a < n ==> At(records', a) == At(records, a))
    requires |header| <= n && PAGE_SIZE + |sub| + |note| <= n
    ensures Holds(records', 0, header) && Holds(records', PAGE_SIZE, sub) && Holds(records', PAGE_SIZE + |sub|, note)
  {
    hide At;
  }

  lemma GuestListed(blocks: seq<GuestBlock>, q: nat)
    requires BlocksOk(blocks)
    ensures InGuest(blocks, q) <==> q in Pfns(Pages(blocks), |Pages(blocks)|)
  {
    hide Pages, InGuest;
    ListedIff(blocks, q);
  }

  lemma SameWider(records: seq<Record>, records': seq<Record>, hi: nat, hi': nat)
    requires SameOutside(records, records', 0, hi) && hi <= hi'
    ensures SameOutside(records, records', 0, hi')
  {
  }

  lemma PagesStart(base: nat, pages: seq<GuestPage>, ram: nat -> Octet, e: Endian,
                   expand: (Compression, seq<Octet>) -> seq<Octet>)
    ensures PagesHeld([], base, [] + ZeroPage(), [], pages, ram, e, expand)
  {
    assert ([] + ZeroPage())[..PAGE_SIZE] == ZeroPage();
  }

  lemma PagesZero(descs: seq<Octet>, base: nat, data: seq<Octet>, ds: seq<Desc>, pages: seq<GuestPage>,
                  ram: nat -> Octet,
                  e: Endian, expand: (Compression, seq<Octet>) -> seq<Octet>)
    requires PagesHeld(descs, base, data, ds, pages, ram, e, expand)
    ensures PAGE_SIZE <= |data| && data[..PAGE_SIZE] == ZeroPage() && |descs| == DESC_SIZE * |ds|
  {
  }

  lemma PagesMore(descs: seq<Octet>, base: nat, data: seq<Octet>, ds: seq<Desc>, pages: seq<GuestPage>,
                  ram: nat -> Octet,
                  e: Endian, expand: (Compression, seq<Octet>) -> seq<Octet>, bytes: seq<Octet>, d: Desc)
    requires PagesHeld(descs, base, data, ds, pages, ram, e, expand) && |ds| < |pages|
    requires DataAt(base, data + bytes, d, PageBytes(ram, pages[|ds|].host), expand)
    ensures PagesHeld(descs + PutDesc(d, e), base, data + bytes, ds + [d], pages, ram, e, expand)
  {
    hide PutDesc, PageBytes, ZeroPage;
    var descs', data', ds' := descs + PutDesc(d, e), data + bytes, ds + [d];
    assert data'[..PAGE_SIZE] == data[..PAGE_SIZE];
    forall k | 0 <= k < |ds'|
      ensures DescAt(descs', k, ds'[k], e) && DataAt(base, data', ds'[k], PageBytes(ram, pages[k].host), expand)
    {
      if k < |ds| {
        Longer(descs, PutDesc(d, e), k, ds[k], e);
        DataLonger(base, data, bytes, ds[k], PageBytes(ram, pages[k].host), expand);
      } else {
        assert descs'[DESC_SIZE * k..DESC_SIZE * (k + 1)] == PutDesc(d, e);
      }
    }
  }

  lemma Longer(descs: seq<Octet>, more: seq<Octet>, k: nat, d: Desc, e: Endian)
    requires DescAt(descs, k, d, e)
    ensures DescAt(descs + more, k, d, e)
  {
    hide PutDesc;
    assert (descs + more)[DESC_SIZE * k..DESC_SIZE * (k + 1)] == descs[DESC_SIZE * k..DESC_SIZE * (k + 1)];
  }

  lemma DataLonger(base: nat, data: seq<Octet>, more: seq<Octet>, d: Desc, page: seq<Octet>,
                   expand: (Compression, seq<Octet>) -> seq<Octet>)
    requires DataAt(base, data, d, page, expand)
    ensures DataAt(base, data + more, d, page, expand)
  {
    assert (data + more)[d.offset - base..d.offset - base + d.size] == data[d.offset - base..d.offset - base + d.size];
  }

  lemma PageHeld(records: seq<Record>, start: nat, descs: seq<Octet>, base: nat, data: seq<Octet>, ds: seq<Desc>,
                 pages: seq<GuestPage>,
                 ram: nat -> Octet, e: Endian, expand: (Compression, seq<Octet>) -> seq<Octet>, k: nat)
    requires PagesHeld(descs, base, data, ds, pages, ram, e, expand) && k < |ds|
    requires Holds(records, start, descs) && Holds(records, base, data) && base + |data| < 0x1_0000_0000_0000_0000
    ensures ReadPage(records, start, k, e, expand) == Some(PageBytes(ram, pages[k].host))
  {
    hide Holds, PutDesc, ReadPage, PageBytes, ZeroPage, Power;
    var d, o := ds[k], ds[k].offset - base;
    assert DescAt(descs, k, d, e) && DataAt(base, data, d, PageBytes(ram, pages[k].host), expand);
    HoldsPart(records, start, descs, DESC_SIZE * k, DESC_SIZE);
    HoldsPart(records, base, data, o, d.size);
    Powers();
    PageReads(records, start, k, e, expand, d, data[o..o + d.size]);
  }
}
