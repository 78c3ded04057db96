/** The ELF writer of guest memory (qemu-2.0/dump.c): program headers are computed before the memory they point at
    is written. */
module ElfDump {
  import opened GuestBlocks
  import opened Numbers
  import opened Values

  const TARGET_PAGE_SIZE: nat := 4096
  const UINT16_MAX: nat := 0xFFFF
  const UINT32_MAX: nat := 0xFFFF_FFFF

  datatype ElfClass = Elf32 | Elf64

  function EhdrSize(c: ElfClass): nat { if c.Elf64? then 64 else 52 }
  function PhdrSize(c: ElfClass): nat { if c.Elf64? then 56 else 32 }
  function ShdrSize(c: ElfClass): nat { if c.Elf64? then 64 else 40 }

  /** Too many mappings for e_phnum: the count goes into a section header. */
  predicate HaveSection(num: nat) { num >= UINT16_MAX - 2 }

  function ShInfo(num: nat): nat { if num <= UINT32_MAX - 1 then 1 + num else UINT32_MAX }

  /** Where dump_init says that memory begins in the file. */
  function MemoryOffset(c: ElfClass, num: nat, noteSize: nat): nat {
    if HaveSection(num) then EhdrSize(c) + PhdrSize(c) * ShInfo(num) + ShdrSize(c) + noteSize
    else EhdrSize(c) + PhdrSize(c) * (1 + num) + noteSize
  }

  /** Where the k-th program header is; the first one is PT_NOTE. */
  function PhdrAt(c: ElfClass, k: nat): nat { EhdrSize(c) + PhdrSize(c) * k }

  lemma PhdrNext(c: ElfClass, k: nat)
    ensures PhdrAt(c, k + 1) == PhdrAt(c, k) + PhdrSize(c)
  {
  }

  /** Where memory begins, in figures: with one mapping and no notes, and with as many as need a section header. */
  lemma MemoryBegins()
    ensures MemoryOffset(Elf64, 1, 0) == 176 && MemoryOffset(Elf32, 1, 0) == 116
    ensures MemoryOffset(Elf64, 65533, 0) == 3670032 && MemoryOffset(Elf32, 65533, 0) == 2097180
    ensures MemoryOffset(Elf64, 65532, 0) == 3669912 && MemoryOffset(Elf32, 65532, 0) == 2097108
  {
  }

  /** The headers of the file that the encoder writes byte by byte. */
  datatype Headers = Headers(ehdr: seq<Octet>, note: seq<Octet>, shdr: seq<Octet>, notes: seq<Octet>)

  predicate HeadersOk(h: Headers, c: ElfClass) {
    |h.ehdr| == EhdrSize(c) && |h.note| == PhdrSize(c) && |h.shdr| == ShdrSize(c)
  }

  /** A PT_LOAD program header; offset -1 is not in the file. */
  datatype Load = Load(paddr: nat, vaddr: nat, offset: int, filesz: nat, memsz: nat)

  const PT_LOAD: nat := 1

  /** How many bytes an address or a size takes in a program header. */
  function Width(c: ElfClass): nat { if c.Elf64? then 8 else 4 }

  /** cpu_convert_to_target32 or 64: what does not fit is cut off. */
  function Field(n: nat, c: ElfClass, e: Endian): (s: seq<Octet>)
    ensures |s| == Width(c)
  {
    Put(n % Power(Width(c)), Width(c), e)
  }

  /** A file offset as a hwaddr. */
  function Unsigned(offset: int): nat { if offset < 0 then 0xFFFF_FFFF_FFFF_FFFF else offset }

  /** What comes before the offset: the type and, in a 64-bit header, the flags. */
  function Before(c: ElfClass, e: Endian): seq<Octet> { Put(PT_LOAD, 4, e) + if c.Elf64? then Put(0, 4, e) else [] }

  /** write_elf64_load and write_elf32_load; last come the alignment and, in a 32-bit header, before it the flags. */
  function PutLoad(l: Load, c: ElfClass, e: Endian): (s: seq<Octet>)
    ensures |s| == PhdrSize(c)
  {
    Before(c, e) + Field(Unsigned(l.offset), c, e) + Field(l.vaddr, c, e) + Field(l.paddr, c, e)
    + Field(l.filesz, c, e) + Field(l.memsz, c, e) + Put(0, 8, e)
  }

  /** The k-th address or size in a program header. */
  function GetField(s: seq<Octet>, k: nat, c: ElfClass, e: Endian): nat
    requires |s| == PhdrSize(c) && k < 5
  {
    var w := Width(c);
    Get(s[w * (k + 1)..w * (k + 2)], e)
  }

  /** The program header as a reader of the file understands it. */
  function GetLoad(s: seq<Octet>, c: ElfClass, e: Endian): Load
    requires |s| == PhdrSize(c)
  {
    var offset := GetField(s, 0, c, e);
    Load(GetField(s, 2, c, e), GetField(s, 1, c, e), if offset == Power(Width(c)) - 1 then -1 else offset,
         GetField(s, 3, c, e), GetField(s, 4, c, e))
  }

  /** The header says that it is a PT_LOAD. */
  predicate IsLoad(s: seq<Octet>, e: Endian) { |s| >= 4 && Get(s[..4], e) == 1 }

  /** Every field fits, and no real offset looks like -1. */
  predicate LoadFits(l: Load, c: ElfClass) {
    var most := Power(Width(c));
    && l.paddr < most && l.vaddr < most && l.filesz < most && l.memsz < most
    && (l.offset == -1 || 0 <= l.offset < most - 1)
  }

  /** Fields of the same width, one after the other. */
  lemma FieldsApart(before: seq<Octet>, f0: seq<Octet>, f1: seq<Octet>, f2: seq<Octet>, f3: seq<Octet>, f4: seq<Octet>,
                    after: seq<Octet>, w: nat)
    requires w == |before| == |f0| == |f1| == |f2| == |f3| == |f4|
    ensures var s := before + f0 + f1 + f2 + f3 + f4 + after;
            && s[w..w * 2] == f0 && s[w * 2..w * 3] == f1 && s[w * 3..w * 4] == f2 && s[w * 4..w * 5] == f3
            && s[w * 5..w * 6] == f4
  {
  }

  lemma PutFields(l: Load, c: ElfClass, e: Endian)
    ensures var s := PutLoad(l, c, e); var most := Power(Width(c));
            && GetField(s, 0, c, e) == Unsigned(l.offset) % most && GetField(s, 1, c, e) == l.vaddr % most
            && GetField(s, 2, c, e) == l.paddr % most && GetField(s, 3, c, e) == l.filesz % most
            && GetField(s, 4, c, e) == l.memsz % most
  {
    hide Put, Get, Power;
    var s, w := PutLoad(l, c, e), Width(c);
    var most := Power(w);
    FieldsApart(Before(c, e), Field(Unsigned(l.offset), c, e), Field(l.vaddr, c, e), Field(l.paddr, c, e),
                Field(l.filesz, c, e), Field(l.memsz, c, e), Put(0, 8, e), w);
    GetPut(Unsigned(l.offset) % most, w, e);
    GetPut(l.vaddr % most, w, e);
    GetPut(l.paddr % most, w, e);
    GetPut(l.filesz % most, w, e);
    GetPut(l.memsz % most, w, e);
  }

  /** A program header reads back exactly when its class has room for it. */
  lemma LoadReadsBack(l: Load, c: ElfClass, e: Endian)
    requires l.offset >= -1
    ensures GetLoad(PutLoad(l, c, e), c, e) == l <==> LoadFits(l, c)
    ensures IsLoad(PutLoad(l, c, e), e)
  {
    hide Power, PutLoad, GetField, IsLoad;
    PutFields(l, c, e);
    PutType(l, c, e);
    Powers();
  }

  lemma PutType(l: Load, c: ElfClass, e: Endian)
    ensures IsLoad(PutLoad(l, c, e), e)
  {
    hide Put, Get, Power, Field;
    assert PutLoad(l, c, e)[..4] == Put(PT_LOAD, 4, e);
    Powers();
    GetPut(PT_LOAD, 4, e);
  }

  /** The program header after PT_NOTE and k loads holds the (k+1)-th load. */
  ghost predicate LoadsAt(file: seq<Octet>, c: ElfClass, e: Endian, loads: seq<Load>) {
    && PhdrAt(c, 1 + |loads|) <= |file|
    && forall k :: 0 <= k < |loads| ==> PhdrHolds(file, c, k, PutLoad(loads[k], c, e))
  }

  ghost predicate PhdrHolds(file: seq<Octet>, c: ElfClass, k: nat, bytes: seq<Octet>) {
    PhdrAt(c, k + 2) <= |file| && file[PhdrAt(c, k + 1)..PhdrAt(c, k + 2)] == bytes
  }

  lemma LoadsKept(file: seq<Octet>, more: seq<Octet>, c: ElfClass, e: Endian, loads: seq<Load>)
    requires LoadsAt(file, c, e, loads)
    ensures LoadsAt(file + more, c, e, loads)
  {
    hide PhdrAt, PutLoad;
    forall k | 0 <= k < |loads| ensures PhdrHolds(file + more, c, k, PutLoad(loads[k], c, e)) {
      assert PhdrHolds(file, c, k, PutLoad(loads[k], c, e));
      PhdrOrder(c, k);
      assert (file + more)[PhdrAt(c, k + 1)..PhdrAt(c, k + 2)] == file[PhdrAt(c, k + 1)..PhdrAt(c, k + 2)];
    }
  }

  lemma PhdrOrder(c: ElfClass, k: nat)
    ensures PhdrAt(c, k + 1) <= PhdrAt(c, k + 2)
  {
  }

  lemma LoadsMore(file: seq<Octet>, c: ElfClass, e: Endian, loads: seq<Load>, l: Load)
    requires LoadsAt(file, c, e, loads) && |file| == PhdrAt(c, 1 + |loads|)
    ensures LoadsAt(file + PutLoad(l, c, e), c, e, loads + [l])
    ensures |file + PutLoad(l, c, e)| == PhdrAt(c, 2 + |loads|)
  {
    hide PhdrAt, PutLoad;
    var bytes := PutLoad(l, c, e);
    LoadsKept(file, bytes, c, e, loads);
    PhdrNext(c, 1 + |loads|);
    assert PhdrAt(c, |loads| + 1) == |file| && PhdrAt(c, |loads| + 2) == |file| + |bytes|;
    assert (file + bytes)[|file|..|file| + |bytes|] == bytes;
    assert PhdrHolds(file + bytes, c, |loads|, bytes);
  }

  /** The k-th load as a reader of the file understands it. */
  function ReadLoad(file: seq<Octet>, c: ElfClass, e: Endian, k: nat): Option<Load> {
    if PhdrAt(c, k + 1) + PhdrSize(c) > |file| then None
    else
      var s := file[PhdrAt(c, k + 1)..PhdrAt(c, k + 1) + PhdrSize(c)];
      if IsLoad(s, e) then Some(GetLoad(s, c, e)) else None
  }

  lemma LoadRead(file: seq<Octet>, c: ElfClass, e: Endian, loads: seq<Load>, k: nat)
    requires LoadsAt(file, c, e, loads) && k < |loads| && loads[k].offset >= -1
    ensures ReadLoad(file, c, e, k) == Some(loads[k]) <==> LoadFits(loads[k], c)
  {
    hide PhdrAt, PhdrSize, PutLoad, GetLoad, LoadFits, IsLoad;
    assert PhdrHolds(file, c, k, PutLoad(loads[k], c, e));
    PhdrNext(c, k + 1);
    LoadReadsBack(loads[k], c, e);
  }

  /** Which guest-physical addresses to dump. */
  datatype Filter = All | Range(begin: nat, length: nat)

  predicate Chosen(f: Filter, p: nat) { f.Range? ==> f.begin <= p < f.begin + f.length }

  /** The block is out of the range. */
  predicate OutOf(b: GuestBlock, f: Filter) {
    f.Range? && (b.start >= f.begin + f.length || b.end <= f.begin)
  }

  function Lo(b: GuestBlock, f: Filter): nat { if f.Range? && f.begin > b.start then f.begin else b.start }

  function Hi(b: GuestBlock, f: Filter): nat {
    if f.Range? && f.begin + f.length < b.end then f.begin + f.length else b.end
  }

  lemma OutOfIs(b: GuestBlock, f: Filter)
    requires b.start < b.end && (f.Range? ==> f.length > 0)
    ensures OutOf(b, f) <==> forall p: nat :: b.start <= p < b.end ==> !Chosen(f, p)
  {
    if !OutOf(b, f) {
      assert b.start <= Lo(b, f) < b.end && Chosen(f, Lo(b, f));
    }
  }

  /** How far into the block the dump of it starts. */
  function StartIn(b: GuestBlock, f: Filter): nat { if f.Range? && f.begin > b.start then f.begin - b.start else 0 }

  /** Host memory [host, host + n). */
  function Bytes(ram: nat -> Octet, host: nat, n: nat): (s: seq<Octet>)
    ensures |s| == n
  {
    seq(n, i requires 0 <= i => ram(host + i))
  }

  lemma BytesJoin(ram: nat -> Octet, host: nat, m: nat, n: nat)
    ensures Bytes(ram, host, m) + Bytes(ram, host + m, n) == Bytes(ram, host, m + n)
  {
  }

  /** What of the block is dumped. */
  function Part(b: GuestBlock, f: Filter, ram: nat -> Octet): (s: seq<Octet>)
    requires b.start < b.end
    ensures |s| == if OutOf(b, f) then 0 else Hi(b, f) - Lo(b, f)
  {
    if OutOf(b, f) then [] else Bytes(ram, HostIn(b, Lo(b, f)), Hi(b, f) - Lo(b, f))
  }

  /** What of all the blocks is dumped, in order. */
  function Image(blocks: seq<GuestBlock>, f: Filter, ram: nat -> Octet): seq<Octet>
    requires forall i :: 0 <= i < |blocks| ==> blocks[i].start < blocks[i].end
  {
    if blocks == [] then []
    else Image(blocks[..|blocks| - 1], f, ram) + Part(blocks[|blocks| - 1], f, ram)
  }

  lemma ImageNone(f: Filter, ram: nat -> Octet)
    ensures Image([], f, ram) == []
  {
  }

  lemma ImageNext(blocks: seq<GuestBlock>, f: Filter, ram: nat -> Octet, i: nat)
    requires i < |blocks| && forall i :: 0 <= i < |blocks| ==> blocks[i].start < blocks[i].end
    ensures Image(blocks[..i + 1], f, ram) == Image(blocks[..i], f, ram) + Part(blocks[i], f, ram)
  {
    assert blocks[..i + 1][..i] == blocks[..i];
  }

  /** The part of block i lies in the image where the parts before it end. */
  lemma ImagePart(blocks: seq<GuestBlock>, f: Filter, ram: nat -> Octet, i: nat, n: nat)
    requires i < n <= |blocks| && forall i :: 0 <= i < |blocks| ==> blocks[i].start < blocks[i].end
    ensures var o := |Image(blocks[..i], f, ram)|; var part := Part(blocks[i], f, ram);
            o + |part| <= |Image(blocks[..n], f, ram)| && Image(blocks[..n], f, ram)[o..o + |part|] == part
    decreases n
  {
    hide Part, Image;
    ImageNext(blocks, f, ram, n - 1);
    if i < n - 1 {
      ImagePart(blocks, f, ram, i, n - 1);
    }
  }

  /** The address is dumped: it is chosen and in a block. */
  ghost predicate Dumped(blocks: seq<GuestBlock>, f: Filter, p: nat) {
    Chosen(f, p) && exists i :: 0 <= i < |blocks| && InBlock(blocks[i], p)
  }

  /** The guest byte at guest-physical address p. */
  ghost predicate GuestByte(blocks: seq<GuestBlock>, ram: nat -> Octet, p: nat, b: Octet) {
    exists h: nat :: Maps(blocks, p, h) && ram(h) == b
  }

  /** The bytes are those of the guest from guest-physical address p on, all of them to be dumped. */
  ghost predicate GuestBytes(blocks: seq<GuestBlock>, f: Filter, ram: nat -> Octet, p: nat, s: seq<Octet>) {
    forall q: nat :: p <= q < p + |s| ==> Dumped(blocks, f, q) && GuestByte(blocks, ram, q, s[q - p])
  }

  datatype Mapping = Mapping(paddr: nat, vaddr: nat, length: nat)

  /** The header is for the mapping and as long as it can be: -1 and nothing exactly when the mapping's first address is
      not dumped, otherwise short only where the dumped part of the block that holds the address ends. */
  ghost predicate LoadFor(blocks: seq<GuestBlock>, f: Filter, m: Mapping, l: Load) {
    && l.paddr == m.paddr && l.vaddr == m.vaddr && l.memsz == m.length && l.filesz <= m.length && l.offset >= -1
    && (l.offset == -1 <==> !Dumped(blocks, f, m.paddr))
    && (l.offset == -1 ==> l.filesz == 0)
    && (l.offset != -1 && l.filesz < m.length ==>
          exists i :: 0 <= i < |blocks| && InBlock(blocks[i], m.paddr) && m.paddr + l.filesz == Hi(blocks[i], f))
  }

  /** The header says the truth about the image, which begins at `base` in the file. */
  ghost predicate LoadOk(blocks: seq<GuestBlock>, f: Filter, ram: nat -> Octet, base: nat, m: Mapping, l: Load)
    requires forall i :: 0 <= i < |blocks| ==> blocks[i].start < blocks[i].end
  {
    var image := Image(blocks, f, ram);
    && LoadFor(blocks, f, m, l)
    && (l.offset != -1 ==>
          && base <= l.offset && l.offset - base + l.filesz <= |image|
          && GuestBytes(blocks, f, ram, m.paddr, image[l.offset - base..l.offset - base + l.filesz]))
  }

  /** get_offset_range at the block that holds the address. */
  lemma RangeFound(blocks: seq<GuestBlock>, f: Filter, ram: nat -> Octet, base: nat, m: Mapping, i: nat, l: Load)
    requires Ascending(blocks) && i < |blocks| && !OutOf(blocks[i], f) && Chosen(f, m.paddr)
    requires Lo(blocks[i], f) <= m.paddr < Hi(blocks[i], f)
    requires l == Load(m.paddr, m.vaddr, m.paddr - Lo(blocks[i], f) + base + |Image(blocks[..i], f, ram)|,
                       if m.paddr + m.length <= Hi(blocks[i], f) then m.length else Hi(blocks[i], f) - m.paddr,
                       m.length)
    ensures LoadOk(blocks, f, ram, base, m, l)
  {
    hide Image, Part, GuestBytes;
    var b, o := blocks[i], |Image(blocks[..i], f, ram)|;
    var part, image := Part(b, f, ram), Image(blocks, f, ram);
    assert blocks[..|blocks|] == blocks;
    ImagePart(blocks, f, ram, i, |blocks|);
    assert InBlock(b, m.paddr);
    PartBytes(blocks, f, ram, i);
    var j := m.paddr - Lo(b, f);
    SomeBytes(blocks, f, ram, Lo(b, f), part, j, l.filesz);
    Slice(image, o, |part|, j, l.filesz);
  }

  lemma Slice(s: seq<Octet>, o: nat, n: nat, j: nat, m: nat)
    requires o + n <= |s| && j + m <= n
    ensures s[o..o + n][j..j + m] == s[j + o..j + o + m]
  {
    var t, u := s[o..o + n][j..j + m], s[j + o..j + o + m];
    assert forall k :: 0 <= k < m ==> t[k] == u[k];
  }

  lemma PartBytes(blocks: seq<GuestBlock>, f: Filter, ram: nat -> Octet, i: nat)
    requires Ascending(blocks) && i < |blocks| && !OutOf(blocks[i], f)
    ensures GuestBytes(blocks, f, ram, Lo(blocks[i], f), Part(blocks[i], f, ram))
  {
    hide Dumped, GuestByte, Part;
    forall q: nat | Lo(blocks[i], f) <= q < Lo(blocks[i], f) + |Part(blocks[i], f, ram)|
      ensures Dumped(blocks, f, q) && GuestByte(blocks, ram, q, Part(blocks[i], f, ram)[q - Lo(blocks[i], f)])
    {
      PartByte(blocks, f, ram, i, q);
    }
  }

  lemma PartByte(blocks: seq<GuestBlock>, f: Filter, ram: nat -> Octet, i: nat, q: nat)
    requires Ascending(blocks) && i < |blocks| && !OutOf(blocks[i], f) && Lo(blocks[i], f) <= q < Hi(blocks[i], f)
    ensures Dumped(blocks, f, q) && GuestByte(blocks, ram, q, Part(blocks[i], f, ram)[q - Lo(blocks[i], f)])
  {
    var h: nat := HostIn(blocks[i], q);
    assert InBlock(blocks[i], q) && Maps(blocks, q, h);
  }

  lemma SomeBytes(blocks: seq<GuestBlock>, f: Filter, ram: nat -> Octet, p: nat, s: seq<Octet>, j: nat, n: nat)
    requires GuestBytes(blocks, f, ram, p, s) && j + n <= |s|
    ensures GuestBytes(blocks, f, ram, p + j, s[j..j + n])
  {
    hide Dumped, GuestByte;
  }

  lemma NotDumped(blocks: seq<GuestBlock>, f: Filter, p: nat)
    requires !Chosen(f, p) || forall j :: 0 <= j < |blocks| ==> !InBlock(blocks[j], p)
    ensures !Dumped(blocks, f, p)
  {
  }

  class ElfDump {
    const blocks: seq<GuestBlock>
    const filter: Filter
    const ram: nat -> Octet
    var file: seq<Octet>
    var nextBlock: nat
    var start: nat

    constructor (blocks: seq<GuestBlock>, filter: Filter, ram: nat -> Octet)
      ensures this.blocks == blocks && this.filter == filter && this.ram == ram && file == []
    {
      this.blocks, this.filter, this.ram := blocks, filter, ram;
      file, nextBlock, start := [], 0, 0;
    }

    /** get_offset_range. */
    method GetOffsetRange(base: nat, m: Mapping) returns (l: Load)
      requires Ascending(blocks)
      ensures LoadOk(blocks, filter, ram, base, m, l)
    {
      hide Image, Part, GuestBytes, Dumped;
      l := Load(m.paddr, m.vaddr, -1, 0, m.length);
      if filter.Range? && (m.paddr < filter.begin || m.paddr >= filter.begin + filter.length) {
        NotDumped(blocks, filter, m.paddr);
        return;
      }
      var offset := base;
      var i := 0;
      assert blocks[..0] == [];
      ImageNone(filter, ram);
      while i < |blocks|
        invariant 0 <= i <= |blocks| && offset == base + |Image(blocks[..i], filter, ram)|
        invariant forall j :: 0 <= j < i ==> !InBlock(blocks[j], m.paddr)
      {
        ImageNext(blocks, filter, ram, i);
        var b := blocks[i];
        if OutOf(b, filter) {
          i := i + 1;
          continue;
        }
        var from := if filter.All? || filter.begin <= b.start then b.start else filter.begin;
        var size := b.end - from;
        if filter.Range? && filter.begin + filter.length < b.end {
          size := size - (b.end - (filter.begin + filter.length));
        }
        if m.paddr >= from && m.paddr < from + size {
          l := Load(m.paddr, m.vaddr, m.paddr - from + offset,
                    if m.paddr + m.length <= from + size then m.length else size - (m.paddr - from), m.length);
          RangeFound(blocks, filter, ram, base, m, i, l);
          return;
        }
        offset := offset + size;
        i := i + 1;
      }
      NotDumped(blocks, filter, m.paddr);
    }

    /** write_memory: page by page, then what is left. */
    method WriteMemory(b: GuestBlock, from: nat, size: nat)
      modifies this`file
      ensures file == old(file) + Bytes(ram, b.host + from, size)
    {
      hide Bytes;
      var i := 0;
      BytesNone(ram, b.host + from);
      while i < size / TARGET_PAGE_SIZE
        invariant 0 <= i <= size / TARGET_PAGE_SIZE
        invariant file == old(file) + Bytes(ram, b.host + from, i * TARGET_PAGE_SIZE)
      {
        file := file + Bytes(ram, b.host + from + i * TARGET_PAGE_SIZE, TARGET_PAGE_SIZE);
        BytesJoin(ram, b.host + from, i * TARGET_PAGE_SIZE, TARGET_PAGE_SIZE);
        i := i + 1;
      }
      if size % TARGET_PAGE_SIZE != 0 {
        file := file + Bytes(ram, b.host + from + i * TARGET_PAGE_SIZE, size % TARGET_PAGE_SIZE);
        BytesJoin(ram, b.host + from, i * TARGET_PAGE_SIZE, size % TARGET_PAGE_SIZE);
      }
    }

    /** get_start_block: false is its -1. */
    method GetStartBlock() returns (ok: bool)
      requires Ascending(blocks)
      modifies this`nextBlock, this`start
      ensures ok <==> filter.All? || exists i :: 0 <= i < |blocks| && !OutOf(blocks[i], filter)
      ensures ok && blocks != [] ==> AtBlock() && Image(blocks[..nextBlock], filter, ram) == []
    {
      if filter.All? {
        nextBlock, start, ok := 0, 0, true;
        return;
      }
      var i := 0;
      assert blocks[..0] == [];
      while i < |blocks|
        invariant 0 <= i <= |blocks| && Image(blocks[..i], filter, ram) == []
        invariant forall j :: 0 <= j < i ==> OutOf(blocks[j], filter)
      {
        ImageNext(blocks, filter, ram, i);
        if !OutOf(blocks[i], filter) {
          nextBlock := i;
          start := StartIn(blocks[i], filter);
          return true;
        }
        i := i + 1;
      }
      ok := false;
    }

    ghost predicate AtBlock()
      reads this
    {
      nextBlock < |blocks| && !OutOf(blocks[nextBlock], filter)
        && start == Lo(blocks[nextBlock], filter) - blocks[nextBlock].start
    }

    /** get_next_block: true when there is no more block. */
    method GetNextBlock() returns (done: bool)
      requires Ascending(blocks) && AtBlock()
      modifies this`nextBlock, this`start
      ensures !done ==> AtBlock() && nextBlock > old(nextBlock)
      ensures !done ==> Image(blocks[..nextBlock], filter, ram) == Image(blocks[..old(nextBlock) + 1], filter, ram)
      ensures done ==> Image(blocks, filter, ram) == Image(blocks[..old(nextBlock) + 1], filter, ram)
    {
      hide Image, Part;
      var i := nextBlock + 1;
      while i < |blocks|
        invariant old(nextBlock) < i <= |blocks|
        invariant Image(blocks[..i], filter, ram) == Image(blocks[..old(nextBlock) + 1], filter, ram)
      {
        start, nextBlock := 0, i;
        ImageNext(blocks, filter, ram, i);
        if !OutOf(blocks[i], filter) {
          start := StartIn(blocks[i], filter);
          return false;
        }
        i := i + 1;
      }
      assert blocks[..i] == blocks;
      return true;
    }

    /** dump_iterate: all of the image is appended to the file. */
    method DumpIterate()
      requires Ascending(blocks) && AtBlock() && Image(blocks[..nextBlock], filter, ram) == []
      modifies this
      ensures file == old(file) + Image(blocks, filter, ram)
    {
      hide Image, Bytes;
      var done := false;
      while !done
        invariant !done ==> AtBlock() && file == old(file) + Image(blocks[..nextBlock], filter, ram)
        invariant done ==> file == old(file) + Image(blocks, filter, ram)
        decreases !done, |blocks| - nextBlock
      {
        var b := blocks[nextBlock];
        var size: int := b.end - b.start;
        if filter.Range? {
          size := size - start;
          if filter.begin + filter.length < b.end {
            size := size - (b.end - (filter.begin + filter.length));
          }
        }
        ImageNext(blocks, filter, ram, nextBlock);
        WriteMemory(b, start, size);
        done := GetNextBlock();
      }
    }

    /** write_elf_loads. */
    method WriteElfLoads(c: ElfClass, e: Endian, base: nat, mappings: seq<Mapping>, maxIndex: nat)
      returns (loads: seq<Load>)
      requires Ascending(blocks) && |file| == PhdrAt(c, 1)
      requires mappings != [] ==> 1 < maxIndex <= 1 + |mappings|
      modifies this`file
      ensures |loads| == if mappings == [] then 0 else maxIndex - 1
      ensures |file| == PhdrAt(c, 1 + |loads|) && LoadsAt(file, c, e, loads) && old(file) <= file
      ensures forall k :: 0 <= k < |loads| ==> LoadOk(blocks, filter, ram, base, mappings[k], loads[k])
    {
      hide LoadOk, PutLoad, PhdrAt, PhdrSize, PhdrHolds;
      loads := [];
      var index := 1;
      while index - 1 < |mappings|
        invariant |loads| == index - 1 <= |mappings| && (mappings != [] ==> index < maxIndex)
        invariant |file| == PhdrAt(c, 1 + |loads|) && LoadsAt(file, c, e, loads) && old(file) <= file
        invariant forall k :: 0 <= k < |loads| ==> LoadOk(blocks, filter, ram, base, mappings[k], loads[k])
      {
        var l := GetOffsetRange(base, mappings[index - 1]);
        LoadsMore(file, c, e, loads, l);
        file := file + PutLoad(l, c, e);
        loads := loads + [l];
        index := index + 1;
        if index >= maxIndex {
          break;
        }
      }
    }

    /** create_vmcore, after dump_init: the memory of the guest follows the headers, and every program header says
        where in the file the bytes of its mapping are, to a reader of the file exactly when its class has room. */
    method CreateVmcore(c: ElfClass, e: Endian, h: Headers, mappings: seq<Mapping>)
      returns (ok: bool, loads: seq<Load>)
      requires Ascending(blocks) && (filter.All? ==> blocks != []) && file == [] && HeadersOk(h, c)
      requires |mappings| <= UINT32_MAX
      modifies this
      ensures ok <==> exists i :: 0 <= i < |blocks| && !OutOf(blocks[i], filter)
      ensures ok ==> |loads| == (if |mappings| == UINT32_MAX then UINT32_MAX - 1 else |mappings|)
      ensures ok ==> Layout(c, h, |mappings|)
      ensures ok ==> forall k :: 0 <= k < |loads| ==> InFile(mappings[k], loads[k])
      ensures ok ==> forall k :: 0 <= k < |loads| ==>
                       (ReadLoad(file, c, e, k) == Some(loads[k]) <==> LoadFits(loads[k], c))
    {
      hide LoadOk, PhdrAt, EhdrSize, PhdrSize, ShdrSize, Image, LoadsAt, InFile, ReadLoad, LoadFits;
      loads := [];
      ok := GetStartBlock();
      if !ok {
        return;
      }
      assert AtBlock() && !OutOf(blocks[nextBlock], filter);
      var base := MemoryOffset(c, |mappings|, |h.notes|);
      var maxIndex := if HaveSection(|mappings|) then ShInfo(|mappings|) else 1 + |mappings|;
      file := h.ehdr + h.note;
      FirstPhdr(c);
      loads := WriteElfLoads(c, e, base, mappings, maxIndex);
      PhdrTotal(c, |loads|);
      if HaveSection(|mappings|) {
        LoadsKept(file, h.shdr, c, e, loads);
        file := file + h.shdr;
      }
      LoadsKept(file, h.notes, c, e, loads);
      file := file + h.notes;
      assert |file| == base;
      ghost var head := file;
      LoadsKept(file, Image(blocks, filter, ram), c, e, loads);
      DumpIterate();
      forall k | 0 <= k < |loads|
        ensures InFile(mappings[k], loads[k])
        ensures ReadLoad(file, c, e, k) == Some(loads[k]) <==> LoadFits(loads[k], c)
      {
        Located(head, mappings[k], loads[k]);
        LoadRead(file, c, e, loads, k);
      }
    }

    /** The file starts with the ELF header and PT_NOTE; the notes, where PT_NOTE says they are, end where memory
        begins; all of the image follows, and nothing else. */
    ghost predicate Layout(c: ElfClass, h: Headers, num: nat)
      requires Ascending(blocks)
      reads this
    {
      var base := MemoryOffset(c, num, |h.notes|);
      h.ehdr + h.note <= file && |h.notes| <= base <= |file|
      && file[base - |h.notes|..base] == h.notes && file[base..] == Image(blocks, filter, ram)
    }

    /** The header is for the mapping, and the bytes of the file it points at are the guest's. */
    ghost predicate InFile(m: Mapping, l: Load)
      reads this
    {
      && LoadFor(blocks, filter, m, l)
      && (l.offset != -1 ==>
            && l.offset + l.filesz <= |file|
            && GuestBytes(blocks, filter, ram, m.paddr, file[l.offset..l.offset + l.filesz]))
    }

    lemma Located(head: seq<Octet>, m: Mapping, l: Load)
      requires Ascending(blocks) && file == head + Image(blocks, filter, ram)
      requires LoadOk(blocks, filter, ram, |head|, m, l)
      ensures InFile(m, l) && l.offset >= -1
    {
      hide Image, GuestBytes, Dumped;
      if l.offset != -1 {
        var image, o := Image(blocks, filter, ram), l.offset - |head|;
        assert file[l.offset..l.offset + l.filesz] == image[o..o + l.filesz];
      }
    }
  }

  lemma FirstPhdr(c: ElfClass)
    ensures PhdrAt(c, 1) == EhdrSize(c) + PhdrSize(c)
  {
  }

  lemma PhdrTotal(c: ElfClass, n: nat)
    ensures PhdrAt(c, 1 + n) == EhdrSize(c) + PhdrSize(c) * (1 + n)
  {
  }

  lemma BytesNone(ram: nat -> Octet, host: nat)
    ensures Bytes(ram, host, 0) == []
  {
  }
}
