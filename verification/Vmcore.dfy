/** The flattened file of a kdump-compressed dump: every write is a record with the offset it is meant for
    (qemu-2.0/dump.c).  What is in the file at an offset is what the last record for it says. */
module Vmcore {
  import opened Numbers
  import opened Values

  datatype Record = Record(offset: nat, data: seq<Octet>) {
    predicate Covers(a: nat) { offset <= a < offset + |data| }
  }

  /** The byte of the file at an offset. */
  function At(records: seq<Record>, a: nat): Option<Octet> {
    if records == [] then None
    else
      var last := records[|records| - 1];
      if last.Covers(a) then Some(last.data[a - last.offset]) else At(records[..|records| - 1], a)
  }

  lemma AtAppend(records: seq<Record>, r: Record, a: nat)
    ensures At(records + [r], a) == if r.Covers(a) then Some(r.data[a - r.offset]) else At(records, a)
  {
    assert (records + [r])[..|records|] == records;
  }

  /** The file holds the bytes from an offset on. */
  ghost predicate Holds(records: seq<Record>, a: nat, s: seq<Octet>) {
    forall k :: a <= k < a + |s| ==> At(records, k) == Some(s[k - a])
  }

  /** Nothing outside [lo, hi) has changed in the file. */
  ghost predicate SameOutside(records: seq<Record>, records': seq<Record>, lo: nat, hi: nat) {
    forall a: nat :: !(lo <= a < hi) ==> At(records', a) == At(records, a)
  }

  lemma WriteHolds(records: seq<Record>, r: Record)
    ensures Holds(records + [r], r.offset, r.data)
    ensures SameOutside(records, records + [r], r.offset, r.offset + |r.data|)
  {
    forall a: nat ensures At(records + [r], a) == if r.Covers(a) then Some(r.data[a - r.offset]) else At(records, a) {
      AtAppend(records, r, a);
    }
  }

  lemma HoldsKept(records: seq<Record>, records': seq<Record>, lo: nat, hi: nat, a: nat, s: seq<Octet>)
    requires Holds(records, a, s) && SameOutside(records, records', lo, hi) && (a + |s| <= lo || hi <= a)
    ensures Holds(records', a, s)
  {
    forall k | a <= k < a + |s| ensures At(records', k) == Some(s[k - a]) {
      assert !(lo <= k < hi);
    }
  }

  lemma HoldsJoin(records: seq<Record>, a: nat, s: seq<Octet>, t: seq<Octet>)
    requires Holds(records, a, s) && Holds(records, a + |s|, t)
    ensures Holds(records, a, s + t)
  {
  }

  lemma HoldsPart(records: seq<Record>, a: nat, s: seq<Octet>, i: nat, n: nat)
    requires Holds(records, a, s) && i + n <= |s|
    ensures Holds(records, a + i, s[i..i + n])
  {
  }

  lemma SameTrans(r0: seq<Record>, r1: seq<Record>, r2: seq<Record>, lo: nat, hi: nat)
    requires SameOutside(r0, r1, lo, hi) && SameOutside(r1, r2, lo, hi)
    ensures SameOutside(r0, r2, lo, hi)
  {
  }

  // Reading the file.

  function ReadData(records: seq<Record>, a: nat, n: nat): Option<seq<Octet>> {
    if n == 0 then Some([])
    else
      match (ReadData(records, a, n - 1), At(records, a + n - 1))
      case (Some(s), Some(b)) => Some(s + [b])
      case _ => None
  }

  lemma {:induction false} ReadHeld(records: seq<Record>, a: nat, s: seq<Octet>)
    requires Holds(records, a, s)
    ensures ReadData(records, a, |s|) == Some(s)
  {
    if s != [] {
      var n := |s| - 1;
      HoldsPart(records, a, s, 0, n);
      ReadHeld(records, a, s[0..n]);
      assert s[0..n] + [s[n]] == s;
    }
  }

  /** A page descriptor. */
  datatype Desc = Desc(offset: nat, size: nat, flags: nat, pageFlags: nat)

  const DESC_SIZE: nat := 24

  predicate DescFits(d: Desc) {
    d.offset < Power(8) && d.size < Power(4) && d.flags < Power(4) && d.pageFlags < Power(8)
  }

  function PutDesc(d: Desc, e: Endian): (s: seq<Octet>)
    ensures |s| == DESC_SIZE
  {
    Put(d.offset, 8, e) + Put(d.size, 4, e) + Put(d.flags, 4, e) + Put(d.pageFlags, 8, e)
  }

  function GetDesc(s: seq<Octet>, e: Endian): Desc
    requires |s| == DESC_SIZE
  {
    Desc(Get(s[..8], e), Get(s[8..12], e), Get(s[12..16], e), Get(s[16..], e))
  }

  lemma GetPutDesc(d: Desc, e: Endian)
    requires DescFits(d)
    ensures GetDesc(PutDesc(d, e), e) == d
  {
    hide Put, Get, Power;
    var s := PutDesc(d, e);
    assert s[..8] == Put(d.offset, 8, e);
    assert s[8..12] == Put(d.size, 4, e);
    assert s[12..16] == Put(d.flags, 4, e);
    assert s[16..] == Put(d.pageFlags, 8, e);
    GetPut(d.offset, 8, e);
    GetPut(d.size, 4, e);
    GetPut(d.flags, 4, e);
    GetPut(d.pageFlags, 8, e);
  }

  datatype Compression = Zlib | Lzo | Snappy

  /** How a reader of the file takes the data of a page with the flags. */
  function Expanded(flags: nat, data: seq<Octet>, expand: (Compression, seq<Octet>) -> seq<Octet>): seq<Octet> {
    if flags == 1 then expand(Zlib, data)
    else if flags == 2 then expand(Lzo, data)
    else if flags == 4 then expand(Snappy, data)
    else data
  }

  /** The k-th page of the file, whose descriptors begin at `start`; compressed pages are expanded. */
  function ReadPage(records: seq<Record>, start: nat, k: nat, e: Endian,
                    expand: (Compression, seq<Octet>) -> seq<Octet>): Option<seq<Octet>> {
    match ReadData(records, start + DESC_SIZE * k, DESC_SIZE)
    case None => None
    case Some(s) =>
      if |s| != DESC_SIZE then None
      else
        var d := GetDesc(s, e);
        match ReadData(records, d.offset, d.size)
        case None => None
        case Some(data) => Some(Expanded(d.flags, data, expand))
  }

  lemma PageReads(records: seq<Record>, start: nat, k: nat, e: Endian, expand: (Compression, seq<Octet>) -> seq<Octet>,
                  d: Desc, data: seq<Octet>)
    requires DescFits(d) && d.size == |data| && Holds(records, start + DESC_SIZE * k, PutDesc(d, e))
    requires Holds(records, d.offset, data)
    ensures ReadPage(records, start, k, e, expand) == Some(Expanded(d.flags, data, expand))
  {
    hide Holds, ReadData, PutDesc, GetDesc, DescFits;
    ReadHeld(records, start + DESC_SIZE * k, PutDesc(d, e));
    ReadHeld(records, d.offset, data);
    GetPutDesc(d, e);
  }
}
