/** Padding of unaligned reads and writes (qemu-2.0/block.c), for one request on its own. */
module BlockIo {
  import opened Arith
  import opened BlockRequests
  import opened Values

  const SECTOR: nat := 512

  class BlockDevice {
    /** What the driver returns at an address; after the end of the image this can be anything. */
    var content: nat -> Byte
    var length: nat
    const align: nat
    const growable: bool
    const zeroBeyondEof: bool

    constructor (content: nat -> Byte, length: nat, align: nat, growable: bool, zeroBeyondEof: bool)
      requires align > 0 && align % SECTOR == 0 && length % SECTOR == 0
      ensures Valid() && this.content == content && this.length == length && this.align == align
      ensures this.growable == growable && this.zeroBeyondEof == zeroBeyondEof
    {
      this.content, this.length, this.align := content, length, align;
      this.growable, this.zeroBeyondEof := growable, zeroBeyondEof;
    }

    ghost predicate Valid()
      reads this
    {
      align > 0 && align % SECTOR == 0 && length % SECTOR == 0
    }

    /** What a guest sees at an address: zeroes after the end of a growable image that asks for them. */
    function View(a: nat): Byte
      reads this
    {
      if a < length || !(growable && zeroBeyondEof) then content(a) else 0
    }

    method DriverRead(offset: nat, bytes: nat) returns (buf: seq<Byte>)
      ensures |buf| == bytes && forall i :: 0 <= i < bytes ==> buf[i] == content(offset + i)
    {
      var c := content;
      buf := seq(bytes, i requires 0 <= i => c(offset + i));
    }

    /** The driver's write and the new length of a growable image; what comes to lie inside it stays as it was seen. */
    method DriverWrite(offset: nat, buf: seq<Byte>)
      modifies this
      ensures length == if growable then Max(old(length), offset + |buf|) else old(length)
      ensures forall a: nat :: View(a) == if offset <= a < offset + |buf| then buf[a - offset] else old(View(a))
    {
      var c, size, zeroes := content, length, growable && zeroBeyondEof;
      if growable {
        length := Max(length, offset + |buf|);
      }
      content := (a: nat) =>
        if offset <= a < offset + |buf| then buf[a - offset] else if a < size || !zeroes then c(a) else 0;
    }

    /** The part of bdrv_aligned_preadv that reads zeroes after the end of a growable image. */
    method ReadZeroing(sector: nat, nb: nat, unit: nat) returns (buf: seq<Byte>)
      requires unit > 0 && length % SECTOR == 0 && growable && zeroBeyondEof
      ensures |buf| == nb * SECTOR && forall i :: 0 <= i < nb * SECTOR ==> buf[i] == View(sector * SECTOR + i)
    {
      hide Up, Down;
      var total := (length + SECTOR - 1) / SECTOR;
      assert total * SECTOR == length;
      var left := if total > sector then total - sector else 0;
      var maxNb := Up(left, unit);
      AlignBounds(left, unit);
      var n := if nb < maxNb then nb else maxNb;
      if maxNb > 0 {
        buf := DriverRead(sector * SECTOR, n * SECTOR);
        var rest := Untouched((nb - n) * SECTOR);
        buf := buf + rest;
      } else {
        buf := Untouched(nb * SECTOR);
      }
      if total < sector + nb {
        buf := buf[..left * SECTOR] + seq((nb - left) * SECTOR, _ => 0);
      }
    }

    /** bdrv_aligned_preadv without copy-on-read. */
    method AlignedPreadv(offset: nat, bytes: nat) returns (buf: seq<Byte>)
      requires Valid() && offset % align == 0 && bytes % align == 0
      ensures |buf| == bytes && forall i :: 0 <= i < bytes ==> buf[i] == View(offset + i)
    {
      if !(zeroBeyondEof && growable) {
        buf := DriverRead(offset, bytes);
      } else {
        SectorMultiple(offset, align);
        SectorMultiple(bytes, align);
        DivSplit(offset, SECTOR);
        DivSplit(bytes, SECTOR);
        buf := ReadZeroing(offset / SECTOR, bytes / SECTOR, align / SECTOR);
      }
    }

    /** bdrv_co_do_preadv: read the enclosing aligned range and hand out the middle of it. */
    method CoDoPreadv(offset: nat, bytes: nat) returns (ok: bool, out: seq<Byte>)
      requires Valid()
      ensures ok <==> growable || offset + bytes <= length
      ensures ok ==> |out| == bytes && forall i :: 0 <= i < bytes ==> out[i] == View(offset + i)
    {
      hide Down, Up;
      ok, out := growable || offset + bytes <= length, [];
      if !ok {
        return;
      }
      var o, n, pad := offset, bytes, offset % align;
      if o % align != 0 {
        n := n + pad;
        o := o - pad;
      }
      if (o + n) % align != 0 {
        n := Up(n, align);
      }
      PaddedRange(offset, bytes, align, o, n);
      var buf := AlignedPreadv(o, n);
      out := buf[pad..pad + bytes];
    }

    /** bdrv_co_do_pwritev for data writes: read the blocks under an unaligned start and end,
        put the data between, write the enclosing aligned range. */
    method CoDoPwritev(offset: nat, data: seq<Byte>) returns (ok: bool)
      requires Valid()
      modifies this
      ensures Valid()
      ensures ok <==> growable || offset + |data| <= old(length)
      ensures !ok ==> content == old(content) && length == old(length)
      ensures ok ==> length == if growable then Max(old(length), Up(offset + |data|, align)) else old(length)
      ensures ok ==>
                forall a: nat :: View(a) == if offset <= a < offset + |data| then data[a - offset] else old(View(a))
    {
      hide Down, Up;
      ok := growable || offset + |data| <= length;
      if !ok {
        return;
      }
      var o, n, qiov := Padded(offset, data);
      AlignBounds(offset + |data|, align);
      DriverWrite(o, qiov);
      SectorMultiple(o + n, align);
    }

    /** The aligned request a write turns into. */
    method Padded(offset: nat, data: seq<Byte>) returns (o: nat, n: nat, qiov: seq<Byte>)
      requires Valid()
      ensures o <= offset && offset + |data| <= o + n == Up(offset + |data|, align) && o % align == 0
      ensures (o + n) % align == 0
      ensures |qiov| == n
      ensures forall i :: 0 <= i < n ==>
                qiov[i] == if offset <= o + i < offset + |data| then data[o + i - offset] else View(o + i)
    {
      hide Down, Up, Mixed;
      BlocksInside(offset, |data|, align);
      o, n, qiov := offset, |data|, data;
      DataOnly(offset, data);
      var pad: nat := offset % align;
      if pad != 0 {
        var head := AlignedPreadv(o - pad, align);
        HeadJoins(head, pad, offset, data);
        qiov := head[..pad] + qiov;
        n := n + pad;
        o := o - pad;
      }
      var t: nat := (o + n) % align;
      if t != 0 {
        var tail := AlignedPreadv(o + n - t, align);
        TailJoins(qiov, o, tail, t, offset, data);
        qiov := qiov + tail[t..];
        n := Up(n, align);
      }
      PaddedRange(offset, |data|, align, o, n);
      MixedAt(qiov, o, offset, data);
    }

    /** The buffer, at address o, has the data where they belong and the image elsewhere. */
    ghost predicate Mixed(buf: seq<Byte>, o: nat, offset: nat, data: seq<Byte>)
      reads this
    {
      forall i :: 0 <= i < |buf| ==>
        buf[i] == if offset <= o + i < offset + |data| then data[o + i - offset] else View(o + i)
    }

    lemma DataOnly(offset: nat, data: seq<Byte>)
      ensures Mixed(data, offset, offset, data)
    {
    }

    lemma HeadJoins(head: seq<Byte>, pad: nat, offset: nat, data: seq<Byte>)
      requires pad <= |head| && pad <= offset && forall i :: 0 <= i < |head| ==> head[i] == View(offset - pad + i)
      ensures Mixed(head[..pad] + data, offset - pad, offset, data)
    {
    }

    lemma TailJoins(buf: seq<Byte>, o: nat, tail: seq<Byte>, t: nat, offset: nat, data: seq<Byte>)
      requires Mixed(buf, o, offset, data) && o + |buf| == offset + |data| && t <= |tail| && t <= o + |buf|
      requires forall i :: 0 <= i < |tail| ==> tail[i] == View(o + |buf| - t + i)
      ensures Mixed(buf + tail[t..], o, offset, data)
    {
    }

    lemma MixedAt(buf: seq<Byte>, o: nat, offset: nat, data: seq<Byte>)
      requires Mixed(buf, o, offset, data)
      ensures forall i :: 0 <= i < |buf| ==>
                buf[i] == if offset <= o + i < offset + |data| then data[o + i - offset] else View(o + i)
    {
    }
  }

  /** A buffer that nothing was read into. */
  method Untouched(n: nat) returns (buf: seq<Byte>)
    ensures |buf| == n
  {
    var any: Byte := *;
    buf := seq<Byte>(n, _ => any);
  }

  lemma SectorMultiple(x: nat, align: nat)
    requires align > 0 && align % SECTOR == 0 && x % align == 0
    ensures x % SECTOR == 0 && align / SECTOR > 0
  {
    assert align == SECTOR * (align / SECTOR);
    assert x == align * (x / align);
    assert x == (x / align * (align / SECTOR)) * SECTOR;
    ModAdd(0, SECTOR, x / align * (align / SECTOR));
  }

  lemma UpShift(q: nat, m: nat, a: nat)
    requires a > 0
    ensures Up(q * a + m, a) == q * a + Up(m, a) && (q * a + m) % a == m % a && Up(m, a) % a == 0
  {
    var k := (m + a - 1) / a;
    ModAdd(m, a, q);
    ModAdd(m + a - 1, a, q);
    assert (q + k) * a == q * a + k * a;
    MulMod(k, a);
  }

  /** Padding the start and then the end gives the enclosing aligned range. */
  lemma PaddedRange(offset: nat, bytes: nat, align: nat, o: nat, n: nat)
    requires align > 0 && o == offset - offset % align
    requires n == if (offset + bytes) % align != 0 then Up(offset + bytes - o, align) else offset + bytes - o
    ensures o + n == Up(offset + bytes, align) && o % align == 0 && n % align == 0
    ensures offset + bytes <= o + n && (o + n) % align == 0
  {
    hide Up;
    AlignBounds(offset + bytes, align);
    DivSplit(offset, align);
    MulMod(offset / align, align);
    UpShift(offset / align, offset + bytes - o, align);
    UpShift(0, offset + bytes, align);
  }

  /** The blocks read for padding are aligned and lie inside the enclosing aligned range. */
  lemma BlocksInside(offset: nat, bytes: nat, align: nat)
    requires align > 0
    ensures var h, t := offset % align, (offset + bytes) % align;
            && 0 <= h <= offset && h < align && 0 <= t <= offset + bytes && t < align
            && (offset - h) % align == 0 && (offset + bytes - t) % align == 0 && align % align == 0
            && (h != 0 ==> offset - h + align <= Up(offset + bytes, align))
            && (t != 0 ==> offset + bytes - t + align == Up(offset + bytes, align))
  {
    var end := offset + bytes;
    AlignBounds(offset, align);
    AlignBounds(end, align);
    DownMono(offset, end, align);
    DivSplit(offset, align);
    DivSplit(end, align);
    MulMod(offset / align, align);
    MulMod(end / align, align);
    MulMod(1, align);
    hide Up;
  }
}
