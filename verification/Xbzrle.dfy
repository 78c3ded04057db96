/** XBZRLE page deltas (qemu-2.0/xbzrle.c): alternating runs of unchanged and changed bytes. */
module Xbzrle {
  import opened Numbers
  import opened Values

  const LEB_MAX: nat := 0x3fff

  /** uleb128_encode_small. */
  function Leb(n: nat): (s: seq<Byte>)
    requires n <= LEB_MAX
    ensures 1 <= |s| <= 2
  {
    if n < 0x80 then [n] else [n % 128 + 128, n / 128]
  }

  /** uleb128_decode_small: the bytes used, or 0 for its error, and the number. */
  function LebDecode(s: seq<Byte>): (r: (nat, nat))
    requires |s| >= 2
    ensures r.0 <= 2
  {
    var lo: int, hi: int := s[0], s[1];
    if lo < 128 then (1, lo) else if hi >= 128 then (0, 0) else (2, lo - 128 + hi * 128)
  }

  /** It takes one byte below 128, or one above and one below, and fails otherwise. */
  lemma LebDecodeIs(s: seq<Byte>)
    requires |s| >= 2
    ensures LebDecode(s).0 == if s[0] < 128 then 1 else if s[1] < 128 then 2 else 0
    ensures var lo: int, hi: int := s[0], s[1];
            LebDecode(s).0 != 0 ==> LebDecode(s).1 == if lo < 128 then lo else lo % 128 + 128 * hi
  {
  }

  lemma LebRoundTrip(n: nat, rest: seq<Byte>)
    requires n <= LEB_MAX && |rest| >= 1
    ensures LebDecode(Leb(n) + rest) == (|Leb(n)|, n)
  {
  }

  /** Length of the run of equal bytes at `i`. */
  function EqRun(a: seq<Byte>, b: seq<Byte>, i: nat): (n: nat)
    requires |a| == |b| && i <= |a|
    ensures i + n <= |a| && (forall k :: i <= k < i + n ==> a[k] == b[k]) && (i + n < |a| ==> a[i + n] != b[i + n])
    decreases |a| - i
  {
    if i == |a| || a[i] != b[i] then 0 else 1 + EqRun(a, b, i + 1)
  }

  function NeRun(a: seq<Byte>, b: seq<Byte>, i: nat): (n: nat)
    requires |a| == |b| && i <= |a|
    ensures i + n <= |a| && (forall k :: i <= k < i + n ==> a[k] != b[k]) && (i + n < |a| ==> a[i + n] == b[i + n])
    decreases |a| - i
  {
    if i == |a| || a[i] == b[i] then 0 else 1 + NeRun(a, b, i + 1)
  }

  /** The format: page = zrun nzrun | zrun nzrun page, without a last zrun. */
  function Encoded(a: seq<Byte>, b: seq<Byte>, i: nat): seq<Byte>
    requires |a| == |b| <= LEB_MAX && i <= |a|
    decreases |a| - i
  {
    var j := i + EqRun(a, b, i);
    if j == |a| then []
    else
      var n := NeRun(a, b, j);
      Leb(j - i) + Leb(n) + b[j..j + n] + Encoded(a, b, j + n)
  }

  /** What xbzrle_decode_buffer does to the page, run by run. */
  function Decoded(src: seq<Byte>, first: bool, page: seq<Byte>, d: nat): Option<seq<Byte>>
    decreases |src|
  {
    if |src| == 0 then Some(page)
    else if |src| < 2 then None
    else
      var (u, z) := LebDecode(src);
      if u == 0 || (!first && z == 0) || d + z > |page| then None
      else
        var src1 := src[u..];
        if |src1| < 2 then None
        else
          var (w, n) := LebDecode(src1);
          if w == 0 || n == 0 || d + z + n > |page| || w + n > |src1| then None
          else Decoded(src1[w + n..], false, Patched(page, d + z, src1[w..w + n]), d + z + n)
  }

  /** Where the last run of a well-formed delta ends in the page: what xbzrle_decode_buffer returns. */
  function End(src: seq<Byte>, d: nat): nat
    decreases |src|
  {
    if |src| < 2 then d
    else
      var (u, z) := LebDecode(src);
      if u == 0 || |src[u..]| < 2 then d
      else
        var (w, n) := LebDecode(src[u..]);
        if w == 0 || w + n > |src[u..]| then d else End(src[u..][w + n..], d + z + n)
  }

  /** The page after one run is copied in. */
  function Patched(page: seq<Byte>, at: nat, run: seq<Byte>): (p: seq<Byte>)
    requires at + |run| <= |page|
    ensures |p| == |page|
  {
    page[..at] + run + page[at + |run|..]
  }

  /** One well-formed pair of runs, decoded. */
  lemma DecodedPair(z: nat, run: seq<Byte>, rest: seq<Byte>, first: bool, page: seq<Byte>, d: nat)
    requires z <= LEB_MAX && 0 < |run| <= LEB_MAX && (first || z > 0) && d + z + |run| <= |page|
    ensures Decoded(Leb(z) + Leb(|run|) + run + rest, first, page, d) ==
            Decoded(rest, false, Patched(page, d + z, run), d + z + |run|)
    ensures End(Leb(z) + Leb(|run|) + run + rest, d) == End(rest, d + z + |run|)
  {
    hide Leb, LebDecode, Decoded, Patched, End;
    var n := |run|;
    var src := Leb(z) + Leb(n) + run + rest;
    var src1 := Leb(n) + (run + rest);
    assert src == Leb(z) + src1;
    LebRoundTrip(z, src1);
    LebRoundTrip(n, run + rest);
    var u, w := |Leb(z)|, |Leb(n)|;
    assert src[u..] == src1;
    assert src1[w..w + n] == run;
    assert src1[w + n..] == rest;
    DecodedStep(src, first, page, d, u, z, w, n);
  }

  /** The whole point: applied to the old page, the delta gives the new one. */
  lemma {:induction false} RoundTripFrom(a: seq<Byte>, b: seq<Byte>, i: nat)
    requires |a| == |b| <= LEB_MAX && i <= |a| && (i == 0 || i == |a| || a[i] == b[i])
    ensures Decoded(Encoded(a, b, i), i == 0, b[..i] + a[i..], i) == Some(b)
    ensures var e := End(Encoded(a, b, i), i);
            i <= e <= |a| && a[e..] == b[e..] && (e > i ==> a[e - 1] != b[e - 1])
    decreases |a| - i
  {
    hide Leb, Decoded, End, Patched, EqRun, NeRun, Encoded;
    var z, page := EqRun(a, b, i), b[..i] + a[i..];
    var j := i + z;
    if j == |a| {
      assert page == b;
      EncodedEnds(a, b, i);
      DecodedEmpty(i == 0, page, i);
    } else {
      var n := NeRun(a, b, j);
      EncodedStep(a, b, i, j, j + n);
      DecodedPair(z, b[j..j + n], Encoded(a, b, j + n), i == 0, page, i);
      PatchedNext(a, b, i, j, n);
      RoundTripFrom(a, b, j + n);
    }
  }

  lemma PatchedNext(a: seq<Byte>, b: seq<Byte>, i: nat, j: nat, n: nat)
    requires |a| == |b| && i <= j && j + n <= |a| && forall k :: i <= k < j ==> a[k] == b[k]
    ensures Patched(b[..i] + a[i..], j, b[j..j + n]) == b[..j + n] + a[j + n..]
  {
    var page := b[..i] + a[i..];
    assert page[..j] == b[..j];
    assert page[j + n..] == a[j + n..];
    assert b[..j] + b[j..j + n] == b[..j + n];
  }

  lemma DecodedEmpty(first: bool, page: seq<Byte>, d: nat)
    ensures Decoded([], first, page, d) == Some(page) && End([], d) == d
  {
  }

  lemma RoundTrip(a: seq<Byte>, b: seq<Byte>)
    requires |a| == |b| <= LEB_MAX
    ensures Decoded(Encoded(a, b, 0), true, a, 0) == Some(b)
    ensures Encoded(a, b, 0) == [] <==> a == b
  {
    RoundTripFrom(a, b, 0);
    assert b[..0] + a[0..] == a;
  }

  /** The decoder returns the place just behind the last changed byte. */
  lemma RoundTripEnd(a: seq<Byte>, b: seq<Byte>)
    requires |a| == |b| <= LEB_MAX
    ensures var e := End(Encoded(a, b, 0), 0); e <= |a| && a[e..] == b[e..] && (e > 0 ==> a[e - 1] != b[e - 1])
  {
    RoundTripFrom(a, b, 0);
  }

  const WORD: nat := 8

  /** Eight bytes of memory as a machine word; which of them comes first does not matter below. */
  function Pack(o0: Octet, o1: Octet, o2: Octet, o3: Octet, o4: Octet, o5: Octet, o6: Octet, o7: Octet): bv64 {
    (o0 as bv64) | ((o1 as bv64) << 8) | ((o2 as bv64) << 16) | ((o3 as bv64) << 24)
    | ((o4 as bv64) << 32) | ((o5 as bv64) << 40) | ((o6 as bv64) << 48) | ((o7 as bv64) << 56)
  }

  function Word(s: seq<Byte>, i: nat): bv64
    requires i + WORD <= |s|
  {
    Pack(ByteOf(s[i]), ByteOf(s[i + 1]), ByteOf(s[i + 2]), ByteOf(s[i + 3]),
         ByteOf(s[i + 4]), ByteOf(s[i + 5]), ByteOf(s[i + 6]), ByteOf(s[i + 7]))
  }

  const MASK: bv64 := 0x0101010101010101

  predicate HasZeroByte(xor: bv64) { (xor - MASK) & !xor & (MASK << 7) != 0 }

  /** The test for a zero byte in a word is exact. */
  lemma ZeroByteTest(x: bv64)
    ensures HasZeroByte(x) <==>
            || x & 0xff == 0 || x & 0xff00 == 0 || x & 0xff0000 == 0 || x & 0xff000000 == 0
            || x & 0xff00000000 == 0 || x & 0xff0000000000 == 0 || x & 0xff000000000000 == 0
            || x & 0xff00000000000000 == 0
  {
  }

  lemma PackedXor(a0: Octet, a1: Octet, a2: Octet, a3: Octet, a4: Octet, a5: Octet, a6: Octet, a7: Octet,
                  b0: Octet, b1: Octet, b2: Octet, b3: Octet, b4: Octet, b5: Octet, b6: Octet, b7: Octet)
    ensures Pack(a0, a1, a2, a3, a4, a5, a6, a7) ^ Pack(b0, b1, b2, b3, b4, b5, b6, b7) ==
            Pack(a0 ^ b0, a1 ^ b1, a2 ^ b2, a3 ^ b3, a4 ^ b4, a5 ^ b5, a6 ^ b6, a7 ^ b7)
  {
  }

  lemma PackedZero(o0: Octet, o1: Octet, o2: Octet, o3: Octet, o4: Octet, o5: Octet, o6: Octet, o7: Octet)
    ensures HasZeroByte(Pack(o0, o1, o2, o3, o4, o5, o6, o7)) <==>
            o0 == 0 || o1 == 0 || o2 == 0 || o3 == 0 || o4 == 0 || o5 == 0 || o6 == 0 || o7 == 0
  {
    hide HasZeroByte;
    ZeroByteTest(Pack(o0, o1, o2, o3, o4, o5, o6, o7));
  }

  /** Two words have a byte in common exactly when their difference has a zero byte. */
  lemma PackedTest(a0: Octet, a1: Octet, a2: Octet, a3: Octet, a4: Octet, a5: Octet, a6: Octet, a7: Octet,
                   b0: Octet, b1: Octet, b2: Octet, b3: Octet, b4: Octet, b5: Octet, b6: Octet, b7: Octet)
    ensures HasZeroByte(Pack(a0, a1, a2, a3, a4, a5, a6, a7) ^ Pack(b0, b1, b2, b3, b4, b5, b6, b7)) <==>
            a0 == b0 || a1 == b1 || a2 == b2 || a3 == b3 || a4 == b4 || a5 == b5 || a6 == b6 || a7 == b7
  {
    hide Pack, HasZeroByte;
    PackedXor(a0, a1, a2, a3, a4, a5, a6, a7, b0, b1, b2, b3, b4, b5, b6, b7);
    PackedZero(a0 ^ b0, a1 ^ b1, a2 ^ b2, a3 ^ b3, a4 ^ b4, a5 ^ b5, a6 ^ b6, a7 ^ b7);
  }

  lemma ByteOfSame(x: Byte, y: Byte)
    ensures ByteOf(x) == ByteOf(y) <==> x == y
  {
    hide ByteOf, Num;
    NumByte(x);
    NumByte(y);
  }

  /** The word test stops the run exactly when one of the eight bytes is unchanged. */
  lemma WordTest(a: seq<Byte>, b: seq<Byte>, i: nat)
    requires |a| == |b| && i + WORD <= |a|
    ensures HasZeroByte(Word(a, i) ^ Word(b, i)) <==> exists k :: i <= k < i + WORD && a[k] == b[k]
  {
    hide ByteOf, HasZeroByte, Pack;
    PackedTest(ByteOf(a[i]), ByteOf(a[i + 1]), ByteOf(a[i + 2]), ByteOf(a[i + 3]),
               ByteOf(a[i + 4]), ByteOf(a[i + 5]), ByteOf(a[i + 6]), ByteOf(a[i + 7]),
               ByteOf(b[i]), ByteOf(b[i + 1]), ByteOf(b[i + 2]), ByteOf(b[i + 3]),
               ByteOf(b[i + 4]), ByteOf(b[i + 5]), ByteOf(b[i + 6]), ByteOf(b[i + 7]));
    forall k | i <= k < i + WORD ensures ByteOf(a[k]) == ByteOf(b[k]) <==> a[k] == b[k] {
      ByteOfSame(a[k], b[k]);
    }
  }

  lemma EqRunSkips(a: seq<Byte>, b: seq<Byte>, i: nat, j: nat)
    requires |a| == |b| && i <= j <= |a| && forall k :: i <= k < j ==> a[k] == b[k]
    ensures i + EqRun(a, b, i) == j + EqRun(a, b, j)
    decreases j - i
  {
    if i < j { EqRunSkips(a, b, i + 1, j); }
  }

  lemma NeRunSkips(a: seq<Byte>, b: seq<Byte>, i: nat, j: nat)
    requires |a| == |b| && i <= j <= |a| && forall k :: i <= k < j ==> a[k] != b[k]
    ensures i + NeRun(a, b, i) == j + NeRun(a, b, j)
    decreases j - i
  {
    if i < j { NeRunSkips(a, b, i + 1, j); }
  }

  /** Skip unchanged bytes: byte-wise to a word boundary, then by words, then the rest. */
  method SkipEqual(a: seq<Byte>, b: seq<Byte>, start: nat) returns (i: nat)
    requires |a| == |b| && start <= |a|
    ensures i == start + EqRun(a, b, start)
  {
    i := start;
    var res := (|a| - i) % WORD;
    while res > 0 && a[i] == b[i]
      invariant start <= i <= |a| && 0 <= res <= |a| - i && (|a| - i - res) % WORD == 0
      invariant forall k :: start <= k < i ==> a[k] == b[k]
    {
      i := i + 1;
      res := res - 1;
    }
    if res == 0 {
      i := SkipEqualWords(a, b, start, i);
      while i < |a| && a[i] == b[i]
        invariant start <= i <= |a|
        invariant forall k :: start <= k < i ==> a[k] == b[k]
      {
        i := i + 1;
      }
    }
    EqRunSkips(a, b, start, i);
  }

  method SkipEqualWords(a: seq<Byte>, b: seq<Byte>, ghost start: nat, from: nat) returns (i: nat)
    requires |a| == |b| && start <= from <= |a| && (|a| - from) % WORD == 0
    requires forall k :: start <= k < from ==> a[k] == b[k]
    ensures from <= i <= |a| && forall k :: start <= k < i ==> a[k] == b[k]
  {
    i := from;
    while i < |a| && a[i..i + WORD] == b[i..i + WORD]
      invariant from <= i <= |a| && (|a| - i) % WORD == 0
      invariant forall k :: start <= k < i ==> a[k] == b[k]
    {
      forall k | i <= k < i + WORD ensures a[k] == b[k] {
        assert a[k] == a[i..i + WORD][k - i] && b[k] == b[i..i + WORD][k - i];
      }
      i := i + WORD;
    }
  }

  /** Skip changed bytes the same way; a word with an unchanged byte ends the run inside it. */
  method SkipDifferent(a: seq<Byte>, b: seq<Byte>, start: nat) returns (i: nat)
    requires |a| == |b| && start <= |a|
    ensures i == start + NeRun(a, b, start)
  {
    i := start;
    var res := (|a| - i) % WORD;
    while res > 0 && a[i] != b[i]
      invariant start <= i <= |a| && 0 <= res <= |a| - i && (|a| - i - res) % WORD == 0
      invariant forall k :: start <= k < i ==> a[k] != b[k]
    {
      i := i + 1;
      res := res - 1;
    }
    if res == 0 {
      i := SkipDifferentWords(a, b, start, i);
    }
    NeRunSkips(a, b, start, i);
  }

  method SkipDifferentWords(a: seq<Byte>, b: seq<Byte>, ghost start: nat, from: nat) returns (i: nat)
    requires |a| == |b| && start <= from <= |a| && (|a| - from) % WORD == 0
    requires forall k :: start <= k < from ==> a[k] != b[k]
    ensures from <= i <= |a| && (forall k :: start <= k < i ==> a[k] != b[k]) && (i < |a| ==> a[i] == b[i])
  {
    hide Word, HasZeroByte;
    i := from;
    while i < |a|
      invariant from <= i <= |a| && (|a| - i) % WORD == 0
      invariant forall k :: start <= k < i ==> a[k] != b[k]
    {
      WordTest(a, b, i);
      if HasZeroByte(Word(a, i) ^ Word(b, i)) {
        ghost var word := i;
        while a[i] != b[i]
          invariant word <= i < word + WORD
          invariant forall k :: start <= k < i ==> a[k] != b[k]
          decreases word + WORD - i
        {
          i := i + 1;
        }
        return;
      }
      i := i + WORD;
    }
  }

  lemma EncodedEnds(a: seq<Byte>, b: seq<Byte>, i: nat)
    requires |a| == |b| <= LEB_MAX && i <= |a|
    ensures i + EqRun(a, b, i) == |a| <==> Encoded(a, b, i) == []
    ensures i == |a| ==> Encoded(a, b, i) == []
  {
  }

  lemma EncodedAppend(a: seq<Byte>, b: seq<Byte>, i: nat, j: nat, k: nat, dst: seq<Byte>)
    requires |a| == |b| <= LEB_MAX && i <= j < k <= |a| && j == i + EqRun(a, b, i) && k == j + NeRun(a, b, j)
    ensures dst + Encoded(a, b, i) == dst + Leb(j - i) + Leb(k - j) + b[j..k] + Encoded(a, b, k)
  {
    hide Leb, EqRun, NeRun, Encoded;
    EncodedStep(a, b, i, j, k);
  }

  lemma {:induction false} EncodedStep(a: seq<Byte>, b: seq<Byte>, i: nat, j: nat, k: nat)
    requires |a| == |b| <= LEB_MAX && i <= j < k <= |a| && j == i + EqRun(a, b, i) && k == j + NeRun(a, b, j)
    ensures Encoded(a, b, i) == Leb(j - i) + Leb(k - j) + b[j..k] + Encoded(a, b, k)
  {
    hide Leb, EqRun, NeRun;
  }

  /** The room that must be left when the buffers end in equal bytes. */
  function Slack(a: seq<Byte>, b: seq<Byte>): nat
    requires |a| == |b|
  {
    if a != [] && a[|a| - 1] == b[|b| - 1] then 2 else 0
  }

  /** Short of the end either nothing more is to be encoded, or at least two bytes. */
  lemma {:induction false} EncodedRest(a: seq<Byte>, b: seq<Byte>, i: nat)
    requires |a| == |b| <= LEB_MAX && i < |a|
    ensures Encoded(a, b, i) == [] ==> a[|a| - 1] == b[|b| - 1]
    ensures Encoded(a, b, i) != [] ==> |Encoded(a, b, i)| >= 2
  {
  }

  /** xbzrle_encode_buffer: None is its overflow result. */
  method EncodeBuffer(a: seq<Byte>, b: seq<Byte>, dlen: nat) returns (r: Option<seq<Byte>>)
    requires |a| == |b| <= LEB_MAX
    ensures r.Some? ==> r.value == Encoded(a, b, 0)
    ensures r.None? <==> |Encoded(a, b, 0)| + Slack(a, b) > dlen
  {
    hide Leb, Encoded, EqRun, NeRun;
    var i := 0;
    var dst: seq<Byte> := [];
    while i < |a|
      invariant 0 <= i <= |a| && |dst| <= dlen && Encoded(a, b, 0) == dst + Encoded(a, b, i)
      invariant i > 0 ==> a[i - 1] != b[i - 1]
    {
      EncodedRest(a, b, i);
      if |dst| + 2 > dlen {
        return None;
      }
      var j := SkipEqual(a, b, i);
      EncodedEnds(a, b, i);
      if j == |a| {
        return Some(dst);
      }
      var k := SkipDifferent(a, b, j);
      var zrun, nrun := Leb(j - i), Leb(k - j);
      EncodedAppend(a, b, i, j, k, dst);
      if |dst + zrun| + 2 > dlen || |dst + zrun + nrun| + (k - j) > dlen {
        return None;
      }
      dst := dst + zrun + nrun + b[j..k];
      i := k;
    }
    EncodedEnds(a, b, i);
    return Some(dst);
  }

  /** Decoding gives up at the run of unchanged bytes. */
  predicate BadSkip(src: seq<Byte>, first: bool, room: int) {
    |src| < 2 || var (u, z) := LebDecode(src); u == 0 || (!first && z == 0) || z > room || |src[u..]| < 2
  }

  /** Decoding gives up at the run of changed bytes. */
  predicate BadRun(src: seq<Byte>, room: int) {
    |src| >= 2 && var (w, n) := LebDecode(src); w == 0 || n == 0 || n > room || w + n > |src|
  }

  lemma DecodedFails(src: seq<Byte>, first: bool, page: seq<Byte>, d: nat)
    requires |src| > 0
    requires BadSkip(src, first, |page| - d) || var (u, z) := LebDecode(src); BadRun(src[u..], |page| - d - z)
    ensures Decoded(src, first, page, d) == None
  {
    hide LebDecode, Patched;
  }

  /** One pass of the loop in xbzrle_decode_buffer. */
  method DecodePair(src: seq<Byte>, i0: nat, page: array<Byte>, d0: nat) returns (ok: bool, i: nat, d: nat)
    requires i0 < |src| && d0 <= page.Length
    modifies page
    ensures ok ==> i0 < i <= |src| && d <= page.Length
    ensures ok ==> Decoded(src[i0..], i0 == 0, old(page[..]), d0) == Decoded(src[i..], false, page[..], d)
    ensures ok ==> End(src[i0..], d0) == End(src[i..], d)
    ensures !ok ==> Decoded(src[i0..], i0 == 0, old(page[..]), d0) == None
  {
    hide LebDecode, Decoded, End, Patched;
    ok, i, d := false, i0, d0;
    if |src| - i < 2 {
      DecodedFails(src[i0..], i0 == 0, page[..], d0);
      return;
    }
    var (u, z) := LebDecode(src[i..]);
    if u == 0 || (i != 0 && z == 0) || d + z > page.Length {
      DecodedFails(src[i0..], i0 == 0, page[..], d0);
      return;
    }
    assert src[i0..][u..] == src[i0 + u..];
    i, d := i + u, d + z;
    if |src| - i < 2 {
      DecodedFails(src[i0..], i0 == 0, page[..], d0);
      return;
    }
    var (w, n) := LebDecode(src[i..]);
    if w == 0 || n == 0 || d + n > page.Length || i + w + n > |src| {
      DecodedFails(src[i0..], i0 == 0, page[..], d0);
      return;
    }
    DecodedStep(src[i0..], i0 == 0, page[..], d0, u, z, w, n);
    CopyRun(page, d, src[i..][w..w + n]);
    assert src[i0..][u..][w + n..] == src[i + w + n..];
    ok, i, d := true, i + w + n, d + n;
  }

  /** The memcpy of one run. */
  method CopyRun(page: array<Byte>, at: nat, run: seq<Byte>)
    requires at + |run| <= page.Length
    modifies page
    ensures page[..] == Patched(old(page[..]), at, run)
  {
    forall k | 0 <= k < |run| {
      page[at + k] := run[k];
    }
  }

  lemma DecodedStep(src: seq<Byte>, first: bool, page: seq<Byte>, d: nat, u: nat, z: nat, w: nat, n: nat)
    requires |src| >= 2 && LebDecode(src) == (u, z) && u > 0 && (first || z > 0) && d + z <= |page|
    requires u <= |src| && |src[u..]| >= 2 && LebDecode(src[u..]) == (w, n) && w > 0 && n > 0
    requires d + z + n <= |page| && w + n <= |src[u..]|
    ensures Decoded(src, first, page, d) ==
            Decoded(src[u..][w + n..], false, Patched(page, d + z, src[u..][w..w + n]), d + z + n)
    ensures End(src, d) == End(src[u..][w + n..], d + z + n)
  {
    hide LebDecode, Patched;
  }

  /** xbzrle_decode_buffer: the page is overwritten in place; false is its error result, otherwise it returns where the
      last run ended. */
  method DecodeBuffer(src: seq<Byte>, page: array<Byte>) returns (ok: bool, end: nat)
    modifies page
    ensures ok <==> Decoded(src, true, old(page[..]), 0).Some?
    ensures ok ==> page[..] == Decoded(src, true, old(page[..]), 0).value && end == End(src, 0)
  {
    hide Decoded, End;
    end := 0;
    var i, d := 0, 0;
    assert src[0..] == src;
    while i < |src|
      invariant 0 <= i <= |src| && 0 <= d <= page.Length
      invariant Decoded(src, true, old(page[..]), 0) == Decoded(src[i..], i == 0, page[..], d)
      invariant End(src, 0) == End(src[i..], d)
    {
      ok, i, d := DecodePair(src, i, page, d);
      if !ok {
        return;
      }
    }
    assert src[i..] == [];
    DecodedEmpty(i == 0, page[..], d);
    return true, d;
  }
}
