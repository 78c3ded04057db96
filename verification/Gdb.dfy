/** The packet layer of the GDB stub (qemu-2.0/gdbstub.c): hex, escaping, framing and the receiving state machine. */
module Gdb {
  import opened Values

  const MAX_PACKET_LENGTH: nat := 4096

  const DOLLAR: Byte := 0x24
  const HASH: Byte := 0x23
  const STAR: Byte := 0x2A
  const BRACE: Byte := 0x7D
  const PLUS: Byte := 0x2B
  const MINUS: Byte := 0x2D

  // Hex.

  function FromHex(v: Byte): (n: nat)
    ensures n < 16
  {
    if 0x30 <= v <= 0x39 then v - 0x30
    else if 0x41 <= v <= 0x46 then v - 0x41 + 10
    else if 0x61 <= v <= 0x66 then v - 0x61 + 10
    else 0
  }

  function ToHex(v: nat): (h: Byte)
    requires v < 16
    ensures FromHex(h) == v && h != HASH && h != DOLLAR
  {
    if v < 10 then v + 0x30 else v - 10 + 0x61
  }

  /** Capital letters are read too, and anything else is 0. */
  lemma FromHexIs(v: Byte)
    ensures 0x41 <= v <= 0x46 ==> FromHex(v) == FromHex(v + 0x20) == v - 55
    ensures !(0x30 <= v <= 0x39 || 0x41 <= v <= 0x46 || 0x61 <= v <= 0x66) ==> FromHex(v) == 0
  {
  }

  function Hex(mem: seq<Byte>): (s: seq<Byte>)
    ensures |s| == 2 * |mem|
  {
    if mem == [] then [] else Hex(mem[..|mem| - 1]) + [ToHex(mem[|mem| - 1] / 16), ToHex(mem[|mem| - 1] % 16)]
  }

  function Unhex(s: seq<Byte>, n: nat): (mem: seq<Byte>)
    requires 2 * n <= |s|
    ensures |mem| == n
  {
    if n == 0 then [] else Unhex(s, n - 1) + [16 * FromHex(s[2 * n - 2]) + FromHex(s[2 * n - 1])]
  }

  /** hextomem undoes memtohex. */
  lemma {:induction false} UnhexHex(mem: seq<Byte>, more: seq<Byte>)
    ensures Unhex(Hex(mem) + more, |mem|) == mem
  {
    hide FromHex, ToHex;
    if mem != [] {
      var k := |mem| - 1;
      var last := [ToHex(mem[k] / 16), ToHex(mem[k] % 16)];
      assert Hex(mem) + more == Hex(mem[..k]) + (last + more);
      UnhexHex(mem[..k], last + more);
      assert mem == mem[..k] + [mem[k]];
    }
  }

  /** memtohex: the text and a final NUL. */
  method MemToHex(buf: array<Byte>, mem: seq<Byte>)
    requires buf.Length > 2 * |mem|
    modifies buf
    ensures buf[..2 * |mem|] == Hex(mem) && buf[2 * |mem|] == 0
    ensures buf[2 * |mem| + 1..] == old(buf[2 * |mem| + 1..])
  {
    var i := 0;
    while i < |mem|
      invariant 0 <= i <= |mem| && buf[..2 * i] == Hex(mem[..i]) && buf[2 * |mem| + 1..] == old(buf[2 * |mem| + 1..])
    {
      var c := mem[i];
      buf[2 * i] := ToHex(c / 16);
      buf[2 * i + 1] := ToHex(c % 16);
      assert mem[..i + 1][..i] == mem[..i];
      i := i + 1;
    }
    assert mem[..i] == mem;
    buf[2 * i] := 0;
  }

  /** hextomem. */
  method HexToMem(mem: array<Byte>, buf: seq<Byte>, len: nat)
    requires 2 * len <= |buf| && len <= mem.Length
    modifies mem
    ensures mem[..len] == Unhex(buf, len) && mem[len..] == old(mem[len..])
  {
    var i := 0;
    while i < len
      invariant 0 <= i <= len && mem[..i] == Unhex(buf, i) && mem[len..] == old(mem[len..])
    {
      mem[i] := 16 * FromHex(buf[2 * i]) + FromHex(buf[2 * i + 1]);
      i := i + 1;
    }
  }

  // Escaping.

  predicate Special(c: Byte) { c == HASH || c == DOLLAR || c == STAR || c == BRACE }

  /** c ^ 0x20. */
  function Flip(c: Byte): Byte { if c / 32 % 2 == 1 then c - 32 else c + 32 }

  function Escape(mem: seq<Byte>): seq<Byte> {
    if mem == [] then []
    else
      var c := mem[|mem| - 1];
      Escape(mem[..|mem| - 1]) + if Special(c) then [BRACE, Flip(c)] else [c]
  }

  /** The protocol's reading of escapes. */
  function Unescape(s: seq<Byte>): seq<Byte> {
    if s == [] then []
    else if s[0] == BRACE && |s| > 1 then [Flip(s[1])] + Unescape(s[2..])
    else [s[0]] + Unescape(s[1..])
  }

  lemma FlipSpecial(c: Byte)
    ensures Flip(Flip(c)) == c && (Special(c) ==> !Special(Flip(c)))
  {
  }

  /** Text without the four special characters stays as it is. */
  lemma {:induction false} EscapePlain(mem: seq<Byte>)
    requires forall i :: 0 <= i < |mem| ==> mem[i] != 0x23 && mem[i] != 0x24 && mem[i] != 0x2A && mem[i] != 0x7D
    ensures Escape(mem) == mem
  {
    if mem != [] {
      EscapePlain(mem[..|mem| - 1]);
    }
  }

  /** A special character c goes out as "}" and c ^ 0x20. */
  lemma EscapeSpecial(mem: seq<Byte>)
    ensures Escape(mem + [0x23]) == Escape(mem) + [0x7D, 0x03] && Escape(mem + [0x24]) == Escape(mem) + [0x7D, 0x04]
    ensures Escape(mem + [0x2A]) == Escape(mem) + [0x7D, 0x0A] && Escape(mem + [0x7D]) == Escape(mem) + [0x7D, 0x5D]
  {
    assert (mem + [0x23])[..|mem|] == mem && (mem + [0x24])[..|mem|] == mem;
    assert (mem + [0x2A])[..|mem|] == mem && (mem + [0x7D])[..|mem|] == mem;
  }

  /** The escaped form of one byte, in front of more text, reads as the byte. */
  lemma {:induction false} UnescapeEscape(mem: seq<Byte>, more: seq<Byte>)
    ensures Unescape(Escape(mem) + more) == mem + Unescape(more)
  {
    if mem == [] {
      assert Escape(mem) + more == more;
    } else {
      var k := |mem| - 1;
      var c := mem[k];
      var last := if Special(c) then [BRACE, Flip(c)] else [c];
      assert Escape(mem) + more == Escape(mem[..k]) + (last + more);
      UnescapeEscape(mem[..k], last + more);
      FlipSpecial(c);
      UnescapeOne(c, more);
      assert mem == mem[..k] + [c];
    }
  }

  lemma UnescapeOne(c: Byte, more: seq<Byte>)
    ensures Unescape((if Special(c) then [BRACE, Flip(c)] else [c]) + more) == [c] + Unescape(more)
  {
    FlipSpecial(c);
    var s := (if Special(c) then [BRACE, Flip(c)] else [c]) + more;
    if Special(c) {
      assert s[2..] == more;
    } else {
      assert s[1..] == more;
    }
  }

  /** Escaped text has no packet delimiter and reads as the original. */
  lemma {:induction false} EscapeClean(mem: seq<Byte>)
    ensures forall i :: 0 <= i < |Escape(mem)| ==>
              Escape(mem)[i] != HASH && Escape(mem)[i] != DOLLAR && Escape(mem)[i] != STAR
    ensures |mem| <= |Escape(mem)| <= 2 * |mem|
  {
    if mem != [] {
      EscapeClean(mem[..|mem| - 1]);
      FlipSpecial(mem[|mem| - 1]);
    }
  }

  lemma EscapeRoundTrip(mem: seq<Byte>)
    ensures Unescape(Escape(mem)) == mem
  {
    UnescapeEscape(mem, []);
    assert Escape(mem) + [] == Escape(mem) && Unescape([]) == [];
  }

  /** memtox. */
  method MemToX(buf: array<Byte>, mem: seq<Byte>) returns (n: nat)
    requires buf.Length >= 2 * |mem|
    modifies buf
    ensures n <= buf.Length && buf[..n] == Escape(mem)
  {
    n := 0;
    var i := 0;
    while i < |mem|
      invariant 0 <= i <= |mem| && n <= 2 * i && buf[..n] == Escape(mem[..i])
    {
      var c := mem[i];
      if Special(c) {
        buf[n] := BRACE;
        buf[n + 1] := Flip(c);
        n := n + 2;
      } else {
        buf[n] := c;
        n := n + 1;
      }
      assert mem[..i + 1][..i] == mem[..i];
      i := i + 1;
    }
    assert mem[..i] == mem;
  }

  // Framing.

  /** A char, which is signed. */
  function Signed(b: Byte): int { if b < 128 then b else b - 256 }

  function Sum(s: seq<Byte>): int {
    if s == [] then 0 else Sum(s[..|s| - 1]) + Signed(s[|s| - 1])
  }

  /** Modulo 256 the signs do not matter: the sum is that of the bytes. */
  lemma SumNext(s: seq<Byte>, b: Byte)
    ensures Sum([]) == 0 && Sum(s + [b]) % 256 == (Sum(s) + b) % 256
  {
    assert (s + [b])[..|s|] == s;
  }

  lemma {:induction false} SumAltered(s: seq<Byte>, i: nat, b: Byte)
    requires i < |s|
    ensures Sum(s[i := b]) == Sum(s) - Signed(s[i]) + Signed(b)
  {
    var n := |s| - 1;
    if i == n {
      assert s[i := b][..n] == s[..n];
    } else {
      assert s[i := b][..n] == s[..n][i := b];
      SumAltered(s[..n], i, b);
    }
  }

  /** The text with a checksum, which may not be its own. */
  function Framed(s: seq<Byte>, sum: int): (f: seq<Byte>)
    ensures |f| == |s| + 4
  {
    [DOLLAR] + s + [HASH, ToHex(sum / 16 % 16), ToHex(sum % 16)]
  }

  function Frame(s: seq<Byte>): (f: seq<Byte>)
    ensures |f| == |s| + 4
  {
    Framed(s, Sum(s))
  }

  /** "OK" goes out as "$OK#9a", and 0x2f in hex is "2f". */
  lemma FrameOfOk()
    ensures Frame([0x4F, 0x4B]) == [0x24, 0x4F, 0x4B, 0x23, 0x39, 0x61] && Hex([0x2F]) == [0x32, 0x66]
  {
    var ok: seq<Byte> := [0x4F, 0x4B];
    assert ok[..1] == [0x4F] && ok[..1][..0] == [];
    assert Sum(ok[..1]) == 0x4F;
    assert Sum(ok) == 0x9A;
    var one: seq<Byte> := [0x2F];
    assert one[..0] == [];
  }

  datatype RSState = Idle | GetLine | Chksum1 | Chksum2

  /** What the receiver is in the middle of. */
  datatype Rx = Rx(state: RSState, line: seq<Byte>, csum: nat, waiting: bool, running: bool)

  datatype Verdict = Nothing | Resend | Nack | Deliver(line: seq<Byte>)

  /** What the next byte does. */
  function RxStep(rx: Rx, ch: Byte): (Rx, Verdict) {
    if rx.waiting && ch != DOLLAR then
      (rx.(waiting := ch != PLUS), if ch == MINUS then Resend else Nothing)
    else
      var r := rx.(waiting := false);
      if r.running then (r.(running := false), Nothing)
      else
        match r.state
        case Idle => (if ch == DOLLAR then r.(state := GetLine, line := []) else r, Nothing)
        case GetLine =>
          if ch == HASH then (r.(state := Chksum1), Nothing)
          else if |r.line| >= MAX_PACKET_LENGTH - 1 then (r.(state := Idle), Nothing)
          else (r.(line := r.line + [ch]), Nothing)
        case Chksum1 => (r.(state := Chksum2, csum := 16 * FromHex(ch)), Nothing)
        case Chksum2 =>
          if r.csum + FromHex(ch) != Sum(r.line) % 256 then (r.(state := Idle, csum := r.csum + FromHex(ch)), Nack)
          else (r.(state := Idle, csum := r.csum + FromHex(ch)), Deliver(r.line))
  }

  /** j bytes of the text p framed with the checksum have come in. */
  ghost predicate Progress(p: seq<Byte>, sum: int, j: nat, rx: Rx) {
    && j < |p| + 4 && !rx.running
    && (j > 0 ==> !rx.waiting)
    && (if j == 0 then rx.state == Idle
        else if j <= |p| + 1 then rx.state == GetLine && rx.line == p[..j - 1]
        else if j == |p| + 2 then rx.state == Chksum1 && rx.line == p
        else rx.state == Chksum2 && rx.line == p && rx.csum == 16 * (sum / 16 % 16))
  }

  lemma Nibbles(n: int)
    ensures 16 * (n / 16 % 16) + n % 16 == n % 256
  {
  }

  /** A frame comes in byte by byte: nothing happens until the last one, which delivers the text if the checksum is that
      of the text, and is refused if it is not. */
  lemma FrameStep(p: seq<Byte>, sum: int, j: nat, rx: Rx)
    requires Progress(p, sum, j, rx) && |p| <= MAX_PACKET_LENGTH - 1 && HASH !in p
    ensures var (rx', verdict) := RxStep(rx, Framed(p, sum)[j]);
            if j < |p| + 3 then verdict == Nothing && Progress(p, sum, j + 1, rx')
            else if sum % 256 == Sum(p) % 256 then verdict == Deliver(p)
            else verdict == Nack && rx'.state == Idle
  {
    hide Sum, RxStep, Framed;
    FramedAt(p, sum, j);
    if j <= |p| + 1 {
      TextStep(p, sum, j, rx);
    } else {
      SumStep(p, sum, j, rx);
    }
  }

  lemma FramedAt(p: seq<Byte>, sum: int, j: nat)
    requires j < |p| + 4
    ensures Framed(p, sum)[j] == if j == 0 then DOLLAR else if j <= |p| then p[j - 1] else if j == |p| + 1 then HASH
                                 else if j == |p| + 2 then ToHex(sum / 16 % 16) else ToHex(sum % 16)
  {
  }

  lemma TextStep(p: seq<Byte>, sum: int, j: nat, rx: Rx)
    requires Progress(p, sum, j, rx) && |p| <= MAX_PACKET_LENGTH - 1 && HASH !in p && j <= |p| + 1
    ensures var (rx', verdict) := RxStep(rx, if j == 0 then DOLLAR else if j <= |p| then p[j - 1] else HASH);
            verdict == Nothing && Progress(p, sum, j + 1, rx')
  {
    hide Sum;
    if 0 < j <= |p| {
      assert p[j - 1] in p;
      assert p[..j] == p[..j - 1] + [p[j - 1]];
    }
  }

  lemma SumStep(p: seq<Byte>, sum: int, j: nat, rx: Rx)
    requires Progress(p, sum, j, rx) && |p| + 1 < j
    ensures var (rx', verdict) := RxStep(rx, if j == |p| + 2 then ToHex(sum / 16 % 16) else ToHex(sum % 16));
            if j < |p| + 3 then verdict == Nothing && Progress(p, sum, j + 1, rx')
            else if sum % 256 == Sum(p) % 256 then verdict == Deliver(p)
            else verdict == Nack && rx'.state == Idle
  {
    hide Sum, ToHex;
    Nibbles(sum);
  }

  /** The byte gets as far as the switch: no acknowledgement is due, and the machine is not running. */
  predicate Reaches(rx: Rx, ch: Byte) { (rx.waiting ==> ch == DOLLAR) && !rx.running }

  /** The last bytes of the stream are those of the frame that is coming in. */
  ghost predicate InFrame(taken: seq<Byte>, rx: Rx) {
    var text := [DOLLAR] + rx.line;
    match rx.state
    case Idle => true
    case GetLine => EndsWith(taken, text)
    case Chksum1 => EndsWith(taken, text + [HASH])
    case Chksum2 => exists a: Byte :: rx.csum == 16 * FromHex(a) && EndsWith(taken, text + [HASH, a])
  }

  ghost predicate EndsWith(s: seq<Byte>, end: seq<Byte>) { |end| <= |s| && s[|s| - |end|..] == end }

  /** The line, framed and with its checksum, is in the stream. */
  ghost predicate FramedIn(taken: seq<Byte>, line: seq<Byte>) {
    exists n: nat, a: Byte, b: Byte :: n <= |taken| && EndsWith(taken[..n], [DOLLAR] + line + [HASH, a, b])
                                       && 16 * FromHex(a) + FromHex(b) == Sum(line) % 256
  }

  ghost predicate AllFramed(taken: seq<Byte>, lines: seq<seq<Byte>>) {
    forall k :: 0 <= k < |lines| ==> FramedIn(taken, lines[k])
  }

  lemma EndsMore(s: seq<Byte>, end: seq<Byte>, b: Byte)
    requires EndsWith(s, end)
    ensures EndsWith(s + [b], end + [b])
  {
    assert (s + [b])[|s| - |end|..] == s[|s| - |end|..] + [b];
  }

  lemma FramedMore(taken: seq<Byte>, b: Byte, lines: seq<seq<Byte>>)
    requires AllFramed(taken, lines)
    ensures AllFramed(taken + [b], lines)
  {
    hide EndsWith, Sum, FromHex;
    forall k | 0 <= k < |lines| ensures FramedIn(taken + [b], lines[k]) {
      var n: nat, x: Byte, y: Byte :| n <= |taken| && EndsWith(taken[..n], [DOLLAR] + lines[k] + [HASH, x, y])
                                      && 16 * FromHex(x) + FromHex(y) == Sum(lines[k]) % 256;
      assert (taken + [b])[..n] == taken[..n];
    }
  }

  /** A byte that gets to the switch goes on with the frame, and what is delivered is the text of it. */
  lemma FrameGoesOn(taken: seq<Byte>, rx: Rx, ch: Byte)
    requires InFrame(taken, rx) && Reaches(rx, ch)
    ensures var (rx', verdict) := RxStep(rx, ch);
            if verdict.Deliver? then FramedIn(taken + [ch], verdict.line) else InFrame(taken + [ch], rx')
  {
    hide Sum, EndsWith, FromHex;
    var text := [DOLLAR] + rx.line;
    match rx.state {
      case Idle =>
        EndsNow(taken, ch);
        assert [DOLLAR] + [] == [DOLLAR];
      case GetLine =>
        EndsMore(taken, text, ch);
        assert text + [ch] == [DOLLAR] + (rx.line + [ch]);
      case Chksum1 =>
        EndsMore(taken, text + [HASH], ch);
        assert text + [HASH] + [ch] == text + [HASH, ch];
      case Chksum2 =>
        var a: Byte :| rx.csum == 16 * FromHex(a) && EndsWith(taken, text + [HASH, a]);
        EndsMore(taken, text + [HASH, a], ch);
        assert text + [HASH, a] + [ch] == [DOLLAR] + rx.line + [HASH, a, ch];
        assert (taken + [ch])[..|taken| + 1] == taken + [ch];
    }
  }

  /** Where the frame is does not depend on the machine. */
  lemma StartedInFrame(taken: seq<Byte>, rx: Rx)
    requires InFrame(taken, rx)
    ensures InFrame(taken, rx.(running := true)) && InFrame(taken, rx.(waiting := false))
  {
  }

  lemma Delivered(taken: seq<Byte>, lines: seq<seq<Byte>>, line: seq<Byte>, rx: Rx)
    requires AllFramed(taken, lines) && FramedIn(taken, line) && rx.state == Idle
    ensures AllFramed(taken, lines + [line]) && InFrame(taken, rx)
  {
    hide FramedIn;
  }

  lemma EndsNow(s: seq<Byte>, b: Byte)
    ensures EndsWith(s + [b], [b])
  {
    assert (s + [b])[|s|..] == [b];
  }

  class GdbState {
    var state: RSState
    const lineBuf: array<Byte>
    var lineBufIndex: nat
    var lineCsum: nat
    const lastPacket: array<Byte>
    var lastPacketLen: nat
    var running: bool
    /** What was sent, and the command lines that were handled. */
    var out: seq<Byte>
    var handled: seq<seq<Byte>>
    /** The bytes read, and those of them that got to the switch. */
    ghost var read: seq<Byte>
    ghost var taken: seq<Byte>

    /** The index stays within the buffer, with room for the NUL. */
    ghost predicate Buffers()
      reads this
    {
      && lineBuf.Length == MAX_PACKET_LENGTH && lineBufIndex < MAX_PACKET_LENGTH
      && lastPacket.Length == MAX_PACKET_LENGTH + 4 && lastPacketLen <= lastPacket.Length
      && lineBuf != lastPacket
    }

    /** The text is that of a frame in the stream, and closed by a NUL once it is complete; so were all that were
        handled. */
    ghost predicate Valid()
      reads this, lineBuf
    {
      && Buffers() && InFrame(taken, View()) && AllFramed(taken, handled)
      && (state.Chksum2? ==> lineBuf[lineBufIndex] == 0)
    }

    ghost function View(): Rx
      requires Buffers()
      reads this, lineBuf
    {
      Rx(state, lineBuf[..lineBufIndex], lineCsum, lastPacketLen > 0, running)
    }

    constructor ()
      ensures Valid() && fresh(lineBuf) && fresh(lastPacket) && state == Idle && handled == [] && out == []
      ensures read == [] && taken == [] && !running && lastPacketLen == 0
    {
      state, lineBufIndex, lineCsum, lastPacketLen, running, out, handled := Idle, 0, 0, 0, false, [], [];
      read, taken := [], [];
      lineBuf := new Byte[MAX_PACKET_LENGTH](_ => 0);
      lastPacket := new Byte[MAX_PACKET_LENGTH + 4](_ => 0);
    }

    /** put_packet_binary: the frame goes out and is kept for a resend. */
    method PutPacketBinary(buf: seq<Byte>)
      requires Buffers() && |buf| <= MAX_PACKET_LENGTH
      modifies this`lastPacketLen, this`out, lastPacket
      ensures Buffers() && out == old(out) + Frame(buf)
      ensures lastPacketLen == |buf| + 4 && lastPacket[..lastPacketLen] == Frame(buf)
    {
      lastPacket[0] := DOLLAR;
      forall i | 0 <= i < |buf| {
        lastPacket[1 + i] := buf[i];
      }
      var csum := 0;
      var i := 0;
      while i < |buf|
        invariant 0 <= i <= |buf| && csum == Sum(buf[..i])
      {
        assert buf[..i + 1][..i] == buf[..i];
        csum := csum + Signed(buf[i]);
        i := i + 1;
      }
      assert buf[..i] == buf;
      var p := 1 + |buf|;
      lastPacket[p] := HASH;
      lastPacket[p + 1] := ToHex(csum / 16 % 16);
      lastPacket[p + 2] := ToHex(csum % 16);
      lastPacketLen := p + 3;
      assert lastPacket[..lastPacketLen] == Frame(buf);
      out := out + lastPacket[..lastPacketLen];
    }

    /** gdb_handle_packet: it may reply and let the machine run. */
    method HandlePacket()
      requires Buffers() && lineBuf[lineBufIndex] == 0
      modifies this`handled, this`lastPacketLen, this`out, this`running, lastPacket
      ensures Buffers() && handled == old(handled) + [lineBuf[..lineBufIndex]] && old(out) <= out
    {
      handled := handled + [lineBuf[..lineBufIndex]];
      var reply: seq<Byte> := *;
      if |reply| <= MAX_PACKET_LENGTH {
        PutPacketBinary(reply);
      }
      running := *;
    }

    /** gdb_read_byte. */
    method ReadByte(ch: Byte)
      requires Valid()
      modifies this, lineBuf, lastPacket
      ensures Valid() && read == old(read) + [ch]
      ensures taken == if Reaches(old(View()), ch) then old(taken) + [ch] else old(taken)
      ensures var (rx, verdict) := RxStep(old(View()), ch);
              if verdict.Deliver? then handled == old(handled) + [verdict.line] && state == Idle
                && old(out) + [PLUS] <= out
              else View() == rx && handled == old(handled) &&
                   out == old(out) + (match verdict
                                      case Nack => [MINUS]
                                      case Resend => old(lastPacket[..lastPacketLen])
                                      case _ => [])
    {
      hide Sum;
      read := read + [ch];
      if lastPacketLen > 0 {
        if ch == MINUS {
          out := out + lastPacket[..lastPacketLen];
        }
        if ch == PLUS || ch == DOLLAR {
          lastPacketLen := 0;
        }
        if ch != DOLLAR {
          return;
        }
      }
      if running {
        running := false;
        return;
      }
      Interpret(ch);
    }

    /** The switch of gdb_read_byte. */
    method Interpret(ch: Byte)
      requires Valid() && !running && lastPacketLen == 0
      modifies this, lineBuf, lastPacket
      ensures Valid() && read == old(read) && taken == old(taken) + [ch]
      ensures var (rx, verdict) := RxStep(old(View()), ch);
              if verdict.Deliver? then handled == old(handled) + [verdict.line] && state == Idle
                && old(out) + [PLUS] <= out
              else View() == rx && handled == old(handled) && out == old(out) + (if verdict.Nack? then [MINUS] else [])
    {
      hide Sum, InFrame, AllFramed;
      FrameGoesOn(taken, View(), ch);
      FramedMore(taken, ch, handled);
      taken := taken + [ch];
      match state {
        case Idle =>
          if ch == DOLLAR {
            lineBufIndex, state := 0, GetLine;
          }
        case GetLine =>
          if ch == HASH {
            state := Chksum1;
          } else if lineBufIndex >= MAX_PACKET_LENGTH - 1 {
            state := Idle;
          } else {
            lineBuf[lineBufIndex] := ch;
            lineBufIndex := lineBufIndex + 1;
            assert View() == RxStep(old(View()), ch).0;
          }
        case Chksum1 =>
          lineBuf[lineBufIndex] := 0;
          lineCsum := 16 * FromHex(ch);
          state := Chksum2;
        case Chksum2 =>
          lineCsum := lineCsum + FromHex(ch);
          var csum := LineSum();
          if lineCsum != csum % 256 {
            out := out + [MINUS];
            state := Idle;
          } else {
            out := out + [PLUS];
            HandlePacket();
            state := Idle;
            Delivered(taken, old(handled), lineBuf[..lineBufIndex], View());
          }
      }
    }

    method LineSum() returns (csum: int)
      requires lineBufIndex <= lineBuf.Length
      ensures csum == Sum(lineBuf[..lineBufIndex])
    {
      csum := 0;
      var i := 0;
      while i < lineBufIndex
        invariant 0 <= i <= lineBufIndex && csum == Sum(lineBuf[..i])
      {
        assert lineBuf[..i + 1][..i] == lineBuf[..i];
        csum := csum + Signed(lineBuf[i]);
        i := i + 1;
      }
    }

    /** An idle receiver that is fed a text without '#', of at most 4095 bytes, with some checksum: it acknowledges and
        handles just the text if the checksum is right, and asks for it again if not. */
    method ReceiveFramed(p: seq<Byte>, sum: int)
      requires Valid() && state == Idle && !running && |p| <= MAX_PACKET_LENGTH - 1 && HASH !in p
      modifies this, lineBuf, lastPacket
      ensures Valid() && state == Idle
      ensures if sum % 256 == Sum(p) % 256 then handled == old(handled) + [p] && old(out) + [PLUS] <= out
              else handled == old(handled) && out == old(out) + [MINUS]
    {
      hide Framed, RxStep, Sum;
      var f := Framed(p, sum);
      var j := 0;
      while j < |f|
        invariant 0 <= j <= |f| && Valid()
        invariant j < |f| ==> Progress(p, sum, j, View()) && handled == old(handled) && out == old(out)
        invariant j == |f| ==> state == Idle
        invariant j == |f| && sum % 256 == Sum(p) % 256 ==> handled == old(handled) + [p] && old(out) + [PLUS] <= out
        invariant j == |f| && sum % 256 != Sum(p) % 256 ==> handled == old(handled) && out == old(out) + [MINUS]
      {
        FrameStep(p, sum, j, View());
        ReadByte(f[j]);
        j := j + 1;
      }
    }

    /** What the sender frames is handled. */
    method ReceiveFrame(p: seq<Byte>)
      requires Valid() && state == Idle && !running && |p| <= MAX_PACKET_LENGTH - 1 && HASH !in p
      modifies this, lineBuf, lastPacket
      ensures Valid() && state == Idle && handled == old(handled) + [p] && old(out) + [PLUS] <= out
    {
      hide Sum;
      ReceiveFramed(p, Sum(p));
    }

    /** A frame with one byte of the payload altered is refused. */
    method ReceiveAltered(p: seq<Byte>, i: nat, b: Byte)
      requires Valid() && state == Idle && !running && |p| <= MAX_PACKET_LENGTH - 1 && HASH !in p
      requires i < |p| && b != p[i] && b != HASH
      modifies this, lineBuf, lastPacket
      ensures Valid() && state == Idle && handled == old(handled) && out == old(out) + [MINUS]
    {
      hide Sum;
      SumAltered(p, i, b);
      ReceiveFramed(p[i := b], Sum(p));
    }

    /** gdb_chr_receive: on every stream of bytes the index stays in bounds, every line handled fits the buffer, and was
        framed in the stream.  The machine may be started at any time. */
    method ReceiveAll(s: seq<Byte>)
      requires Valid()
      modifies this, lineBuf, lastPacket
      ensures Valid() && read == old(read) + s && old(handled) <= handled && AllFramed(taken, handled)
      ensures forall k :: |old(handled)| <= k < |handled| ==> |handled[k]| <= MAX_PACKET_LENGTH - 1
    {
      hide RxStep, AllFramed, InFrame;
      var j := 0;
      while j < |s|
        invariant 0 <= j <= |s| && Valid() && read == old(read) + s[..j] && old(handled) <= handled
        invariant forall k :: |old(handled)| <= k < |handled| ==> |handled[k]| <= MAX_PACKET_LENGTH - 1
      {
        if * {
          StartedInFrame(taken, View());
          running := true;
        }
        DeliverFits(View(), s[j]);
        ReadByte(s[j]);
        assert s[..j + 1] == s[..j] + [s[j]];
        j := j + 1;
      }
      assert s[..j] == s;
    }
  }

  lemma DeliverFits(rx: Rx, ch: Byte)
    ensures RxStep(rx, ch).1.Deliver? ==> RxStep(rx, ch).1.line == rx.line
  {
    hide Sum;
  }
}
