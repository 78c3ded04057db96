/** Tracked requests of a block device (qemu-2.0/block.c) as a state machine.

    A request is a coroutine.  It runs without interruption from its start, or from the point
    where it wakes up, to its next wait or driver operation; driver operations move one byte
    at a time, in any order, interleaved with all other requests. */
module BlockRequests {
  import opened Arith
  import opened Values

  datatype Kind =
    | Read
    | CopyOnRead(cluster: nat)
    | Write(data: seq<Byte>)

  /** The driver operations of a request, in order: read the block under an unaligned start
      (for copy-on-read: read the whole clusters), read the block under an unaligned end,
      and the transfer itself. */
  datatype Stage = Head | Tail | Final

  datatype Phase =
    | Parked(target: nat, since: nat, stage: Stage)
    | Doing(stage: Stage, done: set<nat>)

  datatype Req = Req(
    kind: Kind, offset: nat, bytes: nat,
    serialising: bool, ovOffset: nat, ovBytes: nat,
    phase: Phase, head: map<nat, Byte>, tail: map<nat, Byte>)

  datatype State = State(
    align: nat,
    tracked: seq<nat>, reqs: map<nat, Req>, nextId: nat,
    serialisingInFlight: int,
    disk: imap<nat, Byte>,
    clock: nat)

  function Down(x: nat, a: nat): nat requires a > 0 { x / a * a }

  function Up(x: nat, a: nat): nat requires a > 0 { (x + a - 1) / a * a }

  function Min(a: int, b: int): int { if a < b then a else b }

  function Max(a: int, b: int): int { if a > b then a else b }

  lemma AlignBounds(x: nat, a: nat)
    requires a > 0
    ensures Down(x, a) <= x < Down(x, a) + a && x <= Up(x, a) < x + a
    ensures Down(x, a) == x <==> x % a == 0
    ensures Up(x, a) == x <==> x % a == 0
    ensures x % a != 0 ==> Up(x, a) == Down(x, a) + a
  {
    assert x == a * (x / a) + x % a;
    if x % a == 0 {
      DivUnique(x + a - 1, a, x / a);
    } else {
      assert (x / a + 1) * a == x / a * a + a;
      assert (x / a + 2) * a == x / a * a + 2 * a;
      DivUnique(x + a - 1, a, x / a + 1);
    }
  }

  lemma DownMono(x: nat, y: nat, a: nat)
    requires a > 0 && x <= y
    ensures Down(x, a) <= Down(y, a) && Up(x, a) <= Up(y, a)
  {
    DivMono(x, y, a);
    DivMono(x + a - 1, y + a - 1, a);
    MulMono(x / a, y / a, a);
    MulMono((x + a - 1) / a, (y + a - 1) / a, a);
  }

  /** The alignment mark_request_serialising is called with. */
  function MarkAlign(r: Req, align: nat): nat {
    if r.kind.CopyOnRead? then r.kind.cluster else align
  }

  /** mark_request_serialising, on the request. */
  function Marked(r: Req, a: nat): Req
    requires a > 0
  {
    var lo, len := Down(r.offset, a), Up(r.offset + r.bytes, a) - Down(r.offset, a);
    r.(serialising := true, ovOffset := Min(r.ovOffset, lo), ovBytes := Max(r.ovBytes, len))
  }

  /** Which stages a request goes through. */
  predicate HasStage(r: Req, align: nat, stage: Stage)
    requires align > 0
  {
    match stage
    case Head => r.kind.CopyOnRead? || (r.kind.Write? && r.offset % align != 0)
    case Tail => r.kind.Write? && (r.offset + r.bytes) % align != 0
    case Final => true
  }

  function FirstStage(r: Req, align: nat): Stage
    requires align > 0
  {
    if HasStage(r, align, Head) then Head else if HasStage(r, align, Tail) then Tail else Final
  }

  function NextStage(r: Req, align: nat, stage: Stage): Stage
    requires align > 0
  {
    if stage.Head? && HasStage(r, align, Tail) then Tail else Final
  }

  predicate NeedsSerialising(r: Req, align: nat)
    requires align > 0
  {
    HasStage(r, align, Head) || HasStage(r, align, Tail)
  }

  /** The address range of a stage's driver operation. */
  function RangeLo(r: Req, align: nat, stage: Stage): nat
    requires align > 0
  {
    if r.kind.CopyOnRead? then (if r.kind.cluster > 0 then Down(r.offset, r.kind.cluster) else r.offset)
    else if stage.Tail? then Down(r.offset + r.bytes, align)
    else Down(r.offset, align)
  }

  function RangeHi(r: Req, align: nat, stage: Stage): nat
    requires align > 0
  {
    if r.kind.CopyOnRead?
    then (if r.kind.cluster > 0 then Up(r.offset + r.bytes, r.kind.cluster) else r.offset + r.bytes)
    else if stage.Final? then Up(r.offset + r.bytes, align)
    else if stage.Tail? then Down(r.offset + r.bytes, align) + align
    else Down(r.offset, align) + align
  }

  /** tracked_request_overlaps. */
  predicate Overlaps(r: Req, offset: nat, bytes: nat) {
    !(offset >= r.ovOffset + r.ovBytes) && !(r.ovOffset >= offset + bytes)
  }

  predicate Within(a: nat, offset: nat, bytes: nat) { offset <= a < offset + bytes }

  /** Ranges overlap just if they share a byte. */
  lemma OverlapsIs(r: Req, offset: nat, bytes: nat)
    requires r.ovBytes > 0 && bytes > 0
    ensures Overlaps(r, offset, bytes) <==>
            exists a: nat :: Within(a, r.ovOffset, r.ovBytes) && Within(a, offset, bytes)
  {
    if Overlaps(r, offset, bytes) {
      var a: nat := Max(r.ovOffset, offset);
      assert Within(a, r.ovOffset, r.ovBytes) && Within(a, offset, bytes);
    }
  }

  predicate Conflict(a: Req, b: Req) {
    (a.serialising || b.serialising) && Overlaps(a, b.ovOffset, b.ovBytes)
  }

  /** The first request in list order that `id` has to wait for: it conflicts and is not waiting itself. */
  function ScanFrom(s: State, id: nat, k: nat): (b: Option<nat>)
    requires id in s.reqs && k <= |s.tracked|
    ensures b.Some? ==> b.value in s.tracked[k..] && b.value != id && b.value in s.reqs
                        && Conflict(s.reqs[b.value], s.reqs[id]) && s.reqs[b.value].phase.Doing?
    ensures b.None? ==> forall q :: q in s.tracked[k..] && q != id && q in s.reqs && Conflict(s.reqs[q], s.reqs[id]) ==>
                          s.reqs[q].phase.Parked?
    decreases |s.tracked| - k
  {
    if k == |s.tracked| then None
    else
      var q := s.tracked[k];
      assert s.tracked[k..] == [q] + s.tracked[k + 1..];
      if q != id && q in s.reqs && Conflict(s.reqs[q], s.reqs[id]) && s.reqs[q].phase.Doing? then Some(q)
      else ScanFrom(s, id, k + 1)
  }

  /** One scan of wait_serialising_requests. */
  function Blocker(s: State, id: nat): Option<nat>
    requires id in s.reqs
  {
    if s.serialisingInFlight == 0 then None else ScanFrom(s, id, 0)
  }

  /** The loop over tracked_requests in wait_serialising_requests. */
  method ScanRequests(s: State, id: nat) returns (b: Option<nat>)
    requires id in s.reqs && forall q :: q in s.tracked ==> q in s.reqs
    ensures b == Blocker(s, id)
  {
    if s.serialisingInFlight == 0 {
      return None;
    }
    var k := 0;
    while k < |s.tracked|
      invariant 0 <= k <= |s.tracked| && ScanFrom(s, id, 0) == ScanFrom(s, id, k)
    {
      var req := s.tracked[k];
      if req != id && (s.reqs[req].serialising || s.reqs[id].serialising) {
        if Overlaps(s.reqs[req], s.reqs[id].ovOffset, s.reqs[id].ovBytes) && s.reqs[req].phase.Doing? {
          return Some(req);
        }
      }
      k := k + 1;
    }
    return None;
  }

  function SetReq(s: State, id: nat, r: Req): State { s.(reqs := s.reqs[id := r]) }

  /** Scan, then either wait or start the stage. */
  function Wait(s: State, id: nat, stage: Stage): State
    requires id in s.reqs
  {
    var r := s.reqs[id];
    match Blocker(s, id)
    case Some(t) => SetReq(s, id, r.(phase := Parked(t, s.clock, stage))).(clock := s.clock + 1)
    case None => SetReq(s, id, r.(phase := Doing(stage, {})))
  }

  function MarkReq(s: State, id: nat, a: nat): State
    requires id in s.reqs && a > 0
  {
    var r := s.reqs[id];
    SetReq(s, id, Marked(r, a)).(serialisingInFlight := s.serialisingInFlight + if r.serialising then 0 else 1)
  }

  /** Reach a stage: mark where the code marks, then wait. */
  function Enter(s: State, id: nat, stage: Stage): State
    requires id in s.reqs && (stage.Final? || MarkAlign(s.reqs[id], s.align) > 0)
  {
    Wait(if stage.Final? then s else MarkReq(s, id, MarkAlign(s.reqs[id], s.align)), id, stage)
  }

  function Requested(r: Req, a: nat): bool {
    r.kind.Write? && r.offset <= a < r.offset + r.bytes
  }

  /** The byte the final transfer puts at address `a`. */
  predicate HasValue(r: Req, a: nat) {
    if Requested(r, a) then r.kind.Write? && |r.kind.data| == r.bytes
    else if r.kind.CopyOnRead? || a < r.offset then a in r.head
    else a in r.tail
  }

  function Value(r: Req, a: nat): Byte
    requires HasValue(r, a)
  {
    if Requested(r, a) then r.kind.data[a - r.offset]
    else if r.kind.CopyOnRead? || a < r.offset then r.head[a]
    else r.tail[a]
  }

  datatype Step =
    | Begin(kind: Kind, offset: nat, bytes: nat)
    | Resume(id: nat)
    | MoveByte(id: nat, a: nat)
    | Finish(id: nat)
    | Stop(id: nat)      // an error, or a copy-on-read that finds its clusters allocated

  predicate KindOk(kind: Kind, offset: nat, bytes: nat, align: nat)
    requires align > 0
  {
    match kind
    case Read => offset % align == 0 && bytes % align == 0
    case CopyOnRead(cluster) => cluster > 0
    case Write(data) => |data| == bytes
  }

  predicate InRange(r: Req, align: nat, stage: Stage, a: nat)
    requires align > 0
  {
    RangeLo(r, align, stage) <= a < RangeHi(r, align, stage)
  }

  predicate Enabled(s: State, step: Step) {
    s.align > 0 &&
    match step
    case Begin(kind, offset, bytes) => KindOk(kind, offset, bytes, s.align)
    case Resume(id) => id in s.reqs && s.reqs[id].phase.Parked? && s.reqs[id].phase.target !in s.reqs
    case MoveByte(id, a) =>
      && id in s.reqs && s.reqs[id].phase.Doing?
      && InRange(s.reqs[id], s.align, s.reqs[id].phase.stage, a) && a in s.disk
      && (s.reqs[id].phase.stage.Final? && !s.reqs[id].kind.Read? ==> HasValue(s.reqs[id], a))
    case Finish(id) =>
      && id in s.reqs && s.reqs[id].phase.Doing?
      && (forall a :: RangeLo(s.reqs[id], s.align, s.reqs[id].phase.stage) <= a
                      < RangeHi(s.reqs[id], s.align, s.reqs[id].phase.stage) ==>
            a in s.reqs[id].phase.done)
    case Stop(id) => id in s.reqs && s.reqs[id].phase.Doing?
  }

  function Remove(q: seq<nat>, id: nat): (q': seq<nat>)
    ensures forall x :: x in q' <==> x in q && x != id
  {
    if |q| == 0 then [] else (if q[0] == id then [] else [q[0]]) + Remove(q[1..], id)
  }

  /** tracked_request_end. */
  function End(s: State, id: nat): State
    requires id in s.reqs
  {
    s.(tracked := Remove(s.tracked, id), reqs := s.reqs - {id},
       serialisingInFlight := s.serialisingInFlight - if s.reqs[id].serialising then 1 else 0)
  }

  /** tracked_request_begin. */
  function Start(s: State, kind: Kind, offset: nat, bytes: nat): State {
    var r := Req(kind, offset, bytes, false, offset, bytes, Doing(Final, {}), map[], map[]);
    s.(tracked := [s.nextId] + s.tracked, reqs := s.reqs[s.nextId := r], nextId := s.nextId + 1)
  }

  /** One byte of a driver operation. */
  function Move(s: State, id: nat, a: nat): State
    requires Enabled(s, MoveByte(id, a))
  {
    var r := s.reqs[id];
    var stage := r.phase.stage;
    var r' := r.(phase := Doing(stage, r.phase.done + {a}));
    if stage.Final? && !r.kind.Read? then SetReq(s, id, r').(disk := s.disk[a := Value(r, a)])
    else if stage.Tail? then SetReq(s, id, r'.(tail := r.tail[a := s.disk[a]]))
    else SetReq(s, id, r'.(head := r.head[a := s.disk[a]]))
  }

  function Apply(s: State, step: Step): State
    requires Enabled(s, step)
  {
    match step
    case Begin(kind, offset, bytes) =>
      var s1 := Start(s, kind, offset, bytes);
      Enter(s1, s.nextId, FirstStage(s1.reqs[s.nextId], s.align))
    case Resume(id) => Wait(s, id, s.reqs[id].phase.stage)
    case MoveByte(id, a) => Move(s, id, a)
    case Finish(id) =>
      var r := s.reqs[id];
      if r.phase.stage.Final? then End(s, id)
      else if r.kind.CopyOnRead? then SetReq(s, id, r.(phase := Doing(Final, {})))
      else Enter(s, id, NextStage(r, s.align, r.phase.stage))
    case Stop(id) => End(s, id)
  }

  // ---- invariants ----

  function SerialisingSet(reqs: map<nat, Req>): set<nat> {
    set id | id in reqs && reqs[id].serialising
  }

  ghost predicate Booked(s: State) {
    && s.align > 0
    && (forall id :: id in s.tracked <==> id in s.reqs)
    && (forall id :: id in s.reqs ==> id < s.nextId)
    && s.serialisingInFlight == |SerialisingSet(s.reqs)|
    && forall a: nat :: a in s.disk
  }

  /** A request stays as tracked_request_begin and mark_request_serialising leave it, and has
      read what its stage needs. */
  ghost predicate ReqOk(r: Req, align: nat)
    requires align > 0
  {
    && KindOk(r.kind, r.offset, r.bytes, align)
    && r.serialising == NeedsSerialising(r, align)
    && r.ovOffset == RangeLo(r, align, Final) && r.ovOffset + r.ovBytes == RangeHi(r, align, Final)
    && HasStage(r, align, r.phase.stage)
    && (r.phase.Parked? ==> r.phase.stage == FirstStage(r, align) && r.head == map[] && r.tail == map[])
    && (r.phase.Doing? ==> forall a :: a in r.phase.done ==> InRange(r, align, r.phase.stage, a))
    && (forall a :: a in r.head || a in r.tail ==> InRange(r, align, Final, a))
    && (r.phase.Doing? && r.phase.stage.Head? ==> forall a :: a in r.phase.done ==> a in r.head)
    && (r.phase.Doing? && r.phase.stage.Tail? ==> forall a :: a in r.phase.done ==> a in r.tail)
    && (r.phase.Doing? && !r.phase.stage.Head? && HasStage(r, align, Head) ==>
          forall a :: InRange(r, align, Head, a) ==> a in r.head)
    && (r.phase.Doing? && r.phase.stage.Final? && HasStage(r, align, Tail) ==>
          forall a :: InRange(r, align, Tail, a) ==> a in r.tail)
  }

  ghost predicate AllReqsOk(s: State) {
    s.align > 0 && forall id :: id in s.reqs ==> ReqOk(s.reqs[id], s.align)
  }

  /** Two conflicting requests are never both past their wait. */
  ghost predicate Exclusive(s: State) {
    forall p, q :: p in s.reqs && q in s.reqs && p != q && s.reqs[p].phase.Doing? && s.reqs[q].phase.Doing? ==>
      !Conflict(s.reqs[p], s.reqs[q])
  }

  /** A request that waits for a waiting request started waiting first. */
  ghost predicate Stamped(s: State) {
    && (forall p :: p in s.reqs && s.reqs[p].phase.Parked? ==>
          s.reqs[p].phase.since < s.clock && s.reqs[p].phase.target != p && s.reqs[p].phase.target < s.nextId)
    && (forall p, q :: p in s.reqs && q in s.reqs && s.reqs[p].phase.Parked? && s.reqs[q].phase.Parked?
                       && s.reqs[p].phase.target == q ==>
          s.reqs[p].phase.since < s.reqs[q].phase.since)
  }

  /** What a serialising request has read, outside the bytes it was asked to write, is still
      what is on disk; and what it has written is still there. */
  ghost predicate Fresh(s: State, r: Req) {
    r.serialising ==>
      && (forall a :: a in r.head && !Requested(r, a) && a in s.disk ==> r.head[a] == s.disk[a])
      && (forall a :: a in r.tail && !Requested(r, a) && a in s.disk ==> r.tail[a] == s.disk[a])
      && (r.phase.Doing? && r.phase.stage.Final? ==>
            forall a :: a in r.phase.done && HasValue(r, a) && a in s.disk ==> s.disk[a] == Value(r, a))
  }

  ghost predicate AllFresh(s: State) {
    forall id :: id in s.reqs ==> Fresh(s, s.reqs[id])
  }

  ghost predicate Inv(s: State) {
    Booked(s) && AllReqsOk(s) && Exclusive(s) && Stamped(s) && AllFresh(s)
  }

  ghost predicate Init(s: State) {
    s.align > 0 && s.tracked == [] && s.reqs == map[] && s.serialisingInFlight == 0 && forall a: nat :: a in s.disk
  }

  // ---- geometry ----

  /** Every driver operation of a request stays inside its overlap region. */
  lemma RangeInside(r: Req, align: nat, stage: Stage, a: nat)
    requires align > 0 && KindOk(r.kind, r.offset, r.bytes, align) && HasStage(r, align, stage)
    requires InRange(r, align, stage, a)
    ensures InRange(r, align, Final, a)
  {
    if !r.kind.CopyOnRead? {
      AlignBounds(r.offset, align);
      AlignBounds(r.offset + r.bytes, align);
      DownMono(r.offset, r.offset + r.bytes, align);
    }
  }

  lemma RegionBounds(r: Req, align: nat)
    requires align > 0 && KindOk(r.kind, r.offset, r.bytes, align)
    ensures RangeLo(r, align, Final) <= r.offset && r.offset + r.bytes <= RangeHi(r, align, Final)
    ensures !NeedsSerialising(r, align) ==>
              RangeLo(r, align, Final) == r.offset && RangeHi(r, align, Final) == r.offset + r.bytes
  {
    AlignBounds(r.offset, align);
    AlignBounds(r.offset + r.bytes, align);
    if r.kind.CopyOnRead? {
      AlignBounds(r.offset, r.kind.cluster);
      AlignBounds(r.offset + r.bytes, r.kind.cluster);
    } else if r.kind.Read? {
      SumAligned(r.offset, r.bytes, align);
    }
  }

  lemma SumAligned(x: nat, y: nat, a: nat)
    requires a > 0 && x % a == 0 && y % a == 0
    ensures (x + y) % a == 0
  {
    assert x == a * (x / a) && y == a * (y / a);
    assert x + y == (x / a + y / a) * a;
    ModAdd(0, a, x / a + y / a);
  }

  /** Marking gives the padded region, and marking again changes nothing. */
  lemma MarkedRegion(r: Req, align: nat)
    requires align > 0 && KindOk(r.kind, r.offset, r.bytes, align)
    requires (r.ovOffset == r.offset && r.ovBytes == r.bytes) ||
             (r.ovOffset == RangeLo(r, align, Final) && r.ovOffset + r.ovBytes == RangeHi(r, align, Final))
    ensures MarkAlign(r, align) > 0
    ensures Marked(r, MarkAlign(r, align)) ==
            r.(serialising := true, ovOffset := RangeLo(r, align, Final),
               ovBytes := RangeHi(r, align, Final) - RangeLo(r, align, Final))
  {
    hide Down, Up;
    RegionBounds(r, align);
  }

  /** In the last stage every byte of the transfer is at hand. */
  lemma FinalHasValue(r: Req, align: nat, a: nat)
    requires align > 0 && ReqOk(r, align) && r.phase.Doing? && r.phase.stage.Final? && !r.kind.Read?
    requires InRange(r, align, Final, a)
    ensures HasValue(r, a)
  {
    if !Requested(r, a) && r.kind.Write? {
      AlignBounds(r.offset, align);
      AlignBounds(r.offset + r.bytes, align);
      if a < r.offset {
        assert InRange(r, align, Head, a);
      } else {
        assert InRange(r, align, Tail, a);
      }
    }
  }

  // ---- the scan ----

  lemma NoneSerialising(s: State, q: nat)
    requires Booked(s) && s.serialisingInFlight == 0 && q in s.reqs
    ensures !s.reqs[q].serialising
  {
    assert q !in SerialisingSet(s.reqs);
  }

  /** A request gets past its wait exactly when every request it conflicts with is waiting. */
  lemma PassesIff(s: State, id: nat)
    requires Booked(s) && id in s.reqs
    ensures Blocker(s, id).None? <==>
            forall q :: q in s.reqs && q != id && Conflict(s.reqs[q], s.reqs[id]) ==> s.reqs[q].phase.Parked?
    ensures Blocker(s, id).Some? ==>
              var b := Blocker(s, id).value;
              b in s.reqs && b != id && Conflict(s.reqs[b], s.reqs[id]) && s.reqs[b].phase.Doing?
  {
    assert s.tracked[0..] == s.tracked;
    if s.serialisingInFlight == 0 {
      forall q | q in s.reqs ensures !s.reqs[q].serialising { NoneSerialising(s, q); }
    }
  }

  // ---- one wait ----

  ghost predicate InvExcept(s: State, id: nat) {
    && Booked(s) && id in s.reqs
    && (forall q :: q in s.reqs && q != id ==> ReqOk(s.reqs[q], s.align) && Fresh(s, s.reqs[q]))
    && (forall p, q | p in s.reqs && q in s.reqs && p != q && p != id && q != id ::
          s.reqs[p].phase.Doing? && s.reqs[q].phase.Doing? ==> !Conflict(s.reqs[p], s.reqs[q]))
    && (forall p :: p in s.reqs && p != id && s.reqs[p].phase.Parked? ==>
          s.reqs[p].phase.since < s.clock && s.reqs[p].phase.target != p && s.reqs[p].phase.target < s.nextId)
    && (forall p, q | p in s.reqs && q in s.reqs && p != id && q != id ::
          s.reqs[p].phase.Parked? && s.reqs[q].phase.Parked? && s.reqs[p].phase.target == q ==>
            s.reqs[p].phase.since < s.reqs[q].phase.since)
  }

  /** The request may start the stage, and if it must wait it has not read anything yet. */
  ghost predicate AtWait(s: State, id: nat, stage: Stage)
    requires id in s.reqs && s.align > 0
  {
    var r := s.reqs[id];
    && ReqOk(r.(phase := Doing(stage, {})), s.align) && Fresh(s, r.(phase := Doing(stage, {})))
    && (Blocker(s, id).Some? ==> stage == FirstStage(r, s.align) && r.head == map[] && r.tail == map[])
  }

  lemma SerialisingPut(reqs: map<nat, Req>, id: nat, r: Req)
    ensures |SerialisingSet(reqs[id := r])| == |SerialisingSet(reqs)|
            - (if id in reqs && reqs[id].serialising then 1 else 0) + (if r.serialising then 1 else 0)
  {
    var others := SerialisingSet(reqs) - {id};
    assert SerialisingSet(reqs) == if id in reqs && reqs[id].serialising then others + {id} else others;
    assert SerialisingSet(reqs[id := r]) == if r.serialising then others + {id} else others;
  }

  lemma SerialisingDrop(reqs: map<nat, Req>, id: nat)
    requires id in reqs
    ensures |SerialisingSet(reqs - {id})| == |SerialisingSet(reqs)| - if reqs[id].serialising then 1 else 0
  {
    assert SerialisingSet(reqs - {id}) == SerialisingSet(reqs) - {id};
  }

  lemma WaitBooked(s: State, id: nat, stage: Stage)
    requires InvExcept(s, id) && AtWait(s, id, stage)
    ensures Booked(Wait(s, id, stage)) && AllReqsOk(Wait(s, id, stage)) && AllFresh(Wait(s, id, stage))
  {
    hide Blocker, ReqOk, Fresh, SerialisingSet;
    var r, s' := s.reqs[id], Wait(s, id, stage);
    SerialisingPut(s.reqs, id, s'.reqs[id]);
    if Blocker(s, id).Some? {
      ParkedOk(r, s.align, stage, s'.reqs[id].phase);
      ParkedFresh(s', s'.reqs[id]);
    } else {
      FreshSameDisk(s, s', s'.reqs[id]);
    }
    forall q | q in s'.reqs && q != id ensures Fresh(s', s'.reqs[q]) { FreshSameDisk(s, s', s.reqs[q]); }
  }

  lemma ParkedFresh(s: State, r: Req)
    requires r.phase.Parked? && r.head == map[] && r.tail == map[]
    ensures Fresh(s, r)
  {
  }

  lemma ParkedOk(r: Req, align: nat, stage: Stage, p: Phase)
    requires align > 0 && ReqOk(r.(phase := Doing(stage, {})), align) && stage == FirstStage(r, align)
    requires r.head == map[] && r.tail == map[] && p.Parked? && p.stage == stage
    ensures ReqOk(r.(phase := p), align)
  {
  }

  lemma WaitExclusive(s: State, id: nat, stage: Stage)
    requires InvExcept(s, id) && AtWait(s, id, stage)
    ensures Exclusive(Wait(s, id, stage))
  {
    hide ScanFrom, ReqOk, Fresh, Blocker, Conflict, SerialisingSet, Booked;
    PassesIff(s, id);
    forall p, q | p in s.reqs && q in s.reqs ensures Conflict(s.reqs[p], s.reqs[q]) == Conflict(s.reqs[q], s.reqs[p]) {
      ConflictSymmetric(s.reqs[p], s.reqs[q]);
    }
    SamePlace(s.reqs[id], Wait(s, id, stage).reqs[id]);
  }

  lemma WaitStamped(s: State, id: nat, stage: Stage)
    requires InvExcept(s, id) && AtWait(s, id, stage)
    ensures Stamped(Wait(s, id, stage))
  {
    hide ScanFrom, ReqOk, Fresh, Blocker, Conflict, SerialisingSet;
    PassesIff(s, id);
  }

  lemma ConflictSymmetric(a: Req, b: Req)
    ensures Conflict(a, b) == Conflict(b, a)
  {
  }

  lemma SamePlace(r: Req, r': Req)
    requires r'.ovOffset == r.ovOffset && r'.ovBytes == r.ovBytes && r'.serialising == r.serialising
    ensures forall q :: Conflict(r', q) == Conflict(r, q) && Conflict(q, r') == Conflict(q, r)
  {
  }

  lemma WaitInv(s: State, id: nat, stage: Stage)
    requires InvExcept(s, id) && AtWait(s, id, stage)
    ensures Inv(Wait(s, id, stage))
  {
    WaitBooked(s, id, stage);
    WaitExclusive(s, id, stage);
    WaitStamped(s, id, stage);
  }

  // ---- the steps ----

  lemma WithoutOne(s: State, id: nat)
    requires Inv(s) && id in s.reqs
    ensures InvExcept(s, id)
  {
    hide ReqOk, Fresh, Conflict;
  }

  /** A waiting request has read nothing, so it can start its first stage. */
  lemma ParkedReady(s: State, r: Req)
    requires s.align > 0 && ReqOk(r, s.align) && r.phase.Parked?
    ensures ReqOk(r.(phase := Doing(r.phase.stage, {})), s.align) && Fresh(s, r.(phase := Doing(r.phase.stage, {})))
  {
    hide KindOk, InRange;
  }

  lemma ResumeInv(s: State, step: Step)
    requires Inv(s) && Enabled(s, step) && step.Resume?
    ensures Inv(Apply(s, step))
  {
    hide Blocker, ReqOk, Fresh, InvExcept, Wait;
    WithoutOne(s, step.id);
    var r := s.reqs[step.id];
    assert ReqOk(r, s.align);
    ParkedReady(s, r);
    ParkedEmpty(r, s.align);
    WaitInv(s, step.id, r.phase.stage);
  }

  lemma ParkedEmpty(r: Req, align: nat)
    requires align > 0 && ReqOk(r, align) && r.phase.Parked?
    ensures r.phase.stage == FirstStage(r, align) && r.head == map[] && r.tail == map[]
  {
  }

  /** The state in which a new request first waits: begun, and marked if it needs to be. */
  function Begun(s: State, kind: Kind, offset: nat, bytes: nat): State
    requires s.align > 0 && KindOk(kind, offset, bytes, s.align)
  {
    var s1, id := Start(s, kind, offset, bytes), s.nextId;
    var r := s1.reqs[id];
    if FirstStage(r, s.align).Final? then s1 else MarkReq(s1, id, MarkAlign(r, s.align))
  }

  lemma BegunReq(s: State, kind: Kind, offset: nat, bytes: nat)
    requires s.align > 0 && KindOk(kind, offset, bytes, s.align)
    ensures var s1, id := Begun(s, kind, offset, bytes), s.nextId;
            var r := s1.reqs[id];
            && r.head == map[] && r.tail == map[]
            && FirstStage(r, s.align) == FirstStage(Start(s, kind, offset, bytes).reqs[id], s.align)
            && ReqOk(r.(phase := Doing(FirstStage(r, s.align), {})), s.align)
            && Fresh(s1, r.(phase := Doing(FirstStage(r, s.align), {})))
            && s1 == s.(tracked := [id] + s.tracked, reqs := s.reqs[id := r], nextId := id + 1,
                        serialisingInFlight := s.serialisingInFlight + if r.serialising then 1 else 0)
  {
    hide Down, Up;
    var r0 := Start(s, kind, offset, bytes).reqs[s.nextId];
    RegionBounds(r0, s.align);
    MarkedRegion(r0, s.align);
  }

  lemma Joined(s: State, r: Req, s1: State)
    requires Inv(s)
    requires s1 == s.(tracked := [s.nextId] + s.tracked, reqs := s.reqs[s.nextId := r], nextId := s.nextId + 1,
                      serialisingInFlight := s.serialisingInFlight + if r.serialising then 1 else 0)
    ensures InvExcept(s1, s.nextId)
  {
    hide ReqOk, Conflict, Fresh, SerialisingSet;
    var id := s.nextId;
    SerialisingPut(s.reqs, id, r);
    forall q | q in s1.reqs && q != id ensures Fresh(s1, s1.reqs[q]) { FreshSameDisk(s, s1, s.reqs[q]); }
  }

  lemma BegunReady(s: State, kind: Kind, offset: nat, bytes: nat)
    requires Inv(s) && KindOk(kind, offset, bytes, s.align)
    ensures var s1, id := Begun(s, kind, offset, bytes), s.nextId;
            InvExcept(s1, id) && AtWait(s1, id, FirstStage(s1.reqs[id], s.align))
  {
    hide Blocker, ReqOk, Fresh, InvExcept, FirstStage;
    BegunReq(s, kind, offset, bytes);
    var s1 := Begun(s, kind, offset, bytes);
    Joined(s, s1.reqs[s.nextId], s1);
  }

  lemma BeginInv(s: State, step: Step)
    requires Inv(s) && Enabled(s, step) && step.Begin?
    ensures Inv(Apply(s, step))
  {
    hide Inv, InvExcept, AtWait, Wait, Blocker;
    BegunReq(s, step.kind, step.offset, step.bytes);
    BegunReady(s, step.kind, step.offset, step.bytes);
    var s1 := Begun(s, step.kind, step.offset, step.bytes);
    WaitInv(s1, s.nextId, FirstStage(s1.reqs[s.nextId], s.align));
  }

  lemma FreshSameDisk(s: State, s': State, r: Req)
    requires s'.disk == s.disk && Fresh(s, r)
    ensures Fresh(s', r)
  {
  }

  lemma EndBooked(s: State, id: nat)
    requires Booked(s) && id in s.reqs
    ensures Booked(End(s, id))
  {
    hide Remove, SerialisingSet;
    SerialisingDrop(s.reqs, id);
  }

  lemma EndOthers(s: State, id: nat)
    requires Exclusive(s) && Stamped(s) && id in s.reqs && s.align > 0
    ensures Exclusive(End(s, id)) && Stamped(End(s, id))
  {
    hide Remove, Conflict;
  }

  lemma EndInv(s: State, id: nat)
    requires Inv(s) && id in s.reqs
    ensures Inv(End(s, id))
  {
    hide ReqOk, Conflict, Fresh, Remove, Booked, SerialisingSet, Exclusive, Stamped;
    BookedDisk(s);
    EndBooked(s, id);
    EndOthers(s, id);
    var s' := End(s, id);
    forall q | q in s'.reqs ensures Fresh(s', s'.reqs[q]) { FreshSameDisk(s, s', s.reqs[q]); }
  }

  /** A request past its wait that reaches its next stage does not wait again. */
  lemma NeverWaitsAgain(s: State, id: nat, stage: Stage)
    requires Inv(s) && id in s.reqs && s.reqs[id].phase.Doing? && (stage.Final? || s.reqs[id].serialising)
    ensures MarkAlign(s.reqs[id], s.align) > 0 || stage.Final?
    ensures Enter(s, id, stage) == SetReq(s, id, s.reqs[id].(phase := Doing(stage, {})))
  {
    hide ScanFrom, Conflict, Down, Up;
    var r := s.reqs[id];
    assert ReqOk(r, s.align);
    PassesIff(s, id);
    if !stage.Final? {
      MarkedRegion(r, s.align);
      assert MarkReq(s, id, MarkAlign(r, s.align)) == s;
    }
  }

  lemma StageDone(s: State, r: Req, stage: Stage)
    requires s.align > 0 && ReqOk(r, s.align) && r.phase.Doing? && !r.phase.stage.Final?
    requires forall a :: InRange(r, s.align, r.phase.stage, a) ==> a in r.phase.done
    requires stage == NextStage(r, s.align, r.phase.stage) || (r.kind.CopyOnRead? && stage.Final?)
    ensures ReqOk(r.(phase := Doing(stage, {})), s.align)
    ensures Fresh(s, r) ==> Fresh(s, r.(phase := Doing(stage, {})))
    ensures r.serialising
  {
  }

  lemma ReplaceExclusive(s: State, id: nat, r: Req, s': State)
    requires Exclusive(s) && Stamped(s) && id in s.reqs && s.reqs[id].phase.Doing? && r.phase.Doing?
    requires r.serialising == s.reqs[id].serialising && r.ovOffset == s.reqs[id].ovOffset
    requires r.ovBytes == s.reqs[id].ovBytes
    requires s' == SetReq(s, id, r).(disk := s'.disk)
    ensures Exclusive(s') && Stamped(s')
  {
    hide Conflict;
    SamePlace(s.reqs[id], r);
  }

  /** Replacing one request by one at the same place and still past its wait. */
  lemma ReplaceInv(s: State, id: nat, r: Req, s': State)
    requires Inv(s) && id in s.reqs && s.reqs[id].phase.Doing? && r.phase.Doing? && ReqOk(r, s.align)
    requires r.serialising == s.reqs[id].serialising && r.ovOffset == s.reqs[id].ovOffset
    requires r.ovBytes == s.reqs[id].ovBytes
    requires s' == SetReq(s, id, r).(disk := s'.disk) && (forall a: nat :: a in s'.disk)
    requires Fresh(s', r) && forall q :: q in s.reqs && q != id ==> Fresh(s', s.reqs[q])
    ensures Inv(s')
  {
    hide ReqOk, Fresh, Conflict, SerialisingSet, Exclusive, Stamped;
    SerialisingPut(s.reqs, id, r);
    ReplaceExclusive(s, id, r, s');
  }

  lemma FinishInv(s: State, step: Step)
    requires Inv(s) && Enabled(s, step) && step.Finish?
    ensures Inv(Apply(s, step))
  {
    hide ReqOk, Fresh, Exclusive, Stamped, Booked;
    var id := step.id;
    var r := s.reqs[id];
    if r.phase.stage.Final? {
      EndInv(s, id);
    } else {
      assert Booked(s) && ReqOk(r, s.align) && Fresh(s, r);
      var stage := if r.kind.CopyOnRead? then Final else NextStage(r, s.align, r.phase.stage);
      StageDone(s, r, stage);
      NeverWaitsAgain(s, id, stage);
      var r' := r.(phase := Doing(stage, {}));
      var s' := SetReq(s, id, r');
      FreshSameDisk(s, s', r');
      forall q | q in s.reqs && q != id ensures Fresh(s', s.reqs[q]) { FreshSameDisk(s, s', s.reqs[q]); }
      BookedDisk(s);
      ReplaceInv(s, id, r', s');
    }
  }

  lemma BookedDisk(s: State)
    requires Booked(s)
    ensures s.align > 0 && forall a: nat :: a in s.disk
  {
  }

  lemma MovedOk(r: Req, r': Req, align: nat, a: nat)
    requires align > 0 && ReqOk(r, align) && r.phase.Doing? && InRange(r, align, r.phase.stage, a)
    requires r' == r.(phase := Doing(r.phase.stage, r.phase.done + {a}), head := r'.head, tail := r'.tail)
    requires r'.head.Keys == if r.phase.stage.Head? || r.kind.Read? then r.head.Keys + {a} else r.head.Keys
    requires r'.tail.Keys == if r.phase.stage.Tail? then r.tail.Keys + {a} else r.tail.Keys
    ensures ReqOk(r', align)
  {
    hide KindOk, Down, Up;
    assert KindOk(r.kind, r.offset, r.bytes, align);
    RangeInside(r, align, r.phase.stage, a);
    forall stage, b | InRange(r', align, stage, b) ensures InRange(r, align, stage, b) { }
    forall stage, b | InRange(r, align, stage, b) ensures InRange(r', align, stage, b) { }
    forall b | b in r'.head || b in r'.tail ensures InRange(r', align, Final, b) { }
  }

  /** The request after one byte of its driver operation. */
  lemma MovedReq(s: State, id: nat, a: nat)
    requires Inv(s) && Enabled(s, MoveByte(id, a))
    ensures var r, s' := s.reqs[id], Move(s, id, a);
            var r' := s'.reqs[id];
            && r'.phase.Doing? && ReqOk(r', s.align)
            && r' == r.(phase := r'.phase, head := r'.head, tail := r'.tail)
            && s' == SetReq(s, id, r').(disk := s'.disk)
  {
    hide Fresh, Exclusive, Stamped, Booked, ReqOk, HasStage;
    var r, s' := s.reqs[id], Move(s, id, a);
    assert ReqOk(r, s.align);
    if r.kind.Read? { ReadStage(r, s.align); }
    MovedOk(r, s'.reqs[id], s.align, a);
  }

  lemma ReadStage(r: Req, align: nat)
    requires align > 0 && ReqOk(r, align) && r.kind.Read?
    ensures r.phase.stage.Final?
  {
  }

  /** No other serialising request has read or written the byte. */
  lemma OthersFresh(s: State, id: nat, a: nat, q: nat)
    requires Inv(s) && Enabled(s, MoveByte(id, a)) && q in s.reqs && q != id
    ensures Fresh(Move(s, id, a), s.reqs[q])
  {
    hide KindOk, Stamped, Booked;
    var r, o, s' := s.reqs[id], s.reqs[q], Move(s, id, a);
    assert ReqOk(r, s.align) && ReqOk(o, s.align) && Fresh(s, o);
    if s'.disk == s.disk {
      FreshSameDisk(s, s', o);
    } else if o.serialising && o.phase.Doing? {
      assert !Conflict(r, o);
      RangeInside(r, s.align, Final, a);
      assert InRange(r, s.align, Final, a) && !InRange(o, s.align, Final, a);
      assert a !in o.head && a !in o.tail;
    }
  }

  lemma OwnFresh(s: State, id: nat, a: nat)
    requires Inv(s) && Enabled(s, MoveByte(id, a))
    ensures Fresh(Move(s, id, a), Move(s, id, a).reqs[id])
  {
    hide KindOk, Stamped, Booked, Exclusive, InRange, ReqOk;
    assert Fresh(s, s.reqs[id]);
  }

  lemma MoveInv(s: State, id: nat, a: nat)
    requires Inv(s) && Enabled(s, MoveByte(id, a))
    ensures Inv(Move(s, id, a))
  {
    hide ReqOk, Fresh, Exclusive, Stamped, HasValue, InRange;
    MovedReq(s, id, a);
    OwnFresh(s, id, a);
    var s' := Move(s, id, a);
    forall q | q in s.reqs && q != id ensures Fresh(s', s.reqs[q]) { OthersFresh(s, id, a, q); }
    BookedDisk(s);
    ReplaceInv(s, id, s'.reqs[id], s');
  }

  lemma StepInv(s: State, step: Step)
    requires Inv(s) && Enabled(s, step)
    ensures Inv(Apply(s, step))
  {
    hide Inv, Wait, Enter, End, Move, HasValue;
    match step
    case Begin(_, _, _) => BeginInv(s, step);
    case Resume(_) => ResumeInv(s, step);
    case MoveByte(id, a) => MoveInv(s, id, a);
    case Finish(_) => FinishInv(s, step);
    case Stop(id) => EndInv(s, id);
  }

  // ---- whole runs ----

  ghost predicate Run(states: seq<State>, steps: seq<Step>) {
    && |states| == |steps| + 1 && Init(states[0])
    && forall i :: 0 <= i < |steps| ==> Enabled(states[i], steps[i]) && states[i + 1] == Apply(states[i], steps[i])
  }

  lemma InitInv(s: State)
    requires Init(s)
    ensures Inv(s)
  {
    assert SerialisingSet(s.reqs) == {};
  }

  lemma {:induction false} RunInv(states: seq<State>, steps: seq<Step>, i: nat)
    requires Run(states, steps) && i <= |steps|
    ensures Inv(states[i])
  {
    hide Inv, Apply, Enabled;
    if i == 0 {
      InitInv(states[0]);
    } else {
      RunInv(states, steps, i - 1);
      assert Enabled(states[i - 1], steps[i - 1]) && states[i - 1 + 1] == Apply(states[i - 1], steps[i - 1]);
      StepInv(states[i - 1], steps[i - 1]);
    }
  }

  /** Two requests that overlap, one of them serialising, are never both past their wait. */
  lemma NeverBothPastWait(states: seq<State>, steps: seq<Step>, i: nat, p: nat, q: nat, a: nat)
    requires Run(states, steps) && i <= |steps| && p in states[i].reqs && q in states[i].reqs && p != q
    requires states[i].reqs[p].serialising
    requires var r := states[i].reqs[p]; r.ovOffset <= a < r.ovOffset + r.ovBytes
    requires var r := states[i].reqs[q]; r.ovOffset <= a < r.ovOffset + r.ovBytes
    ensures states[i].reqs[p].phase.Parked? || states[i].reqs[q].phase.Parked?
  {
    RunInv(states, steps, i);
    assert Conflict(states[i].reqs[p], states[i].reqs[q]);
  }

  /** Only driver writes touch the disk. */
  lemma DiskChange(s: State, step: Step, a: nat)
    requires Inv(s) && Enabled(s, step) && a in s.disk && a in Apply(s, step).disk
    requires Apply(s, step).disk[a] != s.disk[a]
    ensures step.MoveByte? && step.a == a && s.reqs[step.id].phase.stage.Final? && !s.reqs[step.id].kind.Read?
    ensures Apply(s, step).disk[a] == Value(s.reqs[step.id], a)
  {
    hide Inv, Blocker, Value, HasValue, FirstStage, NextStage, InRange;
  }

  /** The byte a padded write puts back outside the bytes it was asked to write is the byte on disk. */
  lemma PaddingIsCurrent(s: State, id: nat, a: nat)
    requires Inv(s) && Enabled(s, MoveByte(id, a)) && !s.reqs[id].kind.Read?
    requires s.reqs[id].phase.stage.Final? && !Requested(s.reqs[id], a)
    ensures Value(s.reqs[id], a) == s.disk[a]
  {
    hide Exclusive, Stamped, Down, Up;
    var r := s.reqs[id];
    assert ReqOk(r, s.align) && Fresh(s, r);
    RegionBounds(r, s.align);
    assert r.serialising;
  }

  /** No lost update: in every run, whenever a byte of the disk changes, it changes because a
      write request was asked to write that byte, and it changes to what the request brought. */
  lemma NoLostUpdate(states: seq<State>, steps: seq<Step>, i: nat, a: nat)
    requires Run(states, steps) && i < |steps|
    requires a in states[i].disk && a in states[i + 1].disk && states[i + 1].disk[a] != states[i].disk[a]
    ensures steps[i].MoveByte? && steps[i].a == a && steps[i].id in states[i].reqs
    ensures var r := states[i].reqs[steps[i].id];
            Requested(r, a) && a - r.offset < |r.kind.data| && states[i + 1].disk[a] == r.kind.data[a - r.offset]
  {
    hide Inv;
    RunInv(states, steps, i);
    assert Enabled(states[i], steps[i]) && states[i + 1] == Apply(states[i], steps[i]);
    DiskChange(states[i], steps[i], a);
    if !Requested(states[i].reqs[steps[i].id], a) {
      PaddingIsCurrent(states[i], steps[i].id, a);
    }
  }

  /** What the request was asked for is the same. */
  predicate SameAsk(r: Req, r': Req) {
    r'.kind == r.kind && r'.offset == r.offset && r'.bytes == r.bytes
  }

  /** Entering a stage changes no other request and nothing of what this one was asked for or has read. */
  lemma EnterKeeps(s: State, id: nat, stage: Stage, q: nat)
    requires id in s.reqs && (stage.Final? || MarkAlign(s.reqs[id], s.align) > 0)
    ensures Enter(s, id, stage).reqs.Keys == s.reqs.Keys
    ensures q in s.reqs && q != id ==> Enter(s, id, stage).reqs[q] == s.reqs[q]
    ensures var r, r' := s.reqs[id], Enter(s, id, stage).reqs[id];
            SameAsk(r, r') && r'.head == r.head && r'.tail == r.tail && (r'.phase.Doing? ==> r'.phase.done == {})
  {
    hide Blocker, Down, Up;
  }

  lemma WaitKeeps(s: State, id: nat, stage: Stage, q: nat)
    requires id in s.reqs
    ensures Wait(s, id, stage).reqs.Keys == s.reqs.Keys
    ensures q in s.reqs && q != id ==> Wait(s, id, stage).reqs[q] == s.reqs[q]
    ensures var r, r' := s.reqs[id], Wait(s, id, stage).reqs[id];
            SameAsk(r, r') && r'.head == r.head && r'.tail == r.tail && (r'.phase.Doing? ==> r'.phase.done == {})
  {
    hide Blocker;
  }

  /** The two lemmas above at the step that a state takes. */
  lemma StepKeeps(s: State, step: Step, q: nat)
    requires Inv(s) && Enabled(s, step) && !step.MoveByte? && q in Apply(s, step).reqs
    ensures var r' := Apply(s, step).reqs[q];
            if q in s.reqs then
              SameAsk(s.reqs[q], r') && r'.head == s.reqs[q].head
              && (r' == s.reqs[q] || (r'.phase.Doing? ==> r'.phase.done == {}))
            else
              q == s.nextId && step == Begin(r'.kind, r'.offset, r'.bytes) && (r'.phase.Doing? ==> r'.phase.done == {})
  {
    hide Wait, Enter, FirstStage, NextStage, InRange, Down, Up, ReqOk, Fresh, Exclusive, Stamped, HasStage;
    match step
    case Begin(kind, offset, bytes) =>
      var s1 := Start(s, kind, offset, bytes);
      EnterKeeps(s1, s.nextId, FirstStage(s1.reqs[s.nextId], s.align), q);
    case Resume(id) => WaitKeeps(s, id, s.reqs[id].phase.stage, q);
    case Finish(id) =>
      var r := s.reqs[id];
      if !r.phase.stage.Final? && !r.kind.CopyOnRead? {
        EnterKeeps(s, id, NextStage(r, s.align, r.phase.stage), q);
      }
    case Stop(id) =>
  }

  /** A tracked request was tracked before the step, for the same, or the step is its beginning. */
  lemma StepAsk(s: State, step: Step, id: nat)
    requires Inv(s) && Enabled(s, step) && id in Apply(s, step).reqs
    ensures var r' := Apply(s, step).reqs[id];
            || (id in s.reqs && SameAsk(s.reqs[id], r'))
            || (id == s.nextId && step == Begin(r'.kind, r'.offset, r'.bytes))
  {
    hide Inv, Wait, Enter, Value, HasValue, FirstStage, NextStage, InRange;
    if !step.MoveByte? {
      StepKeeps(s, step, id);
    }
  }

  /** Every tracked request began in the run, with the request it then has. */
  lemma {:induction false} BegunAt(states: seq<State>, steps: seq<Step>, i: nat, id: nat) returns (b: nat)
    requires Run(states, steps) && i <= |steps| && id in states[i].reqs
    ensures b < i && states[b].nextId == id
    ensures var r := states[i].reqs[id]; steps[b] == Begin(r.kind, r.offset, r.bytes)
  {
    hide Inv, Enabled, Apply;
    var k := i - 1;
    RunInv(states, steps, k);
    assert Enabled(states[k], steps[k]) && states[k + 1] == Apply(states[k], steps[k]);
    StepAsk(states[k], steps[k], id);
    if id in states[k].reqs && SameAsk(states[k].reqs[id], states[i].reqs[id]) {
      b := BegunAt(states, steps, k, id);
    } else {
      b := k;
    }
  }

  lemma MoveKeeps(s: State, step: Step, q: nat, a: nat)
    requires Enabled(s, step) && step.MoveByte? && q in Apply(s, step).reqs
    ensures q in s.reqs
    ensures var r, r' := s.reqs[q], Apply(s, step).reqs[q];
            if q != step.id then r' == r
            else
              && SameAsk(r, r') && r.phase.Doing? && r'.phase == Doing(r.phase.stage, r.phase.done + {step.a})
              && (a != step.a ==> (a in r'.head <==> a in r.head) && (a in r.head ==> r'.head[a] == r.head[a]))
  {
    hide Value, HasValue, InRange;
  }

  /** A byte that a stage has done was done before the step, or the step does it. */
  lemma StepDone(s: State, step: Step, id: nat, a: nat)
    requires Inv(s) && Enabled(s, step) && id in Apply(s, step).reqs
    requires var r' := Apply(s, step).reqs[id]; r'.phase.Doing? && a in r'.phase.done
    ensures id in s.reqs && s.reqs[id].phase.Doing?
    ensures var r, r' := s.reqs[id], Apply(s, step).reqs[id];
            && SameAsk(r, r') && r.phase.stage == r'.phase.stage
            && (step == MoveByte(id, a) ||
                (a in r.phase.done && (a in r'.head <==> a in r.head) && (a in r.head ==> r'.head[a] == r.head[a])))
  {
    hide Inv, Enabled, Apply;
    if step.MoveByte? {
      MoveKeeps(s, step, id, a);
    } else {
      StepKeeps(s, step, id);
    }
  }

  /** What one byte of the final transfer does: a read takes it from the disk; a write puts there the byte it brought if
      it was asked to write it, and what is there already if not. */
  lemma MoveDoes(s: State, id: nat, a: nat)
    requires Inv(s) && Enabled(s, MoveByte(id, a)) && s.reqs[id].phase.stage.Final?
    ensures var r, s' := s.reqs[id], Apply(s, MoveByte(id, a));
            && a in s.disk && a in s'.disk && id in s'.reqs && (forall c :: c != a ==> (c in s'.disk <==> c in s.disk))
            && (forall c :: c != a && c in s.disk ==> s'.disk[c] == s.disk[c])
            && (r.kind.Read? ==> s'.disk == s.disk && a in s'.reqs[id].head && s'.reqs[id].head[a] == s.disk[a])
            && (Requested(r, a) ==> a - r.offset < |r.kind.data| && s'.disk[a] == r.kind.data[a - r.offset])
            && (!r.kind.Read? && !Requested(r, a) ==> s'.disk[a] == s.disk[a])
  {
    hide Exclusive, Stamped, Down, Up, Fresh;
    var r := s.reqs[id];
    assert ReqOk(r, s.align);
    if !r.kind.Read? && !Requested(r, a) {
      PaddingIsCurrent(s, id, a);
    }
  }

  /** The last step that did the byte, for a final transfer under way. */
  lemma {:induction false} DoneAt(states: seq<State>, steps: seq<Step>, i: nat, id: nat, a: nat) returns (j: nat)
    requires Run(states, steps) && i <= |steps| && id in states[i].reqs
    requires var r := states[i].reqs[id]; r.phase.Doing? && r.phase.stage.Final? && a in r.phase.done
    ensures j < i && steps[j] == MoveByte(id, a) && id in states[j].reqs
    ensures forall k :: j < k < i ==> steps[k] != MoveByte(id, a)
    ensures var r, r' := states[j].reqs[id], states[i].reqs[id];
            && SameAsk(r, r') && r.phase.Doing? && r.phase.stage.Final?
            && (r.kind.Read? ==> a in states[j].disk && a in r'.head && r'.head[a] == states[j].disk[a])
  {
    hide Inv, Enabled, Apply;
    var k := i - 1;
    RunInv(states, steps, k);
    assert Enabled(states[k], steps[k]) && states[k + 1] == Apply(states[k], steps[k]);
    StepDone(states[k], steps[k], id, a);
    if steps[k] == MoveByte(id, a) {
      j := k;
      MoveDoes(states[k], id, a);
    } else {
      j := DoneAt(states, steps, k, id, a);
    }
  }

  /** A byte of the disk stays while nobody moves it. */
  lemma {:induction false} DiskStays(states: seq<State>, steps: seq<Step>, j: nat, i: nat, a: nat)
    requires Run(states, steps) && j <= i <= |steps|
    requires forall k :: j <= k < i ==> !(steps[k].MoveByte? && steps[k].a == a)
    ensures a in states[j].disk && a in states[i].disk && states[i].disk[a] == states[j].disk[a]
    decreases i
  {
    hide Inv, Enabled, Apply;
    RunInv(states, steps, i);
    RunInv(states, steps, j);
    HasByte(states[i], a);
    HasByte(states[j], a);
    if j < i {
      var k := i - 1;
      DiskStays(states, steps, j, k, a);
      assert Enabled(states[k], steps[k]) && states[k + 1] == Apply(states[k], steps[k]);
      RunInv(states, steps, k);
      if states[i].disk[a] != states[k].disk[a] {
        DiskChange(states[k], steps[k], a);
      }
    }
  }

  lemma HasByte(s: State, a: nat)
    requires Inv(s)
    ensures a in s.disk
  {
  }

  /** Every request that completes has done what it was begun for, at every address it was asked for: a write,
      serialising or not, has put the byte it brought on the disk, where it still is unless another request has moved
      that byte since; a read returns a byte that was on the disk during the read; a copy-on-read one that is still
      there. */
  lemma Completed(states: seq<State>, steps: seq<Step>, i: nat, a: nat) returns (b: nat, j: nat)
    requires Run(states, steps) && i < |steps| && steps[i].Finish? && steps[i].id in states[i].reqs
    requires states[i].reqs[steps[i].id].phase.Doing? && states[i].reqs[steps[i].id].phase.stage.Final?
    requires var r := states[i].reqs[steps[i].id]; r.offset <= a < r.offset + r.bytes
    ensures var id, r := steps[i].id, states[i].reqs[steps[i].id];
            && b < j < i && steps[b] == Begin(r.kind, r.offset, r.bytes) && states[b].nextId == id
            && steps[j] == MoveByte(id, a) && a in states[j].disk && a in states[j + 1].disk && a in states[i].disk
            && (r.kind.Write? ==> a - r.offset < |r.kind.data| && states[j + 1].disk[a] == r.kind.data[a - r.offset])
            && (r.kind.Write? ==>
                  || states[i].disk[a] == r.kind.data[a - r.offset]
                  || exists k :: j < k < i && steps[k].MoveByte? && steps[k].id != id && steps[k].a == a)
            && (r.kind.Read? ==> a in r.head && r.head[a] == states[j].disk[a])
            && (r.kind.CopyOnRead? ==> a in r.head && r.head[a] == states[i].disk[a])
  {
    hide Inv, Enabled, Apply, Down, Up;
    var id, r := steps[i].id, states[i].reqs[steps[i].id];
    RunInv(states, steps, i);
    assert Enabled(states[i], steps[i]);
    FinalDone(states[i], id, a);
    j := DoneAt(states, steps, i, id, a);
    b := BegunAt(states, steps, j, id);
    RunInv(states, steps, j);
    assert Enabled(states[j], steps[j]) && states[j + 1] == Apply(states[j], steps[j]);
    MoveDoes(states[j], id, a);
    if r.kind.Write? && !exists k :: j < k < i && steps[k].MoveByte? && steps[k].id != id && steps[k].a == a {
      DiskStays(states, steps, j + 1, i, a);
    }
  }

  lemma FinalDone(s: State, id: nat, a: nat)
    requires Inv(s) && Enabled(s, Finish(id)) && s.reqs[id].phase.stage.Final?
    requires s.reqs[id].offset <= a < s.reqs[id].offset + s.reqs[id].bytes
    ensures a in s.reqs[id].phase.done && a in s.disk
    ensures var r := s.reqs[id]; r.kind.CopyOnRead? ==> a in r.head && r.head[a] == s.disk[a]
  {
    hide Exclusive, Stamped, Down, Up;
    var r := s.reqs[id];
    assert ReqOk(r, s.align) && Fresh(s, r);
    RegionBounds(r, s.align);
  }

  /** A serialising write that completes has put exactly its data on disk. */
  lemma CompletedWrite(states: seq<State>, steps: seq<Step>, i: nat, a: nat)
    requires Run(states, steps) && i < |steps| && steps[i].Finish? && steps[i].id in states[i].reqs
    requires var r := states[i].reqs[steps[i].id]; r.phase.Doing? && r.phase.stage.Final? && r.serialising
                                                   && Requested(r, a)
    requires a in states[i].disk
    ensures var r := states[i].reqs[steps[i].id];
            a - r.offset < |r.kind.data| && states[i].disk[a] == r.kind.data[a - r.offset]
  {
    RunInv(states, steps, i);
    var s, r := states[i], states[i].reqs[steps[i].id];
    assert Enabled(s, steps[i]) && ReqOk(r, s.align) && Fresh(s, r);
    RegionBounds(r, s.align);
    assert a in r.phase.done;
  }

  /** The counter that lets a scan be skipped is exact. */
  lemma InFlightExact(states: seq<State>, steps: seq<Step>, i: nat)
    requires Run(states, steps) && i <= |steps|
    ensures states[i].serialisingInFlight == |SerialisingSet(states[i].reqs)|
  {
    RunInv(states, steps, i);
  }

  ghost predicate WaitPath(s: State, path: seq<nat>) {
    |path| > 1 && forall i :: 0 <= i < |path| - 1 ==>
      path[i] in s.reqs && s.reqs[path[i]].phase.Parked? && s.reqs[path[i]].phase.target == path[i + 1]
  }

  lemma {:induction false} StampsGrow(s: State, path: seq<nat>, j: nat)
    requires Stamped(s) && WaitPath(s, path) && j < |path| - 1
    ensures s.reqs[path[0]].phase.since <= s.reqs[path[j]].phase.since
    decreases j
  {
    if j > 0 {
      StampsGrow(s, path, j - 1);
      assert s.reqs[path[j - 1]].phase.target == path[j - 1 + 1];
    }
  }

  /** The waiting_for graph has no cycle in any reachable state. */
  lemma NoWaitCycle(states: seq<State>, steps: seq<Step>, i: nat, path: seq<nat>)
    requires Run(states, steps) && i <= |steps| && WaitPath(states[i], path)
    ensures path[0] != path[|path| - 1]
  {
    RunInv(states, steps, i);
    StampsGrow(states[i], path, |path| - 2);
    assert states[i].reqs[path[|path| - 2]].phase.target == path[|path| - 2 + 1];
  }

  lemma {:induction false} FollowWaits(s: State, id: nat) returns (p: nat)
    requires Stamped(s) && id in s.reqs
    ensures p in s.reqs && (s.reqs[p].phase.Doing? || s.reqs[p].phase.target !in s.reqs)
    decreases if s.reqs[id].phase.Parked? then s.clock - s.reqs[id].phase.since else 0
  {
    if s.reqs[id].phase.Doing? || s.reqs[id].phase.target !in s.reqs {
      p := id;
    } else {
      p := FollowWaits(s, s.reqs[id].phase.target);
    }
  }

  /** A request past its wait can always go on at the driver. */
  lemma DriverMoves(s: State, p: nat) returns (step: Step)
    requires Inv(s) && p in s.reqs && s.reqs[p].phase.Doing?
    ensures (step.MoveByte? || step.Finish?) && step.id == p && Enabled(s, step)
  {
    hide Exclusive, Stamped, Fresh, ReqOk;
    var r := s.reqs[p];
    assert ReqOk(r, s.align);
    if a :| InRange(r, s.align, r.phase.stage, a) && a !in r.phase.done {
      step := MoveByte(p, a);
      if r.phase.stage.Final? && !r.kind.Read? { FinalHasValue(r, s.align, a); }
    } else {
      step := Finish(p);
      forall a | RangeLo(r, s.align, r.phase.stage) <= a < RangeHi(r, s.align, r.phase.stage)
        ensures a in r.phase.done
      {
        assert InRange(r, s.align, r.phase.stage, a);
      }
    }
  }

  /** No deadlock: while requests are tracked, one of them can go on at the driver or wake up. */
  lemma SomeoneMoves(states: seq<State>, steps: seq<Step>, i: nat, id: nat) returns (step: Step)
    requires Run(states, steps) && i <= |steps| && id in states[i].reqs
    ensures (step.MoveByte? || step.Finish? || step.Resume?) && Enabled(states[i], step)
  {
    hide Enabled;
    RunInv(states, steps, i);
    var p := FollowWaits(states[i], id);
    if states[i].reqs[p].phase.Doing? {
      step := DriverMoves(states[i], p);
    } else {
      step := Resume(p);
      CanResume(states[i], p);
    }
  }

  lemma CanResume(s: State, p: nat)
    requires s.align > 0 && p in s.reqs && s.reqs[p].phase.Parked? && s.reqs[p].phase.target !in s.reqs
    ensures Enabled(s, Resume(p))
  {
  }
}
