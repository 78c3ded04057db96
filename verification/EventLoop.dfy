/** The event loop: bottom halves (qemu-2.0/async.c) and file-descriptor handlers (qemu-2.0/aio-posix.c).
    Both live on lists that are walked while callbacks add and delete elements and poll again, to any depth. */
module EventLoop {
  /** The list `a` is the tail of the list `b`: `b` has only new elements in front. */
  ghost predicate Tail(a: seq<nat>, b: seq<nat>) {
    |a| <= |b| && b[|b| - |a|..] == a
  }

  predicate Distinct(s: seq<nat>) {
    forall i, j :: 0 <= i < j < |s| ==> s[i] != s[j]
  }

  lemma TailTrans(a: seq<nat>, b: seq<nat>, c: seq<nat>)
    requires Tail(a, b) && Tail(b, c)
    ensures Tail(a, c)
  {
    forall i | 0 <= i < |a| ensures c[|c| - |a| + i] == a[i] {
      assert b[|b| - |a|..][i] == a[i];
      assert c[|c| - |b|..][|b| - |a| + i] == b[|b| - |a| + i];
    }
  }

  lemma TailDrop(a: seq<nat>, b: seq<nat>)
    requires Tail(a, b) && a != []
    ensures Tail(a[1..], b)
  {
    assert b[|b| - |a|..][1..] == b[|b| - |a| + 1..];
  }

  lemma TailHead(a: seq<nat>, b: seq<nat>)
    requires Tail(a, b) && a != []
    ensures a[0] == b[|b| - |a|] && a[0] in b
  {
    assert b[|b| - |a|..][0] == b[|b| - |a|];
  }

  /** The element after x in the list, if any: x->next. */
  datatype Link = Nil | To(id: nat)

  function First(s: seq<nat>): Link { if s == [] then Nil else To(s[0]) }

  function Next(s: seq<nat>, x: nat): Link
    requires x in s
  {
    if s[0] == x then First(s[1..]) else Next(s[1..], x)
  }

  /** The element after the head of a tail is the head of the rest. */
  lemma NextInTail(a: seq<nat>, b: seq<nat>)
    requires Tail(a, b) && a != [] && Distinct(b)
    ensures a[0] in b && Next(b, a[0]) == First(a[1..])
    decreases |b|
  {
    TailHead(a, b);
    if |a| == |b| {
      assert a == b;
    } else {
      assert b[1..][|b| - 1 - |a|..] == b[|b| - |a|..];
      NextInTail(a, b[1..]);
      assert b[0] != b[|b| - |a|];
    }
  }

  /** The list without some elements. */
  function Without(s: seq<nat>, gone: set<nat>): (t: seq<nat>)
    ensures forall x :: x in t <==> x in s && x !in gone
    ensures Distinct(s) ==> Distinct(t)
  {
    if s == [] then [] else if s[0] in gone then Without(s[1..], gone) else [s[0]] + Without(s[1..], gone)
  }

  /** The part of a history from length n on. */
  function Since(h: seq<nat>, n: nat): set<nat> {
    if n <= |h| then set x | x in h[n..] else {}
  }

  lemma SinceMore(h: seq<nat>, h': seq<nat>, n: nat)
    requires h <= h' && n <= |h|
    ensures Since(h, n) <= Since(h', n) && Since(h', |h|) <= Since(h', n)
  {
    forall x | x in h[n..] ensures x in h'[n..] {
      var i :| 0 <= i < |h[n..]| && h[n..][i] == x;
      assert h'[n..][i] == x;
    }
    forall x | x in h'[|h|..] ensures x in h'[n..] {
      var i :| 0 <= i < |h'[|h|..]| && h'[|h|..][i] == x;
      assert h'[n..][|h| - n + i] == x;
    }
  }

  lemma SinceSplit(h: seq<nat>, h': seq<nat>, n: nat)
    requires h <= h' && n <= |h|
    ensures Since(h', n) == Since(h, n) + Since(h', |h|)
  {
    assert h'[n..] == h[n..] + h'[|h|..];
  }

  // Bottom halves.

  /** A bottom half was run, scheduled as idle or not, by a walk inside `level` - 1 others. */
  datatype Run = Run(b: nat, idly: bool, level: nat)

  /** All runs from the n-th on are by walks inside more than `level` others. */
  ghost predicate Deeper(runs: seq<Run>, n: nat, level: nat) {
    forall i :: n <= i < |runs| ==> runs[i].level > level
  }

  /** From the n-th run on, the walk at the level has run a bottom half that was not idle. */
  ghost predicate Busy(runs: seq<Run>, n: nat, level: nat) {
    exists i :: n <= i < |runs| && runs[i].level == level && !runs[i].idly
  }

  /** One more run by the walk at the level, with whatever its callback does. */
  lemma RunsMore(runs: seq<Run>, n: nat, level: nat, r: Run, runs': seq<Run>)
    requires n <= |runs| && r.level == level > 0 && Deeper(runs, n, level - 1)
    requires runs + [r] <= runs' && Deeper(runs', |runs| + 1, level)
    ensures runs <= runs' && Deeper(runs', n, level - 1)
    ensures Busy(runs', n, level) <==> Busy(runs, n, level) || !r.idly
  {
    assert runs'[|runs|] == r;
    assert forall i :: 0 <= i < |runs| ==> runs'[i] == (runs + [r])[i] == runs[i];
    if Busy(runs, n, level) {
      var i :| n <= i < |runs| && runs[i].level == level && !runs[i].idly;
      assert runs'[i] == runs[i];
    }
  }

  /** asked: the bottom halves that were scheduled, served: those that were run, cancelled or deleted, in order. */
  datatype BhView = BhView(list: seq<nat>, scheduled: set<nat>, deleted: set<nat>, walking: nat, asked: seq<nat>,
                           served: seq<nat>, runs: seq<Run>)

  ghost predicate BhOk(v: BhView) {
    && Distinct(v.list) && v.scheduled !! v.deleted
    && (forall b :: b in v.scheduled + v.deleted ==> b in v.list)
  }

  /** What callbacks may do: while a walk is on no bottom half goes away, and a scheduled one stays so until it is
      served. */
  ghost predicate BhStep(v: BhView, w: BhView) {
    && w.walking == v.walking && v.served <= w.served
    && (v.walking > 0 ==> Tail(v.list, w.list))
    && v.scheduled <= w.scheduled + Since(w.served, |v.served|)
    && v.asked <= w.asked && w.scheduled <= v.scheduled + Since(w.asked, |v.asked|)
    && v.runs <= w.runs && Deeper(w.runs, |v.runs|, v.walking)
  }

  lemma BhStepTrans(u: BhView, v: BhView, w: BhView)
    requires BhStep(u, v) && BhStep(v, w)
    ensures BhStep(u, w)
  {
    if u.walking > 0 {
      TailTrans(u.list, v.list, w.list);
    }
    SinceMore(v.served, w.served, |u.served|);
    SinceMore(v.asked, w.asked, |u.asked|);
  }

  // Handlers.

  datatype Poll = In | Hup | Err | Out

  /** notifier: it is the context's own, which only ends a wait. */
  datatype Node = Node(fd: int, read: bool, write: bool, notifier: bool, events: set<Poll>, revents: set<Poll>,
                       deleted: bool)

  predicate CanRead(n: Node) { !n.deleted && (n.revents * n.events) * {In, Hup, Err} != {} && n.read }

  predicate CanWrite(n: Node) { !n.deleted && (n.revents * n.events) * {Out, Err} != {} && n.write }

  /** An event is to be handed to the handler. */
  predicate Ready(n: Node) { CanRead(n) || CanWrite(n) }

  /** io_read or io_write. */
  datatype Side = Reading | Writing

  /** A callback was called, by a walk inside `level` - 1 others; whether that is progress. */
  datatype HandlerCall = HandlerCall(h: nat, side: Side, counts: bool, level: nat)

  /** All calls from the n-th on are by walks inside more than `level` others. */
  ghost predicate Above(calls: seq<HandlerCall>, n: nat, level: int) {
    forall i :: n <= i < |calls| ==> calls[i].level > level
  }

  /** From the n-th call on, the walk at the level has made progress. */
  ghost predicate Counted(calls: seq<HandlerCall>, n: nat, level: int) {
    exists i :: n <= i < |calls| && calls[i].level == level && calls[i].counts
  }

  /** One more call by the walk at the level, with whatever the callback does. */
  lemma CallsMore(calls: seq<HandlerCall>, n: nat, level: int, c: HandlerCall, calls': seq<HandlerCall>)
    requires n <= |calls| && c.level == level && Above(calls, n, level - 1)
    requires calls + [c] <= calls' && Above(calls', |calls| + 1, level)
    ensures calls <= calls' && Above(calls', n, level - 1)
    ensures Counted(calls', n, level) <==> Counted(calls, n, level) || c.counts
  {
    assert calls'[|calls|] == c;
    assert forall i :: 0 <= i < |calls| ==> calls'[i] == (calls + [c])[i] == calls[i];
    if Counted(calls, n, level) {
      var i :| n <= i < |calls| && calls[i].level == level && calls[i].counts;
      assert calls'[i] == calls[i];
    }
  }

  /** served: the handlers that were called, changed or deleted, calls: the calls among them, polled: those that a wait
      found an event for, in order. */
  datatype HandlerView = HandlerView(list: seq<nat>, nodes: map<nat, Node>, walking: nat, served: seq<nat>,
                                     calls: seq<HandlerCall>, polled: seq<nat>, waits: nat)

  /** The same handler, up to events. */
  predicate SameConfig(n: Node, m: Node) { m == n.(revents := m.revents) }

  ghost predicate HandlersOk(v: HandlerView) {
    && Distinct(v.list)
    && (forall h :: h in v.list ==> h in v.nodes)
    && (forall h, k :: h in v.list && k in v.list && !v.nodes[h].deleted && !v.nodes[k].deleted
                       && v.nodes[h].fd == v.nodes[k].fd ==>
          h == k)
  }

  ghost predicate ReadyKept(v: HandlerView, w: HandlerView) {
    forall h :: h in v.list && h in v.nodes && Ready(v.nodes[h]) ==>
      (h in w.list && h in w.nodes && w.nodes[h] == v.nodes[h]) || h in Since(w.served, |v.served|)
  }

  ghost predicate ConfigKept(v: HandlerView, w: HandlerView) {
    forall h :: h in v.list && h in v.nodes && !v.nodes[h].deleted ==>
      (h in w.list && h in w.nodes && SameConfig(v.nodes[h], w.nodes[h])) || h in Since(w.served, |v.served|)
  }

  /** What callbacks may do: while a walk is on no handler goes away, one with an event keeps it until it is served,
      none is changed without notice, and those that a wait finds an event for are served. */
  ghost predicate HandlerStep(v: HandlerView, w: HandlerView) {
    && w.walking == v.walking && v.waits <= w.waits && v.served <= w.served
    && v.calls <= w.calls && Above(w.calls, |v.calls|, v.walking)
    && v.polled <= w.polled && Since(w.polled, |v.polled|) <= Since(w.served, |v.served|)
    && (v.walking > 0 ==> Tail(v.list, w.list))
    && ReadyKept(v, w) && ConfigKept(v, w)
  }

  lemma HandlerStepTrans(u: HandlerView, v: HandlerView, w: HandlerView)
    requires HandlerStep(u, v) && HandlerStep(v, w)
    ensures HandlerStep(u, w)
  {
    if u.walking > 0 {
      TailTrans(u.list, v.list, w.list);
    }
    SinceMore(v.served, w.served, |u.served|);
    SinceSplit(v.polled, w.polled, |u.polled|);
    hide Tail, Since;
  }

  /** What a callback can do to the event loop. */
  datatype Op =
    | BhNewOp
    | BhScheduleOp(b: nat)
    | BhScheduleIdleOp(b: nat)
    | BhCancelOp(b: nat)
    | BhDeleteOp(b: nat)
    | SetFdOp(fd: int, read: bool, write: bool, notifier: bool)
    | PollOp(blocking: bool)

  class AioContext {
    var bhs: seq<nat>
    var scheduled: set<nat>
    var idle: set<nat>
    var deleted: set<nat>
    var walkingBh: nat
    ghost var bhAsked: seq<nat>
    ghost var bhServed: seq<nat>
    ghost var bhRuns: seq<Run>
    var handlers: seq<nat>
    var nodes: map<nat, Node>
    var walkingHandlers: nat
    ghost var served: seq<nat>
    ghost var calls: seq<HandlerCall>
    ghost var polled: seq<nat>
    /** What timerlistgroup_run_timers returned. */
    ghost var timerLog: seq<bool>
    /** What is found by the k-th wait on a descriptor that is polled. */
    const found: (nat, int) -> set<Poll>
    var waits: nat
    /** The next unused address. */
    var brk: nat

    ghost function Bh(): BhView
      reads this
    {
      BhView(bhs, scheduled, deleted, walkingBh, bhAsked, bhServed, bhRuns)
    }

    ghost function Handlers(): HandlerView
      reads this
    {
      HandlerView(handlers, nodes, walkingHandlers, served, calls, polled, waits)
    }

    ghost predicate Valid()
      reads this
    {
      && BhOk(Bh()) && HandlersOk(Handlers())
      && (forall b :: b in bhs ==> b < brk) && (forall h :: h in handlers ==> h < brk)
    }

    constructor (found: (nat, int) -> set<Poll>)
      ensures this.found == found && waits == 0
      ensures Valid() && bhs == [] && handlers == [] && walkingBh == 0 && walkingHandlers == 0
    {
      bhs, scheduled, idle, deleted, walkingBh, bhAsked, bhServed, bhRuns := [], {}, {}, {}, 0, [], [], [];
      handlers, nodes, walkingHandlers, served, calls, brk := [], map[], 0, [], [], 0;
      polled, timerLog, waits := [], [], 0;
      this.found := found;
    }

    /** aio_bh_new. */
    method BhNew() returns (b: nat)
      requires Valid()
      modifies this`bhs, this`brk
      ensures Valid() && BhStep(old(Bh()), Bh()) && bhs == [b] + old(bhs) && b !in old(bhs)
    {
      b := brk;
      assert b !in bhs;
      DistinctCons(b, bhs);
      bhs, brk := [b] + bhs, brk + 1;
      assert bhs[1..] == old(bhs);
    }

    /** qemu_bh_schedule and qemu_bh_schedule_idle. */
    method BhSchedule(b: nat, asIdle: bool)
      requires Valid() && b in bhs && b !in deleted
      modifies this`scheduled, this`idle, this`bhAsked
      ensures Valid() && BhStep(old(Bh()), Bh()) && scheduled == old(scheduled) + {b}
      ensures bhAsked == if b in old(scheduled) then old(bhAsked) else old(bhAsked) + [b]
      ensures idle == if b in old(scheduled) then old(idle) else if asIdle then old(idle) + {b} else old(idle) - {b}
    {
      hide BhOk, BhStep, HandlersOk;
      if b in scheduled {
        assert scheduled == scheduled + {b};
        StepNone(Bh(), Handlers());
        return;
      }
      idle := if asIdle then idle + {b} else idle - {b};
      scheduled, bhAsked := scheduled + {b}, bhAsked + [b];
      ScheduledStep(old(Bh()), b, Bh());
    }

    /** qemu_bh_cancel. */
    method BhCancel(b: nat)
      requires Valid() && b in bhs
      modifies this`scheduled, this`bhServed
      ensures Valid() && BhStep(old(Bh()), Bh()) && scheduled == old(scheduled) - {b} && bhServed == old(bhServed) + [b]
    {
      scheduled, bhServed := scheduled - {b}, bhServed + [b];
      ServedNow(old(bhServed), b);
    }

    /** qemu_bh_delete. */
    method BhDelete(b: nat)
      requires Valid() && b in bhs
      modifies this`scheduled, this`deleted, this`bhServed
      ensures Valid() && BhStep(old(Bh()), Bh()) && scheduled == old(scheduled) - {b} && deleted == old(deleted) + {b}
      ensures bhServed == old(bhServed) + [b]
    {
      scheduled, deleted, bhServed := scheduled - {b}, deleted + {b}, bhServed + [b];
      ServedNow(old(bhServed), b);
    }

    /** The end of aio_bh_poll: take the deleted bottom halves off the list and free them. */
    method Sweep()
      requires BhOk(Bh())
      modifies this`bhs, this`deleted
      ensures bhs == Without(old(bhs), old(deleted)) && deleted == {} && BhOk(Bh())
    {
      hide Without, Swept, Distinct;
      var i := 0;
      ghost var whole := Without(bhs, deleted);
      SweepStart(bhs, deleted);
      while i < |bhs|
        invariant 0 <= i <= |bhs| && Swept(whole, bhs, i, deleted)
        decreases |bhs| - i
      {
        SweepStep(whole, bhs, i, deleted);
        if bhs[i] in deleted {
          bhs := bhs[..i] + bhs[i + 1..];
        } else {
          i := i + 1;
        }
      }
      SweepEnd(whole, bhs, deleted);
      deleted := {};
    }

    /** find_aio_handler. */
    method FindHandler(fd: int) returns (node: Link)
      requires HandlersOk(Handlers())
      ensures node.To? ==> node.id in handlers && nodes[node.id].fd == fd && !nodes[node.id].deleted
      ensures node.Nil? ==> forall h :: h in handlers ==> nodes[h].fd != fd || nodes[h].deleted
    {
      var i := 0;
      while i < |handlers|
        invariant 0 <= i <= |handlers|
        invariant forall j :: 0 <= j < i ==> nodes[handlers[j]].fd != fd || nodes[handlers[j]].deleted
      {
        var n := nodes[handlers[i]];
        if n.fd == fd && !n.deleted {
          return To(handlers[i]);
        }
        i := i + 1;
      }
      return Nil;
    }

    /** aio_set_fd_handler: a deleted handler is freed at once only if no walk is on. */
    method SetFdHandler(fd: int, read: bool, write: bool, notifier: bool)
      requires Valid()
      modifies this`handlers, this`nodes, this`served, this`brk
      ensures Valid() && HandlerStep(old(Handlers()), Handlers())
      ensures read || write ==> exists h :: h in handlers && IsHandler(nodes[h], fd, read, write, notifier)
      ensures !read && !write ==> forall h :: h in handlers && nodes[h].fd == fd ==> nodes[h].deleted
      ensures forall h :: h in old(handlers) && old(nodes)[h].fd != fd ==> h in handlers && nodes[h] == old(nodes)[h]
    {
      hide HandlerStep, Since, Distinct;
      var node := FindHandler(fd);
      if !read && !write {
        if node.To? {
          RemoveHandler(node.id);
        } else {
          StepNone(Bh(), Handlers());
        }
      } else {
        var events: set<Poll> := (if read then {In, Hup, Err} else {}) + (if write then {Out, Err} else {});
        if node.Nil? {
          AddHandler(Node(fd, read, write, notifier, events, {}, false));
          assert IsHandler(nodes[handlers[0]], fd, read, write, notifier);
        } else {
          ChangeHandler(node.id, nodes[node.id].(read := read, write := write, notifier := notifier, events := events));
          assert IsHandler(nodes[node.id], fd, read, write, notifier);
        }
      }
    }

    method RemoveHandler(h: nat)
      requires Valid() && h in handlers && !nodes[h].deleted
      modifies this`handlers, this`nodes, this`served
      ensures Valid() && HandlerStep(old(Handlers()), Handlers())
      ensures if walkingHandlers > 0
              then handlers == old(handlers) && nodes == old(nodes)[h := old(nodes)[h].(deleted := true, revents := {})]
              else handlers == Without(old(handlers), {h}) && nodes == old(nodes)
    {
      hide Since, Distinct;
      ServedNow(served, h);
      NothingServed(polled);
      served := served + [h];
      if walkingHandlers > 0 {
        nodes := nodes[h := nodes[h].(deleted := true, revents := {})];
      } else {
        handlers := Without(handlers, {h});
      }
    }

    method AddHandler(n: Node)
      requires Valid() && !n.deleted && forall h :: h in handlers ==> nodes[h].fd != n.fd || nodes[h].deleted
      modifies this`handlers, this`nodes, this`brk
      ensures Valid() && HandlerStep(old(Handlers()), Handlers())
      ensures exists h :: h !in old(handlers) && handlers == [h] + old(handlers) && nodes == old(nodes)[h := n]
    {
      hide Since, Distinct;
      NothingServed(served);
      NothingServed(polled);
      assert brk !in handlers;
      DistinctCons(brk, handlers);
      nodes := nodes[brk := n];
      handlers, brk := [brk] + handlers, brk + 1;
      assert handlers[1..] == old(handlers);
    }

    method ChangeHandler(h: nat, n: Node)
      requires Valid() && h in handlers && !nodes[h].deleted && n.fd == nodes[h].fd
      modifies this`nodes, this`served
      ensures Valid() && HandlerStep(old(Handlers()), Handlers()) && nodes == old(nodes)[h := n]
    {
      hide Since, Distinct;
      ServedNow(served, h);
      NothingServed(polled);
      served := served + [h];
      nodes := nodes[h := n];
    }

    /** The callback of a bottom half is called: whatever it does, the call is what counts as the run. */
    method Callback(depth: nat, b: nat, idly: bool)
      requires Valid() && b !in scheduled && b !in idle
      modifies this
      ensures Valid() && HandlerStep(old(Handlers()), Handlers())
      ensures BhStep(old(Bh()).(served := old(bhServed) + [b], runs := old(bhRuns) + [Run(b, idly, old(walkingBh))]),
                     Bh())
      decreases depth, 1
    {
      hide BhStep, HandlerStep, HandlersOk;
      bhServed, bhRuns := bhServed + [b], bhRuns + [Run(b, idly, walkingBh)];
      Operations(depth);
    }

    /** The callback of a handler is called, to read or to write. */
    method HandlerCallback(depth: nat, c: HandlerCall)
      requires c.level == walkingHandlers
      requires BhOk(Bh()) && (forall b :: b in bhs ==> b < brk) && (forall k :: k in handlers ==> k < brk)
      requires HandlersOk(WithCall(Handlers(), c))
      modifies this
      ensures Valid() && BhStep(old(Bh()), Bh()) && HandlerStep(WithCall(old(Handlers()), c), Handlers())
      decreases depth, 1
    {
      hide BhStep, BhOk, HandlerStep, HandlersOk;
      served, calls := served + [c.h], calls + [c];
      Operations(depth);
    }

    /** timerlistgroup_run_timers: timers that are due are called, and it says whether there were any. */
    method RunTimers(depth: nat) returns (fired: bool)
      requires Valid()
      modifies this
      ensures Valid() && BhStep(old(Bh()), Bh()) && HandlerStep(old(Handlers()), Handlers())
      ensures timerLog != [] && timerLog[|timerLog| - 1] == fired
      decreases depth, 1
    {
      Operations(depth);
      fired := *;
      timerLog := timerLog + [fired];
    }

    /** What a callback can do: any number of operations, on bottom halves that are not deleted, and polls to
        depth - 1. */
    method Operations(depth: nat)
      requires Valid()
      modifies this
      ensures Valid() && BhStep(old(Bh()), Bh()) && HandlerStep(old(Handlers()), Handlers())
      decreases depth, 0
    {
      hide BhOk, BhStep, HandlersOk, HandlerStep;
      var n: nat := *;
      StepNone(Bh(), Handlers());
      while n > 0
        invariant Valid() && BhStep(old(Bh()), Bh()) && HandlerStep(old(Handlers()), Handlers())
      {
        ghost var v, w := Bh(), Handlers();
        var op: Op := *;
        if op.PollOp? {
          if depth > 0 {
            ghost var bh, first, last;
            var progress;
            progress, bh, first, last := AioPoll(depth - 1, op.blocking);
          } else {
            StepNone(v, w);
          }
        } else {
          Perform(op);
        }
        BhStepTrans(old(Bh()), v, Bh());
        HandlerStepTrans(old(Handlers()), w, Handlers());
        n := n - 1;
      }
    }

    method Perform(op: Op)
      requires Valid() && !op.PollOp?
      modifies this
      ensures Valid() && BhStep(old(Bh()), Bh()) && HandlerStep(old(Handlers()), Handlers())
    {
      hide BhOk, BhStep, HandlersOk, HandlerStep;
      StepNone(Bh(), Handlers());
      match op {
        case BhNewOp => var b := BhNew();
        case BhScheduleOp(b) => if b in bhs && b !in deleted { BhSchedule(b, false); }
        case BhScheduleIdleOp(b) => if b in bhs && b !in deleted { BhSchedule(b, true); }
        case BhCancelOp(b) => if b in bhs && b !in deleted { BhCancel(b); }
        case BhDeleteOp(b) => if b in bhs && b !in deleted { BhDelete(b); }
        case SetFdOp(fd, read, write, notifier) => SetFdHandler(fd, read, write, notifier);
      }
    }

    /** aio_bh_poll: every bottom half scheduled when it starts has been run, cancelled or deleted when it returns.  The
        result says whether it has itself run one that was not idle; walks inside its callbacks do not matter.  Any that
        is scheduled when it returns was scheduled meanwhile. */
    method BhPoll(depth: nat) returns (ret: bool)
      requires Valid()
      modifies this
      ensures Valid() && BhStep(old(Bh()), Bh()) && HandlerStep(old(Handlers()), Handlers())
      ensures old(scheduled) <= Since(bhServed, |old(bhServed)|)
      ensures scheduled <= Since(bhAsked, |old(bhAsked)|)
      ensures walkingBh == 0 ==> deleted == {}
      ensures ret <==> Busy(bhRuns, |old(bhRuns)|, old(walkingBh) + 1)
      decreases depth, 4
    {
      hide BhOk, BhStep, HandlersOk, HandlerStep, Tail, Since, ServedBefore, AskedSince, Busy, Deeper;
      ghost var u := Bh();
      walkingBh := walkingBh + 1;
      ret := false;
      ghost var start := Bh();
      ghost var rest := bhs;
      var bh := First(bhs);
      StepNone(start, Handlers());
      WalkStart(u, start);
      NoRuns(bhRuns, u.walking);
      while bh.To?
        invariant Valid() && HandlerStep(old(Handlers()), Handlers())
        invariant InWalk(start, rest) && bh == First(rest) && (ret <==> Busy(bhRuns, |start.runs|, start.walking))
        decreases |rest|
      {
        ghost var w := Handlers();
        var busy;
        bh, busy := BhTurn(depth, bh.id, start, rest);
        HandlerStepTrans(old(Handlers()), w, Handlers());
        ret := ret || busy;
        rest := rest[1..];
      }
      EndWalk(u, start);
    }

    /** The end of aio_bh_poll: the last walk to end takes the deleted bottom halves off the list. */
    method EndWalk(ghost u: BhView, ghost start: BhView)
      requires Valid() && InWalk(start, []) && start == u.(walking := u.walking + 1)
      modifies this`walkingBh, this`bhs, this`deleted
      ensures Valid() && BhStep(u, Bh())
      ensures u.scheduled <= Since(bhServed, |u.served|) && scheduled <= Since(bhAsked, |u.asked|)
      ensures walkingBh == u.walking && (walkingBh == 0 ==> deleted == {})
    {
      hide BhOk, BhStep, HandlersOk, Tail, Since, ServedBefore, AskedSince, Deeper;
      ghost var end := Bh();
      WalkLeft(end);
      walkingBh := walkingBh - 1;
      if walkingBh == 0 {
        Sweep();
      }
      WalkEnd(u, start, end, Bh());
    }

    /** A walk that began in the state `start` has the rest of the list before it. */
    ghost predicate InWalk(start: BhView, rest: seq<nat>)
      reads this
    {
      && walkingBh == start.walking > 0 && BhStep(start.(runs := bhRuns), Bh()) && Tail(rest, bhs)
      && start.runs <= bhRuns && Deeper(bhRuns, |start.runs|, start.walking - 1)
      && ServedBefore(start.scheduled, rest, bhServed, |start.served|)
      && AskedSince(scheduled, rest, bhAsked, |start.asked|)
    }

    /** One turn of the loop in aio_bh_poll: run the bottom half if it is due. */
    method BhTurn(depth: nat, b: nat, ghost start: BhView, ghost rest: seq<nat>) returns (next: Link, busy: bool)
      requires Valid() && InWalk(start, rest) && rest != [] && b == rest[0]
      modifies this
      ensures Valid() && InWalk(start, rest[1..]) && next == First(rest[1..])
      ensures HandlerStep(old(Handlers()), Handlers())
      ensures Busy(bhRuns, |start.runs|, start.walking) <==> old(Busy(bhRuns, |start.runs|, start.walking)) || busy
      decreases depth, 3
    {
      hide BhOk, BhStep, HandlersOk, HandlerStep, Tail, Since, ServedBefore, AskedSince, Busy, Deeper;
      ghost var v, runs := Bh(), bhRuns;
      StepNone(v, Handlers());
      WalkNext(v, rest);
      next, busy := Next(bhs, b), false;
      if b !in deleted && b in scheduled {
        var idly := RunBh(depth, b);
        v := v.(runs := runs + [Run(b, idly, walkingBh)]);
        StepRuns(v, Bh());
        RunsMore(runs, |start.runs|, start.walking, Run(b, idly, walkingBh), bhRuns);
        busy := !idly;
      }
      WalkStep(start, runs, rest, v, Bh());
    }

    /** Run one scheduled bottom half. */
    method RunBh(depth: nat, b: nat) returns (idly: bool)
      requires Valid() && b in scheduled && walkingBh > 0
      modifies this
      ensures Valid() && HandlerStep(old(Handlers()), Handlers())
      ensures BhStep(old(Bh()).(runs := old(bhRuns) + [Run(b, idly, walkingBh)]), Bh())
      ensures b in Since(bhServed, |old(bhServed)|) && walkingBh == old(walkingBh) && idly == (b in old(idle))
      ensures b in scheduled ==> b in Since(bhAsked, |old(bhAsked)|)
      decreases depth, 2
    {
      hide HandlerStep, HandlersOk;
      scheduled := scheduled - {b};
      idly := b in idle;
      idle := idle - {b};
      ghost var v := Bh();
      Callback(depth, b, idly);
      Served(old(Bh()), v, b, Run(b, idly, walkingBh), Bh());
    }

    /** One turn of the loop in aio_dispatch, at the handler h, the first of the rest of the walk. */
    method Visit(depth: nat, h: nat, ghost rest: seq<nat>) returns (next: Link, progress: bool)
      requires Valid() && Tail(rest, handlers) && rest != [] && h == rest[0]
      modifies this
      ensures Valid() && BhStep(old(Bh()), Bh()) && HandlerStep(old(Handlers()), Handlers())
      ensures Tail(rest[1..], handlers) && next == First(rest[1..])
      ensures h in old(nodes) && Ready(old(nodes)[h]) ==> h in Since(served, |old(served)|)
      ensures walkingHandlers == old(walkingHandlers)
      ensures h in old(nodes) && HandedOver(old(nodes)[h], h, old(Handlers()), Handlers())
      ensures progress <==> Counted(calls, |old(calls)|, walkingHandlers + 1)
      ensures walkingHandlers == 0 && h in nodes && nodes[h].deleted ==> h !in handlers
      decreases depth, 5
    {
      hide BhOk, BhStep, HandlersOk, HandlerStep, Tail, Since, HandedOver, Above, Counted;
      ghost var u := Handlers();
      VisitStart(u, rest);
      walkingHandlers := walkingHandlers + 1;
      progress := HandOver(depth, h);
      ghost var v := Handlers();
      VisitNext(u, v, rest);
      next := Next(handlers, h);
      walkingHandlers := walkingHandlers - 1;
      if walkingHandlers == 0 && nodes[h].deleted {
        VisitRemove(u, v, rest);
        handlers := Without(handlers, {h});
      }
      HandedAt(u.nodes[h], h, u.(walking := u.walking + 1), v, u, Handlers());
    }

    /** Hand the events of the handler h to its callbacks. */
    method HandOver(depth: nat, h: nat) returns (progress: bool)
      requires Valid() && h in handlers && walkingHandlers > 0
      modifies this
      ensures Valid() && BhStep(old(Bh()), Bh()) && HandlerStep(old(Handlers()).(calls := calls), Handlers())
      ensures h in old(nodes) && Ready(old(nodes)[h]) ==> h in Since(served, |old(served)|)
      ensures h in old(nodes) && HandedOver(old(nodes)[h], h, old(Handlers()), Handlers())
      ensures walkingHandlers == old(walkingHandlers)
      ensures old(calls) <= calls && Above(calls, |old(calls)|, walkingHandlers - 1)
      ensures progress <==> Counted(calls, |old(calls)|, walkingHandlers)
      decreases depth, 4
    {
      hide BhOk, BhStep, HandlersOk, HandlerStep, Tail, Since, Distinct, HandedOver, Above, Counted;
      progress := false;
      ghost var u := Handlers();
      Present(u, h);
      StepNone(Bh(), u);
      NoCalls(calls, walkingHandlers);
      var revents := nodes[h].revents * nodes[h].events;
      nodes := nodes[h := nodes[h].(revents := {})];
      ghost var x := Handlers();
      var toRead := !nodes[h].deleted && revents * {In, Hup, Err} != {} && nodes[h].read;
      if toRead {
        progress := CallRead(depth, h, u);
      }
      ghost var v := Handlers();
      if !nodes[h].deleted && revents * {Out, Err} != {} && nodes[h].write {
        ghost var b := Bh();
        var c := HandlerCall(h, Writing, true, walkingHandlers);
        if toRead {
          ServedAgain(u, v, h, WithCall(v, c));
        } else {
          Cleared(u, h, WithCall(v, c));
        }
        Call(depth, c, u);
        progress := true;
        BhStepTrans(old(Bh()), b, Bh());
        StepCalls(v, c, Handlers());
        CallsMore(v.calls, |u.calls|, walkingHandlers, c, calls);
        if toRead {
          BothCalled(u, h, x, v, Handlers());
        } else {
          Present(Handlers(), h);
          OneCalled(u, c, v, Handlers());
        }
      } else if toRead {
        OneCalled(u, HandlerCall(h, Reading, !nodes[h].notifier, x.walking), x, v);
      } else {
        Cleared(u, h, Handlers());
        NotCalled(u, h, Handlers());
      }
    }

    /** Call io_read, which is progress unless the handler is, when it returns, the notifier. */
    method CallRead(depth: nat, h: nat, ghost u: HandlerView) returns (counts: bool)
      requires BhOk(Bh()) && (forall b :: b in bhs ==> b < brk) && (forall k :: k in handlers ==> k < brk)
      requires HandlersOk(u) && u.walking > 0 && h in u.list && h in u.nodes && Ready(u.nodes[h])
      requires Handlers() == u.(nodes := u.nodes[h := u.nodes[h].(revents := {})])
      modifies this
      ensures Valid() && BhStep(old(Bh()), Bh()) && HandlerStep(u.(calls := calls), Handlers())
      ensures h in handlers && h in nodes && h in Since(served, |u.served|) && walkingHandlers == u.walking
      ensures counts == !nodes[h].notifier
      ensures HandlerStep(WithCall(old(Handlers()), HandlerCall(h, Reading, counts, walkingHandlers)), Handlers())
      ensures u.calls <= calls && Above(calls, |u.calls|, u.walking - 1)
      ensures counts <==> Counted(calls, |u.calls|, u.walking)
      decreases depth, 3
    {
      hide BhOk, BhStep, HandlersOk, HandlerStep, Tail, Since, Distinct, Above, Counted;
      ghost var x := Handlers();
      var c := HandlerCall(h, Reading, false, walkingHandlers);
      NoCalls(calls, walkingHandlers);
      Cleared(u, h, WithCall(x, c));
      Call(depth, c, u);
      Present(Handlers(), h);
      counts := !nodes[h].notifier;
      Counts(u, x, c, counts, Handlers());
      calls := calls[|x.calls| := c.(counts := counts)];
      CallsMore(x.calls, |u.calls|, walkingHandlers, c.(counts := counts), calls);
    }

    /** A callback of a handler, which the call makes served since u. */
    method Call(depth: nat, c: HandlerCall, ghost u: HandlerView)
      requires c.level == walkingHandlers
      requires BhOk(Bh()) && (forall b :: b in bhs ==> b < brk) && (forall k :: k in handlers ==> k < brk)
      requires HandlersOk(WithCall(Handlers(), c))
      requires HandlerStep(u.(calls := calls + [c]), WithCall(Handlers(), c))
      requires c.h in handlers && u.walking > 0 && c.h in Since(served + [c.h], |u.served|)
      modifies this
      ensures Valid() && BhStep(old(Bh()), Bh()) && HandlerStep(u.(calls := calls), Handlers())
      ensures c.h in handlers && c.h in Since(served, |u.served|) && walkingHandlers == old(walkingHandlers)
      ensures HandlerStep(WithCall(old(Handlers()), c), Handlers())
      decreases depth, 2
    {
      hide BhOk, BhStep, HandlersOk, HandlerStep, Since, Above;
      ghost var v := WithCall(Handlers(), c);
      HandlerCallback(depth, c);
      StepOn(u, v, Handlers());
    }

    /** aio_dispatch: every handler that has an event when it starts has been called, changed or deleted when it
        returns.  The result says whether it has itself called one, other than the notifier, or timers were due. */
    method Dispatch(depth: nat) returns (progress: bool, timers: bool, ghost cut: nat)
      requires Valid()
      modifies this
      ensures Valid() && BhStep(old(Bh()), Bh()) && HandlerStep(old(Handlers()), Handlers())
      ensures ReadyServed(old(Handlers()), [], served)
      ensures timerLog != [] && timerLog[|timerLog| - 1] == timers && |old(calls)| <= cut <= |calls|
      ensures progress <==> timers || Counted(calls[..cut], |old(calls)|, walkingHandlers + 1)
      decreases depth, 6
    {
      hide BhOk, BhStep, HandlersOk, HandlerStep, Tail, Since, ReadyServed, Counted, Above;
      ghost var u := Handlers();
      ghost var rest := handlers;
      var node := First(handlers);
      StepNone(Bh(), u);
      DispatchStart(u);
      NoCalls(calls, u.walking + 1);
      progress := false;
      while node.To?
        invariant Valid() && BhStep(old(Bh()), Bh()) && HandlerStep(u, Handlers())
        invariant Tail(rest, handlers) && node == First(rest) && ReadyServed(u, rest, served)
        invariant progress <==> Counted(calls, |u.calls|, u.walking + 1)
        decreases |rest|
      {
        ghost var b, v := Bh(), Handlers();
        var more;
        node, more := Visit(depth, node.id, rest);
        DispatchStep(u, v, rest, Handlers());
        BhStepTrans(old(Bh()), b, Bh());
        progress := progress || more;
        rest := rest[1..];
      }
      ghost var b, v := Bh(), Handlers();
      cut := |calls|;
      timers := RunTimers(depth);
      progress := progress || timers;
      BhStepTrans(old(Bh()), b, Bh());
      ServedLater(u, v, Handlers());
    }

    /** qemu_poll_ns: whether anything is found for a handler that is polled. */
    method PollAll() returns (any: bool)
      requires Valid()
      ensures any <==> AnyFound(Handlers(), found, waits)
    {
      any := false;
      var i := 0;
      while i < |handlers|
        invariant 0 <= i <= |handlers|
        invariant any <==> exists j :: 0 <= j < i && Finds(nodes[handlers[j]], found, waits)
      {
        var n := nodes[handlers[i]];
        if !n.deleted && n.events != {} && found(waits, n.fd) != {} {
          any := true;
        }
        i := i + 1;
      }
    }

    /** The handlers that are polled get what is found for them. */
    method TakeEvents()
      requires Valid()
      modifies this`nodes
      ensures Valid()
      ensures forall h :: h in handlers ==> h in old(nodes) && nodes[h] == Polled(old(nodes)[h], found, waits)
    {
      var i := 0;
      while i < |handlers|
        invariant 0 <= i <= |handlers| && (forall h :: h in handlers ==> h in nodes)
        invariant forall j :: 0 <= j < i ==> nodes[handlers[j]] == Polled(old(nodes)[handlers[j]], found, waits)
        invariant forall j :: i <= j < |handlers| ==> nodes[handlers[j]] == old(nodes)[handlers[j]]
      {
        var n := nodes[handlers[i]];
        if !n.deleted && n.events != {} {
          nodes := nodes[handlers[i] := n.(revents := found(waits, n.fd))];
        }
        i := i + 1;
      }
      PolledOk(old(Handlers()), Handlers(), found, waits);
    }

    /** The wait in aio_poll: if anything is found, the handlers that are polled get what is found for them. */
    method Wait()
      requires Valid()
      modifies this`nodes, this`polled, this`waits
      ensures Valid() && waits == old(waits) + 1
      ensures forall h :: h in handlers ==>
                h in nodes && h in old(nodes)
                && nodes[h] == if AnyFound(old(Handlers()), found, old(waits))
                               then Polled(old(nodes)[h], found, old(waits))
                               else old(nodes)[h]
      ensures old(polled) <= polled
      ensures forall h :: h in Since(polled, |old(polled)|) <==> h in handlers && h in nodes && Ready(nodes[h])
    {
      hide Since, Polled, Distinct, AnyFound, Ready;
      var any := PollAll();
      if any {
        TakeEvents();
      }
      waits := waits + 1;
      ghost var more := ReadyOf(handlers, nodes);
      AllSince(polled, more);
      polled := polled + more;
    }

    /** aio_poll: all that was due at the start is done, and so is what the wait finds.  It waits unless there was
        progress before; the ghost results are those of aio_bh_poll and of the two calls of aio_dispatch. */
    method AioPoll(depth: nat, blocking: bool)
      returns (progress: bool, ghost bh: bool, ghost first: bool, ghost last: bool)
      requires Valid()
      modifies this
      ensures Valid() && BhStep(old(Bh()), Bh()) && HandlerStep(old(Handlers()), Handlers())
      ensures old(scheduled) <= Since(bhServed, |old(bhServed)|) && ReadyServed(old(Handlers()), [], served)
      ensures scheduled <= Since(bhAsked, |old(bhAsked)|)
      ensures progress <==> bh || first || last
      ensures if bh || (first && !blocking) then !last else waits > old(waits)
      decreases depth, 7
    {
      hide BhOk, BhStep, HandlersOk, HandlerStep, Since, ReadyServed, Busy, Counted;
      var blocks, more, timers := blocking, false, false;
      progress, last := false, false;
      more := BhPoll(depth);
      bh := more;
      if more {
        blocks, progress := false, true;
      }
      ghost var b, v := Bh(), Handlers();
      ghost var cut;
      more, timers, cut := Dispatch(depth);
      first := more;
      BhAgain(old(Bh()), b, Bh());
      PollServed(old(Handlers()), v, Handlers());
      if more {
        progress := true;
      }
      if progress && !blocks {
        return;
      }
      b, v := Bh(), Handlers();
      Wait();
      ghost var w := Handlers();
      StillThere(v, w);
      NewEvents(old(Handlers()), v, w);
      more, timers, cut := Dispatch(depth);
      last := more;
      BhAgain(old(Bh()), b, Bh());
      PollAgain(old(Handlers()), v, w, Handlers());
      if more {
        progress := true;
      }
    }
  }

  /** The handlers that had an event and that the walk has been past are served. */
  ghost predicate ReadyServed(u: HandlerView, rest: seq<nat>, served: seq<nat>) {
    forall h :: h in u.list && h in u.nodes && Ready(u.nodes[h]) && h !in rest ==> h in Since(served, |u.served|)
  }

  lemma Present(v: HandlerView, h: nat)
    requires HandlersOk(v) && h in v.list
    ensures h in v.nodes
  {
  }

  lemma VisitStart(u: HandlerView, rest: seq<nat>)
    requires HandlersOk(u) && Tail(rest, u.list) && rest != []
    ensures rest[0] in u.list && HandlersOk(u.(walking := u.walking + 1))
  {
    TailHead(rest, u.list);
  }

  lemma VisitNext(u: HandlerView, v: HandlerView, rest: seq<nat>)
    requires HandlersOk(v) && HandlerStep(u.(walking := u.walking + 1, calls := v.calls), v)
    requires Tail(rest, u.list) && rest != [] && u.calls <= v.calls && Above(v.calls, |u.calls|, u.walking)
    ensures rest[0] in v.list && rest[0] in v.nodes && Next(v.list, rest[0]) == First(rest[1..])
    ensures Tail(rest[1..], v.list)
    ensures v.walking == u.walking + 1 && HandlerStep(u, v.(walking := u.walking))
    ensures HandlersOk(v.(walking := u.walking))
  {
    TailTrans(rest, u.list, v.list);
    NextInTail(rest, v.list);
    TailDrop(rest, v.list);
  }

  /** Taking a deleted handler off the list when no walk is on. */
  lemma VisitRemove(u: HandlerView, v: HandlerView, rest: seq<nat>)
    requires HandlersOk(v) && HandlerStep(u.(walking := u.walking + 1, calls := v.calls), v)
    requires Tail(rest, u.list) && rest != [] && u.calls <= v.calls && Above(v.calls, |u.calls|, u.walking)
    requires u.walking == 0 && rest[0] in v.nodes && v.nodes[rest[0]].deleted
    ensures Tail(rest[1..], Without(v.list, {rest[0]}))
    ensures HandlerStep(u, v.(walking := 0, list := Without(v.list, {rest[0]})))
    ensures HandlersOk(v.(walking := 0, list := Without(v.list, {rest[0]})))
  {
    TailTrans(rest, u.list, v.list);
    WithoutHead(rest, v.list);
  }

  lemma WithoutHead(a: seq<nat>, b: seq<nat>)
    requires Tail(a, b) && a != [] && Distinct(b)
    ensures Tail(a[1..], Without(b, {a[0]}))
  {
    hide Without;
    TailHead(a, b);
    WithoutFirst(b, {a[0]});
    if |a| == |b| {
      assert a == b;
      WithoutNone(b[1..], {b[0]});
    } else {
      hide Tail;
      TailRest(a, b);
      WithoutHead(a, b[1..]);
      TailCons(a[1..], b[0], Without(b[1..], {a[0]}));
    }
  }

  lemma WithoutFirst(s: seq<nat>, gone: set<nat>)
    requires s != []
    ensures Without(s, gone) == (if s[0] in gone then [] else [s[0]]) + Without(s[1..], gone)
  {
  }

  lemma TailRest(a: seq<nat>, b: seq<nat>)
    requires Tail(a, b) && a != [] && |a| < |b| && Distinct(b)
    ensures Tail(a, b[1..]) && Distinct(b[1..]) && b[0] != a[0]
  {
    TailHead(a, b);
    assert b[1..][|b| - 1 - |a|..] == b[|b| - |a|..];
  }

  lemma TailCons(a: seq<nat>, x: nat, b: seq<nat>)
    requires Tail(a, b)
    ensures Tail(a, [x] + b)
  {
    assert ([x] + b)[1 + |b| - |a|..] == b[|b| - |a|..];
  }

  lemma WithoutNone(s: seq<nat>, gone: set<nat>)
    requires forall x :: x in s ==> x !in gone
    ensures Without(s, gone) == s
  {
  }

  function WithCall(v: HandlerView, c: HandlerCall): HandlerView {
    v.(served := v.served + [c.h], calls := v.calls + [c])
  }

  /** The events of h are taken; if there are any, it is called next. */
  lemma Cleared(u: HandlerView, h: nat, w: HandlerView)
    requires HandlersOk(u) && h in u.list && h in u.nodes
    requires w == u.(nodes := u.nodes[h := u.nodes[h].(revents := {})], calls := w.calls,
                     served := u.served + (if Ready(u.nodes[h]) then [h] else []))
    ensures HandlersOk(w) && HandlerStep(u.(calls := w.calls), w)
    ensures Ready(u.nodes[h]) ==> h in Since(w.served, |u.served|)
  {
    ServedNow(u.served, h);
    NothingServed(u.served);
    NothingServed(u.polled);
  }

  lemma ServedAgain(u: HandlerView, v: HandlerView, h: nat, w: HandlerView)
    requires HandlersOk(v) && HandlerStep(u.(calls := v.calls), v)
    requires w == v.(served := v.served + [h], calls := w.calls)
    ensures HandlersOk(w) && HandlerStep(u.(calls := w.calls), w) && h in Since(w.served, |u.served|)
  {
    ServedNow(v.served, h);
    SinceMore(v.served, w.served, |u.served|);
  }

  /** A callback has run, from v to w, after what went on since u. */
  lemma StepOn(u: HandlerView, v: HandlerView, w: HandlerView)
    requires HandlerStep(u.(calls := v.calls), v) && HandlerStep(v, w) && u.walking > 0
    ensures HandlerStep(u.(calls := w.calls), w) && w.walking == v.walking
    ensures Since(v.served, |u.served|) <= Since(w.served, |u.served|)
    ensures forall h :: h in v.list ==> h in w.list
  {
    SinceMore(v.served, w.served, |u.served|);
    forall h | h in v.list ensures h in w.list {
      assert h in w.list[|w.list| - |v.list|..];
    }
    HandlerStepTrans(u.(calls := w.calls), v.(calls := w.calls), w);
  }

  lemma StepCalls(x: HandlerView, c: HandlerCall, w: HandlerView)
    requires HandlerStep(WithCall(x, c), w)
    ensures x.calls + [c] <= w.calls && Above(w.calls, |x.calls| + 1, x.walking) && w.walking == x.walking
  {
  }

  /** Whether the call is progress is known only after it. */
  lemma Counts(u: HandlerView, x: HandlerView, c: HandlerCall, counts: bool, w: HandlerView)
    requires HandlersOk(w) && HandlerStep(WithCall(x, c), w) && HandlerStep(u.(calls := w.calls), w)
    ensures |w.calls| > |x.calls|
    ensures var d, z := c.(counts := counts), w.(calls := w.calls[|x.calls| := c.(counts := counts)]);
            HandlersOk(z) && HandlerStep(WithCall(x, d), z) && HandlerStep(u.(calls := z.calls), z)
  {
    var d := c.(counts := counts);
    var calls := w.calls[|x.calls| := d];
    assert x.calls + [c] <= w.calls;
    assert calls[..|x.calls| + 1] == x.calls + [d];
  }

  lemma NoCalls(calls: seq<HandlerCall>, level: int)
    ensures Above(calls, |calls|, level - 1) && !Counted(calls, |calls|, level)
  {
  }

  predicate IsCall(c: HandlerCall, h: nat, side: Side) { c.h == h && c.side == side }

  /** Which callbacks of the handler, n at the start, are called: the first at once, and if both are due the second too,
      unless the handler was changed, deleted or called meanwhile. */
  ghost predicate HandedOver(n: Node, h: nat, v: HandlerView, w: HandlerView) {
    var k := |v.calls|;
    && v.calls <= w.calls
    && (!Ready(n) ==> w.calls == v.calls)
    && (CanRead(n) ==>
          && |w.calls| > k && IsCall(w.calls[k], h, Reading)
          && (w.calls[k].counts == !n.notifier || h in Since(w.served, |v.served| + 1)))
    && (CanWrite(n) && !CanRead(n) ==> |w.calls| > k && IsCall(w.calls[k], h, Writing) && w.calls[k].counts)
    && (CanRead(n) && CanWrite(n) ==>
          || (exists i :: k < i < |w.calls| && IsCall(w.calls[i], h, Writing) && w.calls[i].counts)
          || h in Since(w.served, |v.served| + 1))
  }

  lemma HandedAt(n: Node, h: nat, v: HandlerView, w: HandlerView, v': HandlerView, w': HandlerView)
    requires HandedOver(n, h, v, w) && v'.calls == v.calls && w'.calls == w.calls
    requires v'.served == v.served && w'.served == w.served
    ensures HandedOver(n, h, v', w')
  {
  }

  lemma NotCalled(u: HandlerView, h: nat, w: HandlerView)
    requires h in u.nodes && !Ready(u.nodes[h]) && w.calls == u.calls
    ensures HandedOver(u.nodes[h], h, u, w)
  {
  }

  /** One call, from x to v; if it was the read call the write call is not due, or no more. */
  lemma OneCalled(u: HandlerView, c: HandlerCall, x: HandlerView, v: HandlerView)
    requires var h := c.h; h in u.list && h in u.nodes && x == u.(nodes := u.nodes[h := u.nodes[h].(revents := {})])
    requires HandlerStep(WithCall(x, c), v) && c.h in v.nodes
    requires var n := u.nodes[c.h];
             if c.side.Reading?
             then c.counts == !v.nodes[c.h].notifier && CanRead(n)
               && !(CanWrite(n) && !v.nodes[c.h].deleted && v.nodes[c.h].write)
             else c.counts && CanWrite(n) && !CanRead(n)
    ensures HandedOver(u.nodes[c.h], c.h, u, v)
  {
    var y := WithCall(x, c);
    assert y.calls[|u.calls|] == c;
    assert v.calls[|u.calls|] == y.calls[|u.calls|];
    assert y.nodes[c.h] == u.nodes[c.h].(revents := {});
  }

  lemma BothCalled(u: HandlerView, h: nat, x: HandlerView, v: HandlerView, w: HandlerView)
    requires h in u.list && h in u.nodes && x == u.(nodes := u.nodes[h := u.nodes[h].(revents := {})])
    requires CanRead(u.nodes[h]) && h in v.nodes
    requires HandlerStep(WithCall(x, HandlerCall(h, Reading, !v.nodes[h].notifier, x.walking)), v)
    requires HandlerStep(WithCall(v, HandlerCall(h, Writing, true, v.walking)), w)
    ensures HandedOver(u.nodes[h], h, u, w)
  {
    var c, d := HandlerCall(h, Reading, !v.nodes[h].notifier, x.walking), HandlerCall(h, Writing, true, v.walking);
    var y, z := WithCall(x, c), WithCall(v, d);
    var k := |u.calls|;
    assert y.calls[k] == c && v.calls[k] == y.calls[k] && z.calls[k] == v.calls[k] && w.calls[k] == z.calls[k];
    assert z.calls[|v.calls|] == d && w.calls[|v.calls|] == z.calls[|v.calls|];
    assert u.calls <= w.calls;
    assert y.nodes[h] == u.nodes[h].(revents := {});
    SinceMore(v.served, w.served, |u.served| + 1);
  }

  lemma DispatchStart(u: HandlerView)
    ensures Tail(u.list, u.list) && ReadyServed(u, u.list, u.served)
  {
  }

  lemma DispatchStep(u: HandlerView, v: HandlerView, rest: seq<nat>, w: HandlerView)
    requires HandlerStep(u, v) && HandlerStep(v, w) && rest != [] && Tail(rest, v.list)
    requires ReadyServed(u, rest, v.served)
    requires rest[0] in v.nodes && Ready(v.nodes[rest[0]]) ==> rest[0] in Since(w.served, |v.served|)
    ensures HandlerStep(u, w) && ReadyServed(u, rest[1..], w.served)
    ensures Counted(w.calls, |u.calls|, u.walking + 1) <==>
            Counted(v.calls, |u.calls|, u.walking + 1) || Counted(w.calls, |v.calls|, u.walking + 1)
  {
    HandlerStepTrans(u, v, w);
    SinceMore(v.served, w.served, |u.served|);
    CountedSplit(v.calls, w.calls, |u.calls|, u.walking + 1);
  }

  lemma CountedSplit(calls: seq<HandlerCall>, calls': seq<HandlerCall>, n: nat, level: int)
    requires calls <= calls' && n <= |calls|
    ensures Counted(calls', n, level) <==> Counted(calls, n, level) || Counted(calls', |calls|, level)
  {
    assert forall i :: 0 <= i < |calls| ==> calls'[i] == calls[i];
    if Counted(calls, n, level) {
      var i :| n <= i < |calls| && calls[i].level == level && calls[i].counts;
      assert calls'[i] == calls[i];
    }
  }

  lemma ServedLater(u: HandlerView, v: HandlerView, w: HandlerView)
    requires HandlerStep(u, v) && HandlerStep(v, w) && ReadyServed(u, [], v.served)
    ensures HandlerStep(u, w) && ReadyServed(u, [], w.served) && u.calls <= v.calls <= w.calls
    ensures w.calls[..|v.calls|] == v.calls
  {
    HandlerStepTrans(u, v, w);
    SinceMore(v.served, w.served, |u.served|);
  }

  /** A wait finds something for the handler. */
  predicate Finds(n: Node, found: (nat, int) -> set<Poll>, k: nat) {
    !n.deleted && n.events != {} && found(k, n.fd) != {}
  }

  /** The handler with what a wait finds for it, if it is polled. */
  function Polled(n: Node, found: (nat, int) -> set<Poll>, k: nat): Node {
    if !n.deleted && n.events != {} then n.(revents := found(k, n.fd)) else n
  }

  lemma PolledOk(v: HandlerView, w: HandlerView, found: (nat, int) -> set<Poll>, k: nat)
    requires HandlersOk(v) && w.list == v.list
    requires forall h :: h in v.list ==> h in w.nodes && w.nodes[h] == Polled(v.nodes[h], found, k)
    ensures HandlersOk(w)
  {
    assert forall h :: h in v.list ==> SameConfig(v.nodes[h], w.nodes[h]);
  }

  ghost predicate AnyFound(v: HandlerView, found: (nat, int) -> set<Poll>, k: nat) {
    exists j :: 0 <= j < |v.list| && v.list[j] in v.nodes && Finds(v.nodes[v.list[j]], found, k)
  }

  /** The handlers with an event. */
  ghost function ReadyOf(list: seq<nat>, nodes: map<nat, Node>): (r: seq<nat>)
    ensures forall h :: h in r <==> h in list && h in nodes && Ready(nodes[h])
  {
    if list == [] then []
    else (if list[0] in nodes && Ready(nodes[list[0]]) then [list[0]] else []) + ReadyOf(list[1..], nodes)
  }

  lemma AllSince(h: seq<nat>, more: seq<nat>)
    ensures h <= h + more && forall x :: x in Since(h + more, |h|) <==> x in more
  {
    assert (h + more)[|h|..] == more;
  }

  lemma PollServed(u: HandlerView, v: HandlerView, w: HandlerView)
    requires HandlerStep(u, v) && HandlerStep(v, w) && ReadyServed(v, [], w.served)
    ensures HandlerStep(u, w) && ReadyServed(u, [], w.served)
  {
    HandlerStepTrans(u, v, w);
    SinceMore(v.served, w.served, |u.served|);
  }

  lemma StillThere(v: HandlerView, w: HandlerView)
    requires HandlersOk(v) && HandlersOk(w) && w.list == v.list
    requires forall h :: h in v.list && h in v.nodes && h in w.nodes ==> SameConfig(v.nodes[h], w.nodes[h])
    ensures forall h :: h in v.list && h in v.nodes ==> h in w.nodes && SameConfig(v.nodes[h], w.nodes[h])
  {
  }

  lemma NewEvents(u: HandlerView, v: HandlerView, w: HandlerView)
    requires HandlerStep(u, v) && ReadyServed(u, [], v.served)
    requires w == v.(nodes := w.nodes, polled := w.polled, waits := w.waits) && v.waits <= w.waits
    requires forall h :: h in v.list && h in v.nodes ==> h in w.nodes && SameConfig(v.nodes[h], w.nodes[h])
    ensures HandlerStep(u, w.(polled := v.polled)) && ReadyServed(u, [], w.served)
  {
  }

  lemma BhAgain(a: BhView, b: BhView, c: BhView)
    requires BhStep(a, b) && BhStep(b, c) && a.scheduled <= Since(b.served, |a.served|)
    requires b.scheduled <= Since(b.asked, |a.asked|)
    ensures BhStep(a, c) && a.scheduled <= Since(c.served, |a.served|) && c.scheduled <= Since(c.asked, |a.asked|)
  {
    BhStepTrans(a, b, c);
    SinceMore(b.served, c.served, |a.served|);
    SinceMore(b.asked, c.asked, |a.asked|);
  }

  /** After the wait, from v to w, all that it found is served too. */
  lemma PollAgain(u: HandlerView, v: HandlerView, w: HandlerView, z: HandlerView)
    requires HandlerStep(u, w.(polled := v.polled)) && v.polled <= w.polled && HandlerStep(w, z)
    requires forall h :: h in Since(w.polled, |v.polled|) ==> h in w.list && h in w.nodes && Ready(w.nodes[h])
    requires ReadyServed(u, [], w.served) && ReadyServed(w, [], z.served)
    ensures HandlerStep(u, z) && ReadyServed(u, [], z.served) && w.waits <= z.waits
  {
    SinceMore(w.served, z.served, |u.served|);
    NothingServed(v.polled);
    var w0, z0 := w.(polled := v.polled), z.(polled := v.polled);
    HandlerStepTrans(u, w0, z0);
    SinceSplit(v.polled, w.polled, |u.polled|);
    SinceSplit(w.polled, z.polled, |u.polled|);
    hide Since, Tail, Above, ReadyKept, ConfigKept;
    forall h | h in Since(z.polled, |u.polled|) ensures h in Since(z.served, |u.served|) {
      assert h in Since(v.polled, |u.polled|) || h in Since(w.polled, |v.polled|) || h in Since(z.polled, |w.polled|);
    }
  }

  /** The bottom halves of the set that the walk has been past are served. */
  ghost predicate ServedBefore(waiting: set<nat>, rest: seq<nat>, served: seq<nat>, n: nat) {
    forall b :: b in waiting && b !in rest ==> b in Since(served, n)
  }

  /** What is scheduled is still to be passed by the walk or was scheduled meanwhile. */
  ghost predicate AskedSince(scheduled: set<nat>, rest: seq<nat>, asked: seq<nat>, n: nat) {
    forall b :: b in scheduled && b !in rest ==> b in Since(asked, n)
  }

  /** Bottom half b, no longer scheduled in v, has been called. */
  lemma Served(u: BhView, v: BhView, b: nat, r: Run, w: BhView)
    requires v == u.(scheduled := u.scheduled - {b}) && BhStep(v.(served := v.served + [b], runs := v.runs + [r]), w)
    ensures BhStep(u.(runs := u.runs + [r]), w) && b in Since(w.served, |u.served|)
    ensures b in w.scheduled ==> b in Since(w.asked, |u.asked|)
  {
    hide Since, Tail, Deeper;
    var s := u.served + [b];
    ServedNow(u.served, b);
    SinceMore(s, w.served, |u.served|);
    assert Since(w.served, |s|) <= Since(w.served, |u.served|);
    forall x | x in u.scheduled ensures x in w.scheduled + Since(w.served, |u.served|) {
      assert x == b || x in v.scheduled;
    }
  }

  lemma ScheduledStep(v: BhView, b: nat, w: BhView)
    requires BhOk(v) && b in v.list && b !in v.deleted
    requires w == v.(scheduled := v.scheduled + {b}, asked := v.asked + [b])
    ensures BhOk(w) && BhStep(v, w)
  {
    ServedNow(v.asked, b);
  }

  lemma WalkStart(u: BhView, start: BhView)
    requires BhOk(u) && start == u.(walking := u.walking + 1)
    ensures BhOk(start) && Tail(start.list, start.list)
    ensures ServedBefore(start.scheduled, start.list, start.served, |start.served|)
    ensures AskedSince(start.scheduled, start.list, start.asked, |start.asked|)
  {
  }

  lemma WalkNext(v: BhView, rest: seq<nat>)
    requires BhOk(v) && Tail(rest, v.list) && rest != []
    ensures rest[0] in v.list && Next(v.list, rest[0]) == First(rest[1..])
    ensures rest[0] in v.scheduled ==> rest[0] !in v.deleted
  {
    NextInTail(rest, v.list);
  }

  lemma StepRuns(v: BhView, w: BhView)
    requires BhStep(v, w)
    ensures v.runs <= w.runs && Deeper(w.runs, |v.runs|, v.walking)
  {
  }

  lemma NoRuns(runs: seq<Run>, level: nat)
    ensures Deeper(runs, |runs|, level) && !Busy(runs, |runs|, level + 1)
  {
  }

  lemma WalkStep(start: BhView, start1: seq<Run>, rest: seq<nat>, v: BhView, w: BhView)
    requires BhStep(start.(runs := start1), v.(runs := start1)) && BhStep(v, w)
    requires start.walking > 0 && rest != [] && Tail(rest, v.list)
    requires ServedBefore(start.scheduled, rest, v.served, |start.served|)
    requires rest[0] in v.scheduled ==> rest[0] in Since(w.served, |v.served|)
    requires AskedSince(v.scheduled, rest, v.asked, |start.asked|)
    requires rest[0] in w.scheduled ==> rest[0] in Since(w.asked, |v.asked|)
    ensures BhStep(start.(runs := w.runs), w) && Tail(rest[1..], w.list) && w.walking == start.walking
    ensures ServedBefore(start.scheduled, rest[1..], w.served, |start.served|)
    ensures AskedSince(w.scheduled, rest[1..], w.asked, |start.asked|)
  {
    BhStepTrans(start.(runs := w.runs), v.(runs := w.runs), w);
    TailTrans(rest, v.list, w.list);
    TailDrop(rest, w.list);
    SinceMore(v.served, w.served, |start.served|);
    SinceMore(v.asked, w.asked, |start.asked|);
  }

  /** At the end of a walk, w, all that waited at its start is served. */
  lemma WalkEnd(u: BhView, start: BhView, v: BhView, w: BhView)
    requires start == u.(walking := u.walking + 1) && BhStep(start.(runs := v.runs), v)
    requires u.runs <= v.runs == w.runs && Deeper(v.runs, |u.runs|, u.walking)
    requires ServedBefore(start.scheduled, [], v.served, |start.served|)
    requires AskedSince(v.scheduled, [], v.asked, |start.asked|) && w.scheduled == v.scheduled && w.asked == v.asked
    requires w.walking == u.walking && w.served == v.served && (u.walking > 0 ==> w.list == v.list)
    ensures u.scheduled <= Since(w.served, |u.served|) && w.scheduled <= Since(w.asked, |u.asked|) && BhStep(u, w)
  {
  }

  lemma WalkLeft(v: BhView)
    requires BhOk(v) && v.walking > 0
    ensures BhOk(v.(walking := v.walking - 1))
  {
  }

  lemma StepNone(v: BhView, w: HandlerView)
    ensures BhStep(v, v) && HandlerStep(w, w)
  {
  }

  predicate IsHandler(n: Node, fd: int, read: bool, write: bool, notifier: bool) {
    && n.fd == fd && !n.deleted && n.read == read && n.write == write && n.notifier == notifier
    && n.events == (if read then {In, Hup, Err} else {}) + (if write then {Out, Err} else {})
  }

  lemma NothingServed(h: seq<nat>)
    ensures Since(h, |h|) == {}
  {
    assert h[|h|..] == [];
  }

  /** The first i elements of the list are swept. */
  ghost predicate Swept(whole: seq<nat>, list: seq<nat>, i: nat, gone: set<nat>) {
    i <= |list| && whole == list[..i] + Without(list[i..], gone)
  }

  lemma SweepStart(list: seq<nat>, gone: set<nat>)
    ensures Swept(Without(list, gone), list, 0, gone)
  {
    assert list[0..] == list;
  }

  lemma SweepStep(whole: seq<nat>, list: seq<nat>, i: nat, gone: set<nat>)
    requires Swept(whole, list, i, gone) && i < |list|
    ensures if list[i] in gone then Swept(whole, list[..i] + list[i + 1..], i, gone)
            else Swept(whole, list, i + 1, gone)
  {
    hide Without;
    var list' := list[..i] + list[i + 1..];
    WithoutFirst(list[i..], gone);
    assert list[i..][0] == list[i] && list[i..][1..] == list[i + 1..];
    if list[i] in gone {
      assert list'[i..] == list[i + 1..] && list'[..i] == list[..i];
    } else {
      assert list[..i + 1] == list[..i] + [list[i]];
    }
  }

  lemma SweepEnd(whole: seq<nat>, list: seq<nat>, gone: set<nat>)
    requires Swept(whole, list, |list|, gone)
    ensures list == whole
  {
  }

  lemma DistinctCons(x: nat, s: seq<nat>)
    requires Distinct(s) && x !in s
    ensures Distinct([x] + s)
  {
  }

  lemma ServedNow(h: seq<nat>, x: nat)
    ensures h <= h + [x] && Since(h + [x], |h|) == {x}
  {
    assert (h + [x])[|h|..] == [x];
  }
}
