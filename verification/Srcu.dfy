/** Sleepable RCU (kvm-kmod-3.16/srcu.c) as a state machine.

    A reader session fetches the current rank, adds one to that rank's counter on its CPU,
    and on leaving subtracts one on whatever CPU it then runs on.  An updater session is one
    call of __synchronize_srcu.  Steps of all sessions interleave freely; counters are read
    one CPU at a time.  `sync_func` ends once every reader it found between the fetch and the
    increment has got past the increment. */
module Srcu {
  datatype Reader = Fetched(rank: nat) | Inside(rank: nat) | Left

  datatype Phase =
    | Called(snapshot: nat)
    | Locked
    | FirstSync(pending: set<nat>)
    | Ready
    | Flipped(rank: nat)
    | SecondSync(rank: nat, pending: set<nat>)
    | Scanning(rank: nat, cpu: nat, sum: int)
    | Drained
    | ThirdSync(pending: set<nat>)
    | Synced
    | Returned

  datatype State = State(
    completed: nat,
    count: seq<seq<int>>,        // count[rank][cpu]
    readers: map<nat, Reader>,
    updaters: map<nat, Phase>,
    waitSet: map<nat, set<nat>>,   // history: per updater, the readers inside when it was called
    mutex: set<nat>)             // the updater holding the mutex, if any

  datatype Step =
    | Fetch(r: nat)
    | Increment(r: nat, cpu: nat)
    | Decrement(r: nat, cpu: nat)
    | Call(u: nat)
    | Lock(u: nat)
    | BeginSync(u: nat)
    | EndSync(u: nat)
    | Flip(u: nat)
    | ScanCpu(u: nat)
    | ScanEnd(u: nat)
    | Unlock(u: nat)

  function Rank(completed: nat): nat { completed % 2 }

  function InsideSet(readers: map<nat, Reader>): set<nat> {
    set r | r in readers && readers[r].Inside?
  }

  function ActiveOn(readers: map<nat, Reader>, rank: nat): set<nat> {
    set r | r in readers && readers[r] == Inside(rank)
  }

  /** Readers between the fetch and the increment. */
  function Between(readers: map<nat, Reader>): set<nat> {
    set r | r in readers && readers[r].Fetched?
  }

  ghost predicate Init(s: State) {
    && s.completed == 0 && |s.count| == 2 && |s.count[0]| == |s.count[1]|
    && (forall c :: 0 <= c < |s.count[0]| ==> s.count[0][c] == 0)
    && (forall c :: 0 <= c < |s.count[1]| ==> s.count[1][c] == 0)
    && s.readers == map[] && s.updaters == map[] && s.waitSet == map[] && s.mutex == {}
  }

  predicate Enabled(s: State, step: Step) {
    |s.count| == 2 &&
    match step
    case Fetch(r) => r !in s.readers
    case Increment(r, cpu) => r in s.readers && s.readers[r].Fetched? && s.readers[r].rank < 2
      && cpu < |s.count[s.readers[r].rank]|
    case Decrement(r, cpu) => r in s.readers && s.readers[r].Inside? && s.readers[r].rank < 2
      && cpu < |s.count[s.readers[r].rank]|
    case Call(u) => u !in s.updaters
    case Lock(u) => u in s.updaters && s.updaters[u].Called? && s.mutex == {}
    case BeginSync(u) => u in s.updaters && (s.updaters[u].Locked? || s.updaters[u].Flipped? || s.updaters[u].Drained?)
    case EndSync(u) =>
      && u in s.updaters && (s.updaters[u].FirstSync? || s.updaters[u].SecondSync? || s.updaters[u].ThirdSync?)
      && s.updaters[u].pending !! Between(s.readers)
    case Flip(u) => u in s.updaters && s.updaters[u].Ready?
    case ScanCpu(u) => u in s.updaters && s.updaters[u].Scanning? && s.updaters[u].rank < 2
                       && s.updaters[u].cpu < |s.count[s.updaters[u].rank]|
    case ScanEnd(u) => u in s.updaters && s.updaters[u].Scanning? && s.updaters[u].rank < 2
                       && s.updaters[u].cpu == |s.count[s.updaters[u].rank]|
    case Unlock(u) => u in s.updaters && s.updaters[u].Synced?
  }

  function Bump(count: seq<seq<int>>, rank: nat, cpu: nat, d: int): seq<seq<int>>
    requires rank < |count| && cpu < |count[rank]|
  {
    count[rank := count[rank][cpu := count[rank][cpu] + d]]
  }

  function To(s: State, u: nat, p: Phase): State { s.(updaters := s.updaters[u := p]) }

  predicate Internal(step: Step) {
    step.BeginSync? || step.EndSync? || step.ScanCpu? || step.ScanEnd?
  }

  /** Steps an updater takes while it holds the mutex and changes nothing but its own position. */
  function NextPhase(s: State, step: Step): Phase
    requires Enabled(s, step) && Internal(step)
  {
    var p := s.updaters[step.u];
    match step
    case BeginSync(_) =>
      var pending := Between(s.readers);
      if p.Flipped? then SecondSync(p.rank, pending) else if p.Drained? then ThirdSync(pending) else FirstSync(pending)
    case EndSync(_) =>
      if p.SecondSync? then Scanning(p.rank, 0, 0) else if p.ThirdSync? then Synced else Ready
    case ScanCpu(_) => Scanning(p.rank, p.cpu + 1, p.sum + s.count[p.rank][p.cpu])
    case ScanEnd(_) => if p.sum != 0 then Scanning(p.rank, 0, 0) else Drained
  }

  function Apply(s: State, step: Step): State
    requires Enabled(s, step)
  {
    match step
    case Fetch(r) => s.(readers := s.readers[r := Fetched(Rank(s.completed))])
    case Increment(r, cpu) =>
      var k := s.readers[r].rank;
      s.(readers := s.readers[r := Inside(k)], count := Bump(s.count, k, cpu, 1))
    case Decrement(r, cpu) =>
      s.(readers := s.readers[r := Left], count := Bump(s.count, s.readers[r].rank, cpu, -1))
    case Call(u) => To(s, u, Called(s.completed)).(waitSet := s.waitSet[u := InsideSet(s.readers)])
    case Lock(u) =>
      // Someone else advanced the counter twice: the work is done.
      if s.completed - s.updaters[u].snapshot >= 2 then To(s, u, Returned)
      else To(s, u, Locked).(mutex := {u})
    case Flip(u) => To(s, u, Flipped(Rank(s.completed))).(completed := s.completed + 1)
    case Unlock(u) => To(s, u, Returned).(mutex := {})
    case _ => To(s, step.u, NextPhase(s, step))
  }

  function Sum(c: seq<int>, n: nat): int
    requires n <= |c|
  {
    if n == 0 then 0 else Sum(c, n - 1) + c[n - 1]
  }

  lemma {:induction false} SumUpdate(c: seq<int>, i: nat, v: int, n: nat)
    requires i < |c| && n <= |c|
    ensures Sum(c[i := v], n) == Sum(c, n) + if i < n then v - c[i] else 0
    decreases n
  {
    if n > 0 { SumUpdate(c, i, v, n - 1); }
  }

  lemma {:induction false} SumZero(c: seq<int>, n: nat)
    requires n <= |c| && forall i :: 0 <= i < |c| ==> c[i] == 0
    ensures Sum(c, n) == 0
    decreases n
  {
    if n > 0 { SumZero(c, n - 1); }
  }

  /** No reader uses this rank or is about to. */
  ghost predicate Quiet(readers: map<nat, Reader>, rank: nat) {
    forall r :: r in readers ==> readers[r] != Fetched(rank) && readers[r] != Inside(rank)
  }

  ghost predicate CountsMatch(s: State) {
    && |s.count| == 2 && |s.count[0]| == |s.count[1]|
    && Sum(s.count[0], |s.count[0]|) == |ActiveOn(s.readers, 0)|
    && Sum(s.count[1], |s.count[1]|) == |ActiveOn(s.readers, 1)|
  }

  ghost predicate ReadersOk(s: State) {
    forall r :: r in s.readers && !s.readers[r].Left? ==> s.readers[r].rank < 2
  }

  predicate Holding(p: Phase) { !p.Called? && !p.Returned? }

  ghost predicate MutexOk(s: State) {
    && s.waitSet.Keys == s.updaters.Keys
    && (forall u :: u in s.updaters ==> (Holding(s.updaters[u]) <==> u in s.mutex))
    && (forall u, v :: u in s.mutex && v in s.mutex ==> u == v)
    && (forall u :: u in s.mutex ==> u in s.updaters)
    && (forall u :: u in s.updaters && s.updaters[u].Called? ==> s.updaters[u].snapshot <= s.completed)
  }

  /** What the holder of the mutex knows about the rank that is not current. */
  ghost predicate DrainOk(s: State, p: Phase) {
    var other := 1 - Rank(s.completed);
    match p
    case Flipped(rank) => rank == other
    case SecondSync(rank, pending) =>
      rank == other && forall r :: r in s.readers && s.readers[r] == Fetched(other) ==> r in pending
    case Scanning(rank, cpu, sum) =>
      && rank == other && |s.count| == 2 && cpu <= |s.count[other]| && Sum(s.count[other], cpu) <= sum
      && forall r :: r in s.readers ==> s.readers[r] != Fetched(other)
    case _ => Quiet(s.readers, other)
  }

  ghost predicate Draining(s: State) {
    && (forall u :: u in s.mutex && u in s.updaters ==> DrainOk(s, s.updaters[u]))
    && (s.mutex == {} ==> Quiet(s.readers, 1 - Rank(s.completed)))
  }

  /** Where a reader inside at the call of an updater can still be. */
  ghost predicate Pending(s: State, p: Phase, rank: nat) {
    match p
    case Called(snapshot) => s.completed == snapshot || (s.completed == snapshot + 1 && rank == Rank(snapshot))
    case Locked => rank == Rank(s.completed)
    case FirstSync(_) => rank == Rank(s.completed)
    case Ready => rank == Rank(s.completed)
    case Flipped(k) => rank == k
    case SecondSync(k, _) => rank == k
    case Scanning(k, _, _) => rank == k
    case _ => false
  }

  ghost predicate WaitOk(s: State) {
    forall u, r :: u in s.updaters && u in s.waitSet && r in s.waitSet[u] ==>
      r in s.readers && !s.readers[r].Fetched?
        && (s.readers[r].Inside? ==> Pending(s, s.updaters[u], s.readers[r].rank))
  }

  ghost predicate Inv(s: State) {
    CountsMatch(s) && ReadersOk(s) && MutexOk(s) && Draining(s) && WaitOk(s)
  }

  lemma InitInv(s: State)
    requires Init(s)
    ensures Inv(s)
  {
    SumZero(s.count[0], |s.count[0]|);
    SumZero(s.count[1], |s.count[1]|);
  }

  lemma ActiveSet(readers: map<nat, Reader>, r: nat, v: Reader, k: nat)
    ensures |ActiveOn(readers[r := v], k)| == |ActiveOn(readers, k)|
            - (if r in readers && readers[r] == Inside(k) then 1 else 0) + (if v == Inside(k) then 1 else 0)
  {
    var now := ActiveOn(readers, k) - {r};
    assert ActiveOn(readers, k) == if r in readers && readers[r] == Inside(k) then now + {r} else now;
    assert ActiveOn(readers[r := v], k) == if v == Inside(k) then now + {r} else now;
  }

  /** The counters of a rank, summed over the CPUs, count the readers inside on that rank. */
  lemma KeepsCounts(s: State, step: Step)
    requires Inv(s) && Enabled(s, step)
    ensures CountsMatch(Apply(s, step)) && ReadersOk(Apply(s, step))
  {
    hide Sum, WaitOk, Draining, MutexOk, ActiveOn, NextPhase;
    match step
    case Fetch(r) =>
      ActiveSet(s.readers, r, Fetched(Rank(s.completed)), 0);
      ActiveSet(s.readers, r, Fetched(Rank(s.completed)), 1);
    case Increment(r, cpu) =>
      var k := s.readers[r].rank;
      ActiveSet(s.readers, r, Inside(k), 0);
      ActiveSet(s.readers, r, Inside(k), 1);
      SumUpdate(s.count[k], cpu, s.count[k][cpu] + 1, |s.count[k]|);
    case Decrement(r, cpu) =>
      var k := s.readers[r].rank;
      ActiveSet(s.readers, r, Left, 0);
      ActiveSet(s.readers, r, Left, 1);
      SumUpdate(s.count[k], cpu, s.count[k][cpu] - 1, |s.count[k]|);
    case _ =>
  }

  lemma KeepsMutex(s: State, step: Step)
    requires Inv(s) && Enabled(s, step)
    ensures MutexOk(Apply(s, step))
  {
    hide CountsMatch, WaitOk, Draining, NextPhase;
    if Internal(step) { HolderStays(s, step); }
  }

  lemma HolderStays(s: State, step: Step)
    requires Enabled(s, step) && Internal(step)
    ensures Holding(s.updaters[step.u]) && Holding(NextPhase(s, step))
  {
  }

  /** A reader's step leaves what the mutex holder knows true: on the rank being drained
      nothing is fetched any more once the second sync_func is over, and counters only fall. */
  lemma ReaderKeepsDrain(s: State, step: Step, p: Phase)
    requires Inv(s) && Enabled(s, step) && (step.Fetch? || step.Increment? || step.Decrement?)
    requires DrainOk(s, p)
    ensures DrainOk(Apply(s, step), p)
  {
    hide WaitOk, MutexOk, Draining, Sum;
    var other := 1 - Rank(s.completed);
    if step.Decrement? && p.Scanning? && s.readers[step.r].rank == other {
      var c := s.count[other];
      SumUpdate(c, step.cpu, c[step.cpu] - 1, p.cpu);
    }
  }

  /** A scan that adds up to zero saw every reader of its rank gone. */
  lemma ScanZero(s: State, p: Phase)
    requires CountsMatch(s) && p.Scanning? && DrainOk(s, p) && p.cpu == |s.count[p.rank]| && p.sum == 0
    ensures Quiet(s.readers, 1 - Rank(s.completed))
  {
    var other := 1 - Rank(s.completed);
    assert ActiveOn(s.readers, other) == {};
    forall r | r in s.readers ensures s.readers[r] != Inside(other) {
      assert r !in ActiveOn(s.readers, other);
    }
  }

  lemma HolderDrain(s: State, step: Step)
    requires CountsMatch(s) && Enabled(s, step) && Internal(step) && DrainOk(s, s.updaters[step.u])
    ensures DrainOk(s, NextPhase(s, step))
  {
    hide Sum;
    var p, other := s.updaters[step.u], 1 - Rank(s.completed);
    if step.EndSync? && p.SecondSync? {
      forall r | r in s.readers ensures s.readers[r] != Fetched(other) {
        assert r in p.pending ==> r !in Between(s.readers);
      }
      SumStep(s.count[other], 0);
    } else if step.ScanCpu? {
      SumStep(s.count[other], p.cpu);
    } else if step.ScanEnd? {
      if p.sum == 0 { ScanZero(s, p); }
      SumStep(s.count[other], 0);
    }
  }

  lemma UpdaterKeepsDrain(s: State, step: Step)
    requires Inv(s) && Enabled(s, step) && (Internal(step) || step.Lock? || step.Flip? || step.Unlock?)
    ensures Draining(Apply(s, step))
  {
    hide WaitOk, Sum, CountsMatch, NextPhase;
    var s' := Apply(s, step);
    if step.Lock? {
      return;
    }
    assert step.u in s.mutex && DrainOk(s, s.updaters[step.u]);
    if Internal(step) {
      HolderDrain(s, step);
      SameDrain(s, s', NextPhase(s, step));
    }
  }

  lemma SumStep(c: seq<int>, n: nat)
    requires n <= |c|
    ensures Sum(c, 0) == 0 && (n < |c| ==> Sum(c, n + 1) == Sum(c, n) + c[n])
  {
  }

  lemma KeepsDraining(s: State, step: Step)
    requires Inv(s) && Enabled(s, step)
    ensures Draining(Apply(s, step))
  {
    hide CountsMatch, WaitOk, DrainOk;
    var s' := Apply(s, step);
    match step
    case Fetch(_) =>
      forall u | u in s.mutex ensures DrainOk(s', s.updaters[u]) { ReaderKeepsDrain(s, step, s.updaters[u]); }
    case Increment(_, _) =>
      forall u | u in s.mutex ensures DrainOk(s', s.updaters[u]) { ReaderKeepsDrain(s, step, s.updaters[u]); }
    case Decrement(_, _) =>
      forall u | u in s.mutex ensures DrainOk(s', s.updaters[u]) { ReaderKeepsDrain(s, step, s.updaters[u]); }
    case Call(_) =>
      forall u | u in s.mutex ensures DrainOk(s', s.updaters[u]) { SameDrain(s, s', s.updaters[u]); }
    case _ => UpdaterKeepsDrain(s, step);
  }

  lemma SameDrain(s: State, s': State, p: Phase)
    requires s'.completed == s.completed && s'.count == s.count && s'.readers == s.readers && DrainOk(s, p)
    ensures DrainOk(s', p)
  {
  }

  /** When an updater takes the mutex or flips, the rank not in use has no readers. */
  lemma OtherQuiet(s: State, step: Step)
    requires Inv(s) && Enabled(s, step) && (step.Flip? || step.Lock?)
    ensures Quiet(s.readers, 1 - Rank(s.completed))
  {
    hide CountsMatch, WaitOk;
    if step.Flip? { assert step.u in s.mutex && DrainOk(s, s.updaters[step.u]); }
  }

  ghost predicate WaitsFor(s: State, u: nat, r: nat)
    requires u in s.updaters
  {
    r in s.readers && !s.readers[r].Fetched? && (s.readers[r].Inside? ==> Pending(s, s.updaters[u], s.readers[r].rank))
  }

  lemma ReaderKeepsWait(s: State, step: Step, u: nat, r: nat)
    requires Inv(s) && Enabled(s, step) && (step.Fetch? || step.Increment? || step.Decrement?)
    requires u in s.updaters && r in s.waitSet[u] && u in s.waitSet
    ensures WaitsFor(Apply(s, step), u, r)
  {
    hide CountsMatch, Sum, Draining, MutexOk;
  }

  lemma FlipKeepsWait(s: State, step: Step, u: nat, r: nat)
    requires Inv(s) && Enabled(s, step) && (step.Flip? || step.Lock?)
    requires u in s.updaters && r in s.waitSet[u] && u in s.waitSet
    ensures WaitsFor(Apply(s, step), u, r)
  {
    OtherQuiet(s, step);
    hide CountsMatch, Sum, Draining;
    assert u == step.u || step.Lock? || s.updaters[u].Called? || s.updaters[u].Returned?;
  }

  lemma HolderWait(s: State, step: Step, rank: nat)
    requires CountsMatch(s) && Enabled(s, step) && Internal(step) && DrainOk(s, s.updaters[step.u])
    requires Pending(s, s.updaters[step.u], rank) && exists r :: r in s.readers && s.readers[r] == Inside(rank)
    ensures Pending(s, NextPhase(s, step), rank)
  {
    var p := s.updaters[step.u];
    if step.ScanEnd? && p.sum == 0 {
      ScanZero(s, p);
    }
  }

  lemma UpdaterKeepsWait(s: State, step: Step, u: nat, r: nat)
    requires Inv(s) && Enabled(s, step) && (Internal(step) || step.Unlock?)
    requires u in s.updaters && r in s.waitSet[u] && u in s.waitSet
    ensures WaitsFor(Apply(s, step), u, r)
  {
    hide CountsMatch, Sum, NextPhase, DrainOk, Pending;
    var s' := Apply(s, step);
    if u == step.u && s.readers[r].Inside? {
      if Internal(step) {
        HolderStays(s, step);
        assert u in s.mutex && DrainOk(s, s.updaters[u]);
        HolderWait(s, step, s.readers[r].rank);
        SamePending(s, s', NextPhase(s, step), r);
      } else {
        NotPending(s, s.updaters[u], s.readers[r].rank);
      }
    } else {
      SamePending(s, s', s.updaters[u], r);
    }
  }

  lemma NotPending(s: State, p: Phase, rank: nat)
    requires Pending(s, p, rank)
    ensures !p.Synced?
  {
  }

  lemma JustCalled(s: State, u: nat, r: nat)
    requires u in s.updaters && s.updaters[u] == Called(s.completed) && r in s.readers && s.readers[r].Inside?
    ensures Pending(s, s.updaters[u], s.readers[r].rank)
  {
  }

  lemma SamePending(s: State, s': State, p: Phase, r: nat)
    requires s'.completed == s.completed && r in s.readers && s.readers[r].Inside? ==> Pending(s, p, s.readers[r].rank)
    ensures s'.completed == s.completed && r in s.readers && s.readers[r].Inside? ==> Pending(s', p, s.readers[r].rank)
  {
  }

  lemma KeepsWait(s: State, step: Step)
    requires Inv(s) && Enabled(s, step)
    ensures WaitOk(Apply(s, step))
  {
    hide CountsMatch, Draining, Pending, NextPhase;
    var s' := Apply(s, step);
    forall u, r | u in s'.updaters && u in s'.waitSet && r in s'.waitSet[u]
      ensures r in s'.readers && !s'.readers[r].Fetched?
      ensures (s'.readers[r].Inside? ==> Pending(s', s'.updaters[u], s'.readers[r].rank))
    {
      if step.Call? && u == step.u {
        assert s'.completed == s.completed && s'.updaters[u] == Called(s.completed);
        JustCalled(s', u, r);
      } else if step.Call? {
        SamePending(s, s', s.updaters[u], r);
      } else if step.Fetch? || step.Increment? || step.Decrement? {
        ReaderKeepsWait(s, step, u, r);
      } else if step.Flip? || step.Lock? {
        FlipKeepsWait(s, step, u, r);
      } else {
        UpdaterKeepsWait(s, step, u, r);
      }
    }
  }

  lemma StepInv(s: State, step: Step)
    requires Inv(s) && Enabled(s, step)
    ensures Inv(Apply(s, step))
  {
    KeepsCounts(s, step);
    KeepsMutex(s, step);
    KeepsDraining(s, step);
    KeepsWait(s, step);
  }

  /** Any interleaving of any number of readers and updaters. */
  ghost predicate Run(states: seq<State>, steps: seq<Step>) {
    && |states| == |steps| + 1 && Init(states[0])
    && forall i :: 0 <= i < |steps| ==> Enabled(states[i], steps[i]) && states[i + 1] == Apply(states[i], steps[i])
  }

  lemma {:induction false} RunInv(states: seq<State>, steps: seq<Step>, i: nat)
    requires Run(states, steps) && i <= |steps|
    ensures Inv(states[i])
  {
    hide Inv, Apply, Enabled;
    if i == 0 {
      InitInv(states[0]);
    } else {
      RunInv(states, steps, i - 1);
      assert Enabled(states[i - 1], steps[i - 1]) && states[i - 1 + 1] == Apply(states[i - 1], steps[i - 1]);
      StepInv(states[i - 1], steps[i - 1]);
    }
  }

  lemma {:induction false} WaitSetKept(states: seq<State>, steps: seq<Step>, i: nat, j: nat, u: nat)
    requires Run(states, steps) && i < j <= |steps| && steps[i] == Call(u)
    ensures u in states[j].updaters && u in states[j].waitSet && states[j].waitSet[u] == InsideSet(states[i].readers)
    decreases j
  {
    hide NextPhase, InsideSet, Bump, Init;
    assert Enabled(states[j - 1], steps[j - 1]) && states[j - 1 + 1] == Apply(states[j - 1], steps[j - 1]);
    if j > i + 1 {
      WaitSetKept(states, steps, i, j - 1, u);
    }
  }

  /** The grace period: a reader inside its critical section when __synchronize_srcu is
      called has left it when the call returns, whichever path the call takes. */
  lemma GracePeriod(states: seq<State>, steps: seq<Step>, i: nat, j: nat, u: nat, r: nat)
    requires Run(states, steps) && i < j <= |steps| && steps[i] == Call(u)
    requires r in states[i].readers && states[i].readers[r].Inside?
    requires u in states[j].updaters && states[j].updaters[u].Returned?
    ensures r in states[j].readers && states[j].readers[r].Left?
  {
    RunInv(states, steps, j);
    WaitSetKept(states, steps, i, j, u);
    assert r in states[j].waitSet[u];
  }

  // ---- a call returns ----

  /** The steps lead from s to t, all of them the updater's own. */
  ghost predicate Path(s: State, u: nat, steps: seq<Step>, t: State)
    decreases |steps|
  {
    if steps == [] then s == t
    else Enabled(s, steps[0]) && OwnStep(steps[0], u) && Path(Apply(s, steps[0]), u, steps[1..], t)
  }

  predicate OwnStep(step: Step, u: nat) {
    !step.Fetch? && !step.Increment? && !step.Decrement? && !step.Call? && step.u == u
  }

  /** The updater still has to see that the readers of a rank are gone. */
  predicate Undrained(p: Phase) { !p.Drained? && !p.ThirdSync? && !p.Synced? && !p.Returned? }

  function OldRank(s: State, p: Phase): nat {
    if p.Flipped? || p.SecondSync? || p.Scanning? then p.rank else Rank(s.completed)
  }

  /** No reader is in the updater's way: none is about to enter, and those it has to wait for have left. */
  ghost predicate Free(s: State, u: nat)
    requires u in s.updaters
  {
    Between(s.readers) == {} && (Undrained(s.updaters[u]) ==> ActiveOn(s.readers, OldRank(s, s.updaters[u])) == {})
  }

  function Stage(p: Phase): nat {
    match p
    case Called(_) => 10
    case Locked => 9
    case FirstSync(_) => 8
    case Ready => 7
    case Flipped(_) => 6
    case SecondSync(_, _) => 5
    case Scanning(_, _, _) => 4
    case Drained => 3
    case ThirdSync(_) => 2
    case Synced => 1
    case Returned => 0
  }

  /** 1 if the scan under way has added up counters that have changed since. */
  function Stale(s: State, p: Phase): nat {
    if p.Scanning? && p.rank < |s.count| && p.cpu <= |s.count[p.rank]| && p.sum == Sum(s.count[p.rank], p.cpu) then 0
    else 1
  }

  function CpusLeft(s: State, p: Phase): nat {
    if p.Scanning? && p.rank < |s.count| && p.cpu <= |s.count[p.rank]| then |s.count[p.rank]| - p.cpu else 0
  }

  ghost predicate Nearer(s: State, p: Phase, s': State, p': Phase) {
    || Stage(p') < Stage(p)
    || (Stage(p') == Stage(p) && Stale(s', p') < Stale(s, p))
    || (Stage(p') == Stage(p) && Stale(s', p') == Stale(s, p) && CpusLeft(s', p') < CpusLeft(s, p))
  }

  /** The holder of the mutex, with no reader in its way, takes a step nearer to its return. */
  lemma Advance(s: State, u: nat) returns (step: Step)
    requires Inv(s) && u in s.mutex && u in s.updaters && Free(s, u)
    ensures Enabled(s, step) && OwnStep(step, u)
    ensures var s' := Apply(s, step);
            && u in s'.updaters && Free(s', u) && Nearer(s, s.updaters[u], s', s'.updaters[u])
            && (u in s'.mutex || s'.updaters[u].Returned?)
  {
    hide Inv, Stale, CpusLeft, Sum;
    var p := s.updaters[u];
    HolderFacts(s, u);
    if p.Ready? {
      step := Flip(u);
    } else if p.Synced? {
      step := Unlock(u);
    } else {
      step := AdvanceInternal(s, u);
      SameNearer(s, p, Apply(s, step), NextPhase(s, step));
    }
  }

  lemma HolderFacts(s: State, u: nat)
    requires Inv(s) && u in s.mutex && u in s.updaters
    ensures |s.count| == 2 && Holding(s.updaters[u])
  {
    hide WaitOk, Draining;
  }

  lemma SameNearer(s: State, p: Phase, s': State, p': Phase)
    requires Nearer(s, p, s, p') && s'.count == s.count
    ensures Nearer(s, p, s', p')
  {
  }

  lemma AdvanceInternal(s: State, u: nat) returns (step: Step)
    requires Inv(s) && u in s.mutex && u in s.updaters && Free(s, u)
    requires !s.updaters[u].Ready? && !s.updaters[u].Synced?
    ensures Enabled(s, step) && Internal(step) && step.u == u && Nearer(s, s.updaters[u], s, NextPhase(s, step))
    ensures var p, p' := s.updaters[u], NextPhase(s, step);
            (Undrained(p') ==> Undrained(p) && OldRank(s, p') == OldRank(s, p)) && !p'.Returned?
  {
    hide Inv, ActiveOn, Stale, CpusLeft;
    var p := s.updaters[u];
    HolderFacts(s, u);
    if p.Scanning? {
      step := AdvanceScan(s, u);
    } else if p.Locked? || p.Flipped? || p.Drained? {
      step := BeginSync(u);
    } else {
      step := EndSync(u);
    }
  }

  lemma AdvanceScan(s: State, u: nat) returns (step: Step)
    requires Inv(s) && u in s.mutex && u in s.updaters && s.updaters[u].Scanning?
    requires ActiveOn(s.readers, s.updaters[u].rank) == {}
    ensures Enabled(s, step) && (step == ScanCpu(u) || step == ScanEnd(u))
    ensures Nearer(s, s.updaters[u], s, NextPhase(s, step))
    ensures NextPhase(s, step).Scanning? ==> NextPhase(s, step).rank == s.updaters[u].rank
  {
    hide WaitOk, Sum;
    var p := s.updaters[u];
    assert DrainOk(s, p);
    SumStep(s.count[p.rank], p.cpu);
    if p.cpu < |s.count[p.rank]| {
      step := ScanCpu(u);
    } else {
      step := ScanEnd(u);
    }
  }

  /** Once the readers it waits for have left, the holder of the mutex can return, by its own steps alone. */
  lemma {:induction false} HolderReturns(s: State, u: nat) returns (steps: seq<Step>, t: State)
    requires Inv(s) && u in s.mutex && u in s.updaters && Free(s, u)
    ensures Path(s, u, steps, t) && u in t.updaters && t.updaters[u].Returned?
    decreases Stage(s.updaters[u]), Stale(s, s.updaters[u]), CpusLeft(s, s.updaters[u])
  {
    hide Inv, Enabled, Apply, Free, Stale, CpusLeft, Stage, OwnStep;
    var step := Advance(s, u);
    var s' := Apply(s, step);
    StepInv(s, step);
    if s'.updaters[u].Returned? {
      steps, t := [step], s';
      assert steps[1..] == [];
    } else {
      var rest;
      rest, t := HolderReturns(s', u);
      steps := [step] + rest;
      assert steps[1..] == rest;
    }
  }

  /** A caller that finds the counter advanced twice since it was called returns without waiting for anyone. */
  lemma EarlyReturn(s: State, u: nat)
    requires Inv(s) && s.mutex == {} && u in s.updaters && s.updaters[u].Called?
    ensures Enabled(s, Lock(u))
    ensures s.completed >= s.updaters[u].snapshot + 2 <==> Apply(s, Lock(u)).updaters[u].Returned?
    ensures Apply(s, Lock(u)).updaters[u].Returned? ==> Apply(s, Lock(u)).mutex == {}
  {
    hide WaitOk, Draining, Sum;
  }

  /** So can any caller, once the mutex is free. */
  lemma CallerReturns(s: State, u: nat) returns (steps: seq<Step>, t: State)
    requires Inv(s) && s.mutex == {} && u in s.updaters && s.updaters[u].Called? && Free(s, u)
    ensures Path(s, u, steps, t) && u in t.updaters && t.updaters[u].Returned?
  {
    hide WaitOk, Draining, ActiveOn, Between, Sum;
    var step := Lock(u);
    var s' := Apply(s, step);
    StepInv(s, step);
    if s'.updaters[u].Returned? {
      steps, t := [step], s';
      assert steps[1..] == [];
    } else {
      var rest;
      rest, t := HolderReturns(s', u);
      steps := [step] + rest;
      assert steps[1..] == rest;
    }
  }
}
