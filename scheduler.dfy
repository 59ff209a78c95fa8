/** The preemptive priority scheduler with aging: a discrete tick loop that admits
    arrivals, dispatches from a lazy-deletion ready queue, refreshes the queue head's
    aged priority, preempts on a strictly better effective priority and executes one
    tick at a time. */
module Scheduler {
  import opened Wrappers
  import opened Processes
  import Heap

  /** One timeline slot: the pid that ran in that tick, or the idle marker. */
  datatype Tick = Idle | Ran(pid: string)

  datatype ScheduleResult = ScheduleResult(
    timeline: seq<Tick>,
    completionTimes: map<string, int>,
    waitingTimes: map<string, int>,
    averageWaitingTime: real)

  datatype ConfigError = NonPositiveAgingInterval

  datatype PriorityAgingScheduler = PriorityAgingScheduler(agingInterval: int)

  /** Construction rejects a non-positive aging interval; the interval defaults to 10. */
  function NewScheduler(agingInterval: int := 10): (r: Result<PriorityAgingScheduler, ConfigError>)
    ensures r.Failure? <==> agingInterval <= 0
    ensures r.Success? ==> r.value.agingInterval == agingInterval
  {
    if agingInterval <= 0 then Failure(NonPositiveAgingInterval)
    else Success(PriorityAgingScheduler(agingInterval))
  }

  function Max(a: int, b: int): int {
    if a < b then b else a
  }

  // ---------------------------------------------------------------------------
  // Aging

  /** `max(1, base - floor(waited / interval))` with `waited = max(0, now - lastEnqueued)`.
      The quotient of a non-negative by a positive number floors, so Dafny's `/` is
      Python's `//` here. */
  function EffPriority(agingInterval: int, basePriority: int, lastEnqueued: int, now: int): (e: int)
    requires agingInterval > 0
    ensures 1 <= e <= Max(1, basePriority)
  {
    var waited := Max(0, now - lastEnqueued);
    var boost := waited / agingInterval;
    Max(1, basePriority - boost)
  }

  /** A process that has waited less than one interval keeps its base priority (clamped at 1). */
  lemma EffPriorityUnaged(agingInterval: int, basePriority: int, lastEnqueued: int, now: int)
    requires agingInterval > 0 && now - lastEnqueued < agingInterval
    ensures EffPriority(agingInterval, basePriority, lastEnqueued, now) == Max(1, basePriority)
  {
    var waited := Max(0, now - lastEnqueued);
    assert waited / agingInterval == 0;
  }

  lemma MulCancel(d: int, x: int, y: int)
    requires d > 0 && d * x < d * y
    ensures x < y
  {
  }

  lemma DivMonotone(a: int, b: int, d: int)
    requires 0 <= a <= b && d > 0
    ensures a / d <= b / d
  {
    var qa, qb := a / d, b / d;
    assert d * qa <= a;
    assert b < d * (qb + 1);
    MulCancel(d, qa, qb + 1);
  }

  /** Waiting longer never makes the effective priority worse. */
  lemma EffPriorityNonIncreasing(agingInterval: int, basePriority: int, lastEnqueued: int, now: int, later: int)
    requires agingInterval > 0 && now <= later
    ensures EffPriority(agingInterval, basePriority, lastEnqueued, later)
         <= EffPriority(agingInterval, basePriority, lastEnqueued, now)
  {
    DivMonotone(Max(0, now - lastEnqueued), Max(0, later - lastEnqueued), agingInterval);
  }

  /** After `interval * (base - 1)` ticks of waiting the effective priority is the best one, 1. */
  lemma EffPriorityFullyAged(agingInterval: int, basePriority: int, lastEnqueued: int, now: int)
    requires agingInterval > 0 && basePriority >= 1
    requires now - lastEnqueued >= agingInterval * (basePriority - 1)
    ensures EffPriority(agingInterval, basePriority, lastEnqueued, now) == 1
  {
    var waited := Max(0, now - lastEnqueued);
    var q := waited / agingInterval;
    assert waited < agingInterval * (q + 1);
    if q < basePriority - 1 {
      assert false;
    }
  }

  // ---------------------------------------------------------------------------
  // Timeline bookkeeping

  /** How many ticks of `tl` ran `pid`; this is the source's `executed_ticks[pid]`. */
  function Count(tl: seq<Tick>, pid: string): (c: nat)
    ensures c <= |tl|
  {
    if tl == [] then 0
    else Count(tl[..|tl| - 1], pid) + (if tl[|tl| - 1] == Ran(pid) then 1 else 0)
  }

  lemma CountAppend(tl: seq<Tick>, x: Tick, pid: string)
    ensures Count(tl + [x], pid) == Count(tl, pid) + (if x == Ran(pid) then 1 else 0)
  {
    assert (tl + [x])[..|tl|] == tl;
  }

  lemma {:induction false} CountZero(tl: seq<Tick>, pid: string)
    requires Count(tl, pid) == 0
    ensures forall t :: 0 <= t < |tl| ==> tl[t] != Ran(pid)
  {
    if tl != [] {
      CountZero(tl[..|tl| - 1], pid);
      forall t | 0 <= t < |tl| - 1 ensures tl[t] != Ran(pid) {
        assert tl[t] == tl[..|tl| - 1][t];
      }
    }
  }

  // ---------------------------------------------------------------------------
  // Statistics

  /** The sum of a map's values, in no particular order. */
  ghost function MapSum(m: map<string, int>): int
    decreases |m|
  {
    if m == map[] then 0
    else
      var k :| k in m;
      m[k] + MapSum(m - {k})
  }

  lemma {:induction false} MapSumRemove(m: map<string, int>, k: string)
    requires k in m
    ensures MapSum(m) == m[k] + MapSum(m - {k})
    decreases |m|
  {
    var j :| j in m && MapSum(m) == m[j] + MapSum(m - {j});
    if j != k {
      MapSumRemove(m - {j}, k);
      MapSumRemove(m - {k}, j);
      assert m - {j} - {k} == m - {k} - {j};
    }
  }

  /** The mean waiting time, 0 when nothing completed. */
  ghost function Average(m: map<string, int>): real {
    if |m| == 0 then 0.0 else MapSum(m) as real / |m| as real
  }

  /** `sum(m.values())`. */
  method SumValues(m: map<string, int>) returns (s: int)
    ensures s == MapSum(m)
  {
    s := 0;
    var rest := m;
    while rest != map[]
      invariant s + MapSum(rest) == MapSum(m)
      decreases |rest|
    {
      var k :| k in rest;
      MapSumRemove(rest, k);
      s := s + rest[k];
      rest := rest - {k};
    }
  }

  /** The pids of the processes among `procs` whose completion time is set. */
  ghost function CompletedPids(procs: seq<Process>, n: int): set<string>
    reads procs`completionTime
  {
    set j | 0 <= j < n && j < |procs| && procs[j].completionTime.Some? :: procs[j].pid
  }

  /** A key set that holds exactly the pids of the completed processes is `CompletedPids`. */
  lemma CompletedPidsExactly(procs: seq<Process>, keys: set<string>, owner: map<string, nat>)
    requires forall k :: k in keys ==>
      k in owner && owner[k] < |procs| && procs[owner[k]].pid == k && procs[owner[k]].completionTime.Some?
    requires forall j :: 0 <= j < |procs| && procs[j].completionTime.Some? ==> procs[j].pid in keys
    ensures keys == CompletedPids(procs, |procs|)
  {
  }

  /** One completion time and one waiting time `completion - arrival - burst` for each
      completed process among `procs`, and nothing else. */
  ghost predicate Collected(procs: seq<Process>, completionTimes: map<string, int>, waitingTimes: map<string, int>)
    reads procs`completionTime
  {
    && completionTimes.Keys == CompletedPids(procs, |procs|)
    && waitingTimes.Keys == completionTimes.Keys
    && forall i :: 0 <= i < |procs| && procs[i].completionTime.Some? ==>
      && procs[i].pid in completionTimes && procs[i].pid in waitingTimes
      && completionTimes[procs[i].pid] == procs[i].completionTime.value
      && waitingTimes[procs[i].pid] == procs[i].completionTime.value - procs[i].arrival - procs[i].burst
  }

  /** The post-loop pass: one completion time and one waiting time per completed process. */
  method CollectStatistics(procs: seq<Process>) returns (completionTimes: map<string, int>, waitingTimes: map<string, int>)
    requires DistinctPids(procs)
    ensures Collected(procs, completionTimes, waitingTimes)
  {
    completionTimes, waitingTimes := map[], map[];
    ghost var owner: map<string, nat> := map[];
    for i := 0 to |procs|
      invariant waitingTimes.Keys == completionTimes.Keys
      invariant forall k :: k in completionTimes ==>
        k in owner && owner[k] < i && procs[owner[k]].pid == k && procs[owner[k]].completionTime.Some?
      invariant forall j :: 0 <= j < i && procs[j].completionTime.Some? ==>
        && procs[j].pid in completionTimes
        && completionTimes[procs[j].pid] == procs[j].completionTime.value
        && waitingTimes[procs[j].pid] == procs[j].completionTime.value - procs[j].arrival - procs[j].burst
    {
      var p := procs[i];
      if p.completionTime.Some? {
        ghost var (c0, w0) := (completionTimes, waitingTimes);
        completionTimes := completionTimes[p.pid := p.completionTime.value];
        var turnaround := p.completionTime.value - p.arrival;
        var waiting := turnaround - p.burst;
        waitingTimes := waitingTimes[p.pid := waiting];
        owner := owner[p.pid := i];
        forall j | 0 <= j < i && procs[j].completionTime.Some?
          ensures completionTimes[procs[j].pid] == c0[procs[j].pid]
          ensures waitingTimes[procs[j].pid] == w0[procs[j].pid]
        {
          assert procs[j].pid != p.pid;
        }
      }
    }
    CompletedPidsExactly(procs, completionTimes.Keys, owner);
  }

  /** `sum(waiting_times.values()) / len(waiting_times)`, or 0 for an empty map. */
  method AverageWaitingTime(waitingTimes: map<string, int>) returns (avg: real)
    ensures avg == Average(waitingTimes)
  {
    if |waitingTimes| == 0 {
      avg := 0.0;
    } else {
      var total := SumValues(waitingTimes);
      avg := total as real / |waitingTimes| as real;
    }
  }

  // ---------------------------------------------------------------------------
  // The tick loop's invariant

  /** The scheduler-managed fields of one process, as values. */
  datatype Progress = Progress(remaining: int, lastEnqueued: int, startTime: Option<int>, completionTime: Option<int>)

  ghost function ProgressOf(p: Process): Progress
    reads p`remaining, p`lastEnqueued, p`startTime, p`completionTime
  {
    Progress(p.remaining, p.lastEnqueued, p.startTime, p.completionTime)
  }

  /** `prog` mirrors the scheduler-managed fields of `procs`. */
  ghost predicate Linked(procs: seq<Process>, prog: seq<Progress>)
    reads procs`remaining, procs`lastEnqueued, procs`startTime, procs`completionTime
  {
    |prog| == |procs| && forall i :: 0 <= i < |procs| ==> prog[i] == ProgressOf(procs[i])
  }

  /** `procs` is in intake order as far as arrivals go. */
  ghost predicate ArrivalSorted(procs: seq<Process>) {
    forall i, j :: 0 <= i < j < |procs| ==> procs[i].arrival <= procs[j].arrival
  }

  /** `pos` maps each pid to the index of its process. */
  ghost predicate PidIndex(procs: seq<Process>, pos: map<string, nat>) {
    && (forall i :: 0 <= i < |procs| ==> procs[i].pid in pos && pos[procs[i].pid] == i)
    && (forall k :: k in pos ==> pos[k] < |procs| && procs[pos[k]].pid == k)
  }

  /** A process that has not yet started, as the loop expects to find it. */
  ghost predicate Fresh(p: Process)
    reads p
  {
    p.remaining == p.burst && p.startTime.None? && p.completionTime.None?
  }

  /** What the loop knows about process `p`, whose managed fields are `g`, after the
      ticks `tl`; `admitted` says whether intake has reached it. */
  ghost predicate ProcOk(p: Process, g: Progress, tl: seq<Tick>, admitted: bool) {
    var n := Count(tl, p.pid);
    && g.remaining == p.burst - n
    && (!admitted ==> n == 0 && g.startTime.None? && g.completionTime.None?)
    && (g.startTime.None? ==> n == 0 && g.completionTime.None?)
    && (g.startTime.Some? ==>
          && p.arrival <= g.startTime.value
          && g.startTime.value + n <= |tl|
          && forall t :: 0 <= t < |tl| && tl[t] == Ran(p.pid) ==> g.startTime.value <= t)
    && (admitted ==> forall t :: 0 <= t < |tl| && tl[t] == Idle && p.arrival <= t ==>
          g.completionTime.Some? && g.completionTime.value <= t)
    && (g.completionTime.None? ==> n == 0 || g.remaining > 0)
    && (g.completionTime.Some? ==>
          && n == (if p.burst >= 1 then p.burst else 1)
          && g.startTime.value + n <= g.completionTime.value <= |tl|
          && forall t :: 0 <= t < |tl| && g.completionTime.value <= t ==> tl[t] != Ran(p.pid))
  }

  /** `ProcOk` for `procs[i]`, which intake has reached when `i < idx`. */
  ghost predicate ProcOkAt(procs: seq<Process>, prog: seq<Progress>, tl: seq<Tick>, idx: int, i: int) {
    0 <= i < |procs| && i < |prog| && ProcOk(procs[i], prog[i], tl, i < idx)
  }

  /** The ticks a process still needs: 0 once complete, at least 1 before. */
  function WorkOf(g: Progress): nat {
    if g.completionTime.Some? then 0 else if g.remaining >= 1 then g.remaining else 1
  }

  /** The ticks all processes still need together: the loop's termination measure. */
  function Work(prog: seq<Progress>): nat {
    if prog == [] then 0 else Work(prog[..|prog| - 1]) + WorkOf(prog[|prog| - 1])
  }

  /** The live keys of the ready queue are exactly the admitted, incomplete processes
      other than the running one (index `ci`, or -1 when none runs), each carried
      under its own pid. */
  ghost predicate ReadyOk(procs: seq<Process>, pos: map<string, nat>, prog: seq<Progress>,
                          live: map<string, Heap.LiveEntry<Process>>, idx: int, ci: int)
  {
    && |prog| == |procs|
    && (forall k :: k in live ==>
          && k in pos && pos[k] < |procs| && pos[k] < idx && pos[k] != ci
          && live[k].item == procs[pos[k]] && prog[pos[k]].completionTime.None?)
    && (forall i :: 0 <= i < idx && i < |procs| && i != ci && prog[i].completionTime.None? ==> procs[i].pid in live)
  }

  /** The running process, if any, is `procs[ci]`: admitted, started and incomplete. */
  ghost predicate CurrentOk(procs: seq<Process>, prog: seq<Progress>, current: Option<Process>, ci: int, idx: int) {
    if current.None? then ci == -1
    else
      && 0 <= ci < idx && ci < |procs| && ci < |prog| && current.value == procs[ci]
      && prog[ci].completionTime.None? && prog[ci].startTime.Some?
  }

  /** The number of completed processes. */
  function Completed(prog: seq<Progress>): (c: nat)
    ensures c <= |prog|
  {
    if prog == [] then 0
    else Completed(prog[..|prog| - 1]) + (if prog[|prog| - 1].completionTime.Some? then 1 else 0)
  }

  /** The part of the loop invariant that does not involve the ready queue or the process
      objects, at the top of an iteration, where `clock == |tl|`. */
  ghost predicate State(procs: seq<Process>, pos: map<string, nat>, prog: seq<Progress>, clock: int, idx: int,
                        current: Option<Process>, ci: int, tl: seq<Tick>, completed: int)
  {
    && |prog| == |procs| && 0 <= idx <= |procs| && clock == |tl|
    && (forall i :: 0 <= i < |procs| ==> ProcOkAt(procs, prog, tl, idx, i))
    && (idx == 0 || procs[idx - 1].arrival <= clock)
    && (idx == |procs| || clock <= procs[idx].arrival || procs[idx].arrival < 0)
    && CurrentOk(procs, prog, current, ci, idx)
    && completed == Completed(prog)
    && (forall t :: 0 <= t < |tl| && tl[t].Ran? ==> tl[t].pid in pos)
  }

  /** The loop invariant. */
  ghost predicate Inv(procs: seq<Process>, pos: map<string, nat>, prog: seq<Progress>, ready: Heap.BinaryHeap<Process>,
                      clock: int, idx: int, current: Option<Process>, ci: int, tl: seq<Tick>, completed: int)
    reads ready, procs`remaining, procs`lastEnqueued, procs`startTime, procs`completionTime
  {
    && ready.Valid()
    && Linked(procs, prog)
    && ReadyOk(procs, pos, prog, ready.Contents, idx, ci)
    && State(procs, pos, prog, clock, idx, current, ci, tl, completed)
  }


  /** Intake has admitted every process that arrives at `clock`. */
  ghost predicate Admitted(procs: seq<Process>, idx: int, clock: int) {
    0 <= idx <= |procs| && (idx == |procs| || procs[idx].arrival != clock)
  }

  /** The managed fields of the running process after it executes the tick at `clock`:
      one tick less remaining, and complete once nothing remains. */
  function Ticked(g: Progress, clock: int): Progress {
    var r := g.remaining - 1;
    g.(remaining := r, completionTime := if r <= 0 then Some(clock + 1) else g.completionTime)
  }

  /** The managed fields of a process dispatched at `clock`: its start time is the first
      dispatch's clock. */
  function Started(g: Progress, clock: int): Progress {
    if g.startTime.None? then g.(startTime := Some(clock)) else g
  }

  /** The ready entry `e` put back with its effective priority at `clock` computed from
      `lastEnqueued`, under insertion count `counter`: priority `(eff, arrival, 0)`. */
  function Aged(agingInterval: int, e: Heap.LiveEntry<Process>, lastEnqueued: int, clock: int, counter: nat): Heap.LiveEntry<Process>
    requires agingInterval > 0
  {
    Heap.LiveEntry((EffPriority(agingInterval, e.item.basePriority, lastEnqueued, clock), e.item.arrival, 0), counter, e.item)
  }

  // ---------------------------------------------------------------------------
  // Counting completions and outstanding work

  lemma {:induction false} CompletedUpdate(prog: seq<Progress>, i: nat, g: Progress)
    requires i < |prog|
    ensures Completed(prog[i := g]) + (if prog[i].completionTime.Some? then 1 else 0)
         == Completed(prog) + (if g.completionTime.Some? then 1 else 0)
  {
    var n := |prog|;
    if i == n - 1 {
      assert prog[i := g][..n - 1] == prog[..n - 1];
    } else {
      CompletedUpdate(prog[..n - 1], i, g);
      assert prog[i := g][..n - 1] == prog[..n - 1][i := g];
    }
  }

  /** Fewer completions than processes: some process is incomplete. */
  lemma {:induction false} SomeIncomplete(prog: seq<Progress>) returns (i: nat)
    requires Completed(prog) < |prog|
    ensures i < |prog| && prog[i].completionTime.None?
  {
    var n := |prog|;
    if prog[n - 1].completionTime.None? {
      i := n - 1;
    } else {
      i := SomeIncomplete(prog[..n - 1]);
    }
  }

  /** The loop has not run past the last completion: before any tick, or while some process
      is incomplete, or when some process completed at exactly `clock`. */
  ghost predicate NotPastLast(prog: seq<Progress>, clock: int) {
    clock == 0 || exists i :: 0 <= i < |prog| && (prog[i].completionTime.None? || prog[i].completionTime == Some(clock))
  }

  /** A tick executed at `clock` while process `k` is incomplete leaves the loop not past
      the last completion: `k` is still incomplete, or it is the one that completed at
      `clock + 1`. */
  lemma NotPastLastStep(prog: seq<Progress>, prog': seq<Progress>, k: nat, ci: int, clock: int)
    requires k < |prog| && prog[k].completionTime.None?
    requires prog' == prog || (0 <= ci < |prog| && prog' == prog[ci := Ticked(prog[ci], clock)])
    ensures NotPastLast(prog', clock + 1)
  {
    assert prog'[k].completionTime.None? || prog'[k].completionTime == Some(clock + 1);
  }

  /** As many completions as processes: every process is complete. */
  lemma {:induction false} AllCompleted(prog: seq<Progress>)
    requires Completed(prog) == |prog|
    ensures forall i :: 0 <= i < |prog| ==> prog[i].completionTime.Some?
  {
    if prog != [] {
      var n := |prog|;
      AllCompleted(prog[..n - 1]);
      forall i | 0 <= i < n - 1 ensures prog[i].completionTime.Some? {
        assert prog[i] == prog[..n - 1][i];
      }
    }
  }

  lemma {:induction false} NoneCompleted(prog: seq<Progress>)
    requires forall i :: 0 <= i < |prog| ==> prog[i].completionTime.None?
    ensures Completed(prog) == 0
  {
    if prog != [] {
      NoneCompleted(prog[..|prog| - 1]);
    }
  }

  lemma {:induction false} WorkUpdate(prog: seq<Progress>, i: nat, g: Progress)
    requires i < |prog|
    ensures Work(prog[i := g]) + WorkOf(prog[i]) == Work(prog) + WorkOf(g)
  {
    var n := |prog|;
    if i == n - 1 {
      assert prog[i := g][..n - 1] == prog[..n - 1];
    } else {
      WorkUpdate(prog[..n - 1], i, g);
      assert prog[i := g][..n - 1] == prog[..n - 1][i := g];
    }
  }

  // ---------------------------------------------------------------------------
  // How each step keeps the invariant

  /** A tick that does not run `p` keeps what is known about `p`; an idle tick needs `p`
      complete once it is admitted and has arrived. */
  lemma ProcOkAppend(p: Process, g: Progress, tl: seq<Tick>, x: Tick, admitted: bool)
    requires ProcOk(p, g, tl, admitted) && x != Ran(p.pid)
    requires x == Idle && admitted && p.arrival <= |tl| ==> g.completionTime.Some?
    ensures ProcOk(p, g, tl + [x], admitted)
  {
    CountAppend(tl, x, p.pid);
  }

  /** Admitting `procs[idx]` into the ready queue. */
  lemma AdmitKeepsReady(procs: seq<Process>, pos: map<string, nat>, prog: seq<Progress>,
                        live0: map<string, Heap.LiveEntry<Process>>, live: map<string, Heap.LiveEntry<Process>>,
                        idx: int, idx': int, ci: int)
    requires PidIndex(procs, pos) && 0 <= idx < |procs| && ci < idx && idx' == idx + 1
    requires ReadyOk(procs, pos, prog, live0, idx, ci) && prog[idx].completionTime.None?
    requires procs[idx].pid in live && live == live0[procs[idx].pid := live[procs[idx].pid]] && live[procs[idx].pid].item == procs[idx]
    ensures ReadyOk(procs, pos, prog, live, idx', ci)
  {
  }

  lemma AdmitKeepsState(procs: seq<Process>, pos: map<string, nat>, prog: seq<Progress>, clock: int, idx: int, idx': int,
                        current: Option<Process>, ci: int, tl: seq<Tick>, completed: int)
    requires ArrivalSorted(procs)
    requires State(procs, pos, prog, clock, idx, current, ci, tl, completed)
    requires idx < |procs| && procs[idx].arrival == clock && idx' == idx + 1
    ensures State(procs, pos, prog, clock, idx', current, ci, tl, completed)
    ensures prog[idx].completionTime.None?
  {
    assert ProcOkAt(procs, prog, tl, idx, idx);
    forall i | 0 <= i < |procs| ensures ProcOkAt(procs, prog, tl, idx', i) {
      assert ProcOkAt(procs, prog, tl, idx, i);
    }
  }

  /** Dispatching the ready entry `key` when nothing runs: it becomes the running
      process `next`, at index `nci`, and its start time is set on its first dispatch. */
  lemma DispatchKeeps(procs: seq<Process>, pos: map<string, nat>, prog: seq<Progress>, prog': seq<Progress>,
                      live: map<string, Heap.LiveEntry<Process>>, key: string, next: Option<Process>, nci: int,
                      clock: int, idx: int, tl: seq<Tick>, completed: int)
    requires ArrivalSorted(procs) && PidIndex(procs, pos)
    requires State(procs, pos, prog, clock, idx, None, -1, tl, completed)
    requires ReadyOk(procs, pos, prog, live, idx, -1) && key in live
    requires next == Some(live[key].item) && key in pos && nci == pos[key] && 0 <= nci < |prog|
    requires prog' == prog[nci := Started(prog[nci], clock)]
    ensures State(procs, pos, prog', clock, idx, next, nci, tl, completed)
    ensures ReadyOk(procs, pos, prog', live - {key}, idx, nci)
    ensures Work(prog') == Work(prog)
  {
    forall i | 0 <= i < |procs| ensures ProcOkAt(procs, prog', tl, idx, i) {
      assert ProcOkAt(procs, prog, tl, idx, i);
      if i == nci && prog[nci].startTime.None? {
        CountZero(tl, procs[nci].pid);
        assert procs[nci].arrival <= procs[idx - 1].arrival;
      }
    }
    CompletedUpdate(prog, nci, Started(prog[nci], clock));
    WorkUpdate(prog, nci, Started(prog[nci], clock));
  }

  /** The running process `procs[ci]` rejoining the ready queue. */
  lemma RequeueKeepsReady(procs: seq<Process>, pos: map<string, nat>, prog: seq<Progress>,
                          live0: map<string, Heap.LiveEntry<Process>>, live: map<string, Heap.LiveEntry<Process>>,
                          idx: int, ci: int)
    requires PidIndex(procs, pos) && 0 <= ci < idx <= |procs|
    requires ReadyOk(procs, pos, prog, live0, idx, ci) && prog[ci].completionTime.None?
    requires procs[ci].pid in live && live == live0[procs[ci].pid := live[procs[ci].pid]] && live[procs[ci].pid].item == procs[ci]
    ensures ReadyOk(procs, pos, prog, live, idx, -1)
  {
  }

  /** Taking the least ready entry `key` out and putting its process back under a new
      priority leaves the ready queue's membership as it was. */
  lemma RefreshKeepsReady(procs: seq<Process>, pos: map<string, nat>, prog: seq<Progress>,
                          live0: map<string, Heap.LiveEntry<Process>>, live: map<string, Heap.LiveEntry<Process>>,
                          key: string, e: Heap.LiveEntry<Process>, idx: int, ci: int)
    requires PidIndex(procs, pos) && ReadyOk(procs, pos, prog, live0, idx, ci) && key in live0
    requires e.item == live0[key].item && live == (live0 - {key})[live0[key].item.pid := e]
    ensures ReadyOk(procs, pos, prog, live, idx, ci) && live == live0[key := e]
  {
    assert live0[key].item.pid == key;
  }

  /** An idle tick, taken only when nothing is ready or running. */
  lemma IdleKeeps(procs: seq<Process>, pos: map<string, nat>, prog: seq<Progress>, clock: int, clock': int, idx: int,
                  tl: seq<Tick>, tl': seq<Tick>, completed: int)
    requires State(procs, pos, prog, clock, idx, None, -1, tl, completed)
    requires ReadyOk(procs, pos, prog, map[], idx, -1) && Admitted(procs, idx, clock)
    requires clock' == clock + 1 && tl' == tl + [Idle]
    ensures State(procs, pos, prog, clock', idx, None, -1, tl', completed)
  {
    forall i | 0 <= i < |procs| ensures ProcOkAt(procs, prog, tl', idx, i) {
      assert ProcOkAt(procs, prog, tl, idx, i);
      ProcOkAppend(procs[i], prog[i], tl, Idle, i < idx);
    }
  }

  /** With nothing ready or running and some process incomplete, intake has not finished:
      the last arrival is still ahead. */
  lemma IdleBeforeLastArrival(procs: seq<Process>, pos: map<string, nat>, prog: seq<Progress>, clock: int, idx: int,
                              tl: seq<Tick>, completed: int)
    requires ArrivalSorted(procs) && State(procs, pos, prog, clock, idx, None, -1, tl, completed)
    requires ReadyOk(procs, pos, prog, map[], idx, -1) && Admitted(procs, idx, clock) && completed < |procs|
    requires forall i :: 0 <= i < |procs| ==> procs[i].arrival >= 0
    ensures clock < procs[|procs| - 1].arrival
  {
    var i := SomeIncomplete(prog);
    assert idx <= i;
    assert procs[idx].arrival <= procs[|procs| - 1].arrival;
  }

  /** Running `procs[ci]` for the tick at `clock`: it stops running (`next`, `nci`) and
      counts as completed exactly when the tick completes it. */
  lemma RanKeeps(procs: seq<Process>, pos: map<string, nat>, prog: seq<Progress>, prog': seq<Progress>,
                 live: map<string, Heap.LiveEntry<Process>>, clock: int, clock': int, idx: int,
                 current: Option<Process>, ci: int, next: Option<Process>, nci: int,
                 tl: seq<Tick>, tl': seq<Tick>, completed: int, completed': int)
    requires PidIndex(procs, pos) && 0 <= ci < |procs| && current == Some(procs[ci]) && Admitted(procs, idx, clock)
    requires State(procs, pos, prog, clock, idx, current, ci, tl, completed)
    requires ReadyOk(procs, pos, prog, live, idx, ci)
    requires prog' == prog[ci := Ticked(prog[ci], clock)] && clock' == clock + 1 && tl' == tl + [Ran(procs[ci].pid)]
    requires if prog'[ci].completionTime.Some? then next.None? && nci == -1 && completed' == completed + 1
             else next == current && nci == ci && completed' == completed
    ensures State(procs, pos, prog', clock', idx, next, nci, tl', completed')
    ensures ReadyOk(procs, pos, prog', live, idx, nci)
    ensures Work(prog') < Work(prog)
  {
    RanKeepsState(procs, pos, prog, prog', clock, clock', idx, current, ci, next, nci, tl, tl', completed, completed');
    RanKeepsReady(procs, pos, prog, prog', live, Ticked(prog[ci], clock), idx, ci, nci);
    WorkUpdate(prog, ci, Ticked(prog[ci], clock));
  }

  lemma RanKeepsState(procs: seq<Process>, pos: map<string, nat>, prog: seq<Progress>, prog': seq<Progress>,
                      clock: int, clock': int, idx: int, current: Option<Process>, ci: int, next: Option<Process>, nci: int,
                      tl: seq<Tick>, tl': seq<Tick>, completed: int, completed': int)
    requires PidIndex(procs, pos) && 0 <= ci < |procs| && current == Some(procs[ci]) && Admitted(procs, idx, clock)
    requires State(procs, pos, prog, clock, idx, current, ci, tl, completed)
    requires prog' == prog[ci := Ticked(prog[ci], clock)] && clock' == clock + 1 && tl' == tl + [Ran(procs[ci].pid)]
    requires if prog'[ci].completionTime.Some? then next.None? && nci == -1 && completed' == completed + 1
             else next == current && nci == ci && completed' == completed
    ensures State(procs, pos, prog', clock', idx, next, nci, tl', completed')
  {
    var x := Ran(procs[ci].pid);
    CountAppend(tl, x, procs[ci].pid);
    forall i | 0 <= i < |procs| ensures ProcOkAt(procs, prog', tl', idx, i) {
      assert ProcOkAt(procs, prog, tl, idx, i);
      if i == ci {
        assert ProcOk(procs[ci], prog'[ci], tl', true);
      } else {
        ProcOkAppend(procs[i], prog[i], tl, x, i < idx);
      }
    }
    CompletedUpdate(prog, ci, Ticked(prog[ci], clock));
  }

  /** Updating the running process's record keeps the ready queue's membership; once the
      record says complete, no process is running. */
  lemma RanKeepsReady(procs: seq<Process>, pos: map<string, nat>, prog: seq<Progress>, prog': seq<Progress>,
                      live: map<string, Heap.LiveEntry<Process>>, g: Progress, idx: int, ci: int, nci: int)
    requires ReadyOk(procs, pos, prog, live, idx, ci) && 0 <= ci < |prog| && prog' == prog[ci := g]
    requires nci == if g.completionTime.Some? then -1 else ci
    ensures ReadyOk(procs, pos, prog', live, idx, nci)
  {
  }

  /** Decrementing `remaining` and then, once nothing remains, setting the completion time
      is `Ticked`. */
  lemma TickedInPlace(prog: seq<Progress>, prog1: seq<Progress>, prog': seq<Progress>, ci: int, v: int, clock: int)
    requires 0 <= ci < |prog| && v == prog[ci].remaining - 1 && prog1 == prog[ci := prog[ci].(remaining := v)]
    requires prog' == if v <= 0 then prog1[ci := prog1[ci].(completionTime := Some(clock + 1))] else prog1
    ensures prog' == prog[ci := Ticked(prog[ci], clock)]
  {
    assert prog'[ci] == Ticked(prog[ci], clock);
  }

  /** The least ready entry, the running process put back under a strictly worse effective
      priority and nothing running: the entry stays least and the invariant holds. */
  lemma RequeueKeeps(procs: seq<Process>, pos: map<string, nat>, prog: seq<Progress>,
                     live0: map<string, Heap.LiveEntry<Process>>, live: map<string, Heap.LiveEntry<Process>>,
                     top: string, e: Heap.LiveEntry<Process>, clock: int, idx: int, current: Option<Process>, ci: int,
                     tl: seq<Tick>, completed: int)
    requires PidIndex(procs, pos) && 0 <= ci < |procs| && current == Some(procs[ci])
    requires State(procs, pos, prog, clock, idx, current, ci, tl, completed)
    requires ReadyOk(procs, pos, prog, live0, idx, ci) && Heap.IsLeast(live0, top)
    requires e.item == procs[ci] && live == live0[procs[ci].pid := e] && live0[top].priority.0 < e.priority.0
    ensures State(procs, pos, prog, clock, idx, None, -1, tl, completed)
    ensures ReadyOk(procs, pos, prog, live, idx, -1)
    ensures Heap.IsLeast(live, top) && top != procs[ci].pid && live[top] == live0[top]
  {
    assert pos[procs[ci].pid] == ci;
    forall i | 0 <= i < |procs| ensures ProcOkAt(procs, prog, tl, idx, i) {
      assert ProcOkAt(procs, prog, tl, idx, i);
    }
    RequeueKeepsReady(procs, pos, prog, live0, live, idx, ci);
  }

  /** The ready queue's membership depends only on which processes are complete. */
  lemma ReadyOkFrame(procs: seq<Process>, pos: map<string, nat>, prog: seq<Progress>, prog': seq<Progress>,
                     live: map<string, Heap.LiveEntry<Process>>, idx: int, ci: int)
    requires ReadyOk(procs, pos, prog, live, idx, ci) && |prog'| == |prog|
    requires forall j :: 0 <= j < |prog| ==> prog'[j].completionTime == prog[j].completionTime
    ensures ReadyOk(procs, pos, prog', live, idx, ci)
  {
  }

  /** `last_enqueued` only feeds priorities: changing it keeps the invariant's pure parts. */
  lemma LastEnqueuedIrrelevant(procs: seq<Process>, pos: map<string, nat>, prog: seq<Progress>, prog': seq<Progress>,
                               live: map<string, Heap.LiveEntry<Process>>, i: int, v: int,
                               clock: int, idx: int, current: Option<Process>, ci: int, tl: seq<Tick>, completed: int)
    requires 0 <= i < |prog| && prog' == prog[i := prog[i].(lastEnqueued := v)]
    requires State(procs, pos, prog, clock, idx, current, ci, tl, completed)
    requires ReadyOk(procs, pos, prog, live, idx, ci)
    ensures State(procs, pos, prog', clock, idx, current, ci, tl, completed)
    ensures ReadyOk(procs, pos, prog', live, idx, ci)
    ensures Work(prog') == Work(prog)
  {
    LastEnqueuedKeepsState(procs, pos, prog, prog', i, v, clock, idx, current, ci, tl, completed);
    ReadyOkFrame(procs, pos, prog, prog', live, idx, ci);
    WorkUpdate(prog, i, prog[i].(lastEnqueued := v));
  }

  lemma LastEnqueuedKeepsState(procs: seq<Process>, pos: map<string, nat>, prog: seq<Progress>, prog': seq<Progress>,
                               i: int, v: int,
                               clock: int, idx: int, current: Option<Process>, ci: int, tl: seq<Tick>, completed: int)
    requires 0 <= i < |prog| && prog' == prog[i := prog[i].(lastEnqueued := v)]
    requires State(procs, pos, prog, clock, idx, current, ci, tl, completed)
    ensures State(procs, pos, prog', clock, idx, current, ci, tl, completed)
  {
    forall j | 0 <= j < |procs| ensures ProcOkAt(procs, prog', tl, idx, j) {
      assert ProcOkAt(procs, prog, tl, idx, j);
    }
    CompletedUpdate(prog, i, prog[i].(lastEnqueued := v));
  }

  // ---------------------------------------------------------------------------
  // The ready-queue and process-record operations of the loop, each stating what the
  // loop invariant needs about the state it leaves alone

  /** `ready.insert(p.pid, p, priority)`. */
  method Enqueue(ready: Heap.BinaryHeap<Process>, p: Process, priority: Heap.Priority,
                 ghost procs: seq<Process>, ghost prog: seq<Progress>)
    requires ready.Valid() && Linked(procs, prog)
    modifies ready
    ensures ready.Valid() && Linked(procs, prog) && ready.counter == old(ready.counter) + 1
    ensures ready.Contents == old(ready.Contents)[p.pid := Heap.LiveEntry(priority, old(ready.counter), p)]
  {
    ready.Insert(p.pid, p, priority);
  }

  /** `ready.extract_min()` on a non-empty queue. */
  method Dequeue(ready: Heap.BinaryHeap<Process>, ghost procs: seq<Process>, ghost prog: seq<Progress>)
    returns (p: Process, ghost key: string)
    requires ready.Valid() && Linked(procs, prog) && ready.Contents != map[]
    modifies ready
    ensures ready.Valid() && Linked(procs, prog) && ready.counter == old(ready.counter)
    ensures Heap.IsLeast(old(ready.Contents), key) && p == old(ready.Contents)[key].item
    ensures ready.Contents == old(ready.Contents) - {key}
  {
    var r;
    r, key := ready.ExtractMin();
    p := r.value;
  }

  /** `ready.peek_min_priority()` on a non-empty queue. */
  method PeekPriority(ready: Heap.BinaryHeap<Process>, ghost procs: seq<Process>, ghost prog: seq<Progress>)
    returns (priority: Heap.Priority, ghost key: string)
    requires ready.Valid() && Linked(procs, prog) && ready.Contents != map[]
    modifies ready
    ensures ready.Valid() && Linked(procs, prog) && ready.counter == old(ready.counter)
    ensures ready.Contents == old(ready.Contents)
    ensures Heap.IsLeast(ready.Contents, key) && priority == ready.Contents[key].priority
  {
    var r;
    r, key := ready.PeekMinPriority();
    priority := r.value;
  }

  /** `p.last_enqueued = v`, where `p` is `procs[i]`. */
  method SetLastEnqueued(p: Process, v: int, ghost procs: seq<Process>, ghost prog: seq<Progress>,
                         ghost pos: map<string, nat>, ghost i: int, ready: Heap.BinaryHeap<Process>)
    returns (ghost prog': seq<Progress>)
    requires ready.Valid() && Linked(procs, prog) && PidIndex(procs, pos) && 0 <= i < |procs| && procs[i] == p
    modifies p`lastEnqueued
    ensures p.lastEnqueued == v && prog' == prog[i := prog[i].(lastEnqueued := v)]
    ensures ready.Valid() && Linked(procs, prog') && ready.Contents == old(ready.Contents) && ready.counter == old(ready.counter)
  {
    p.lastEnqueued := v;
    prog' := prog[i := prog[i].(lastEnqueued := v)];
  }

  /** `if p.start_time is None: p.start_time = clock`, where `p` is `procs[i]`. */
  method StartIfFirst(p: Process, clock: int, ghost procs: seq<Process>, ghost prog: seq<Progress>,
                      ghost pos: map<string, nat>, ghost i: int, ready: Heap.BinaryHeap<Process>)
    returns (ghost prog': seq<Progress>)
    requires ready.Valid() && Linked(procs, prog) && PidIndex(procs, pos) && 0 <= i < |procs| && procs[i] == p
    modifies p`startTime
    ensures prog' == prog[i := Started(prog[i], clock)]
    ensures ready.Valid() && Linked(procs, prog') && ready.Contents == old(ready.Contents) && ready.counter == old(ready.counter)
  {
    if p.startTime.None? {
      p.startTime := Some(clock);
    }
    prog' := prog[i := Started(prog[i], clock)];
  }

  /** `p.remaining = v`, where `p` is `procs[i]`. */
  method SetRemaining(p: Process, v: int, ghost procs: seq<Process>, ghost prog: seq<Progress>,
                      ghost pos: map<string, nat>, ghost i: int, ready: Heap.BinaryHeap<Process>)
    returns (ghost prog': seq<Progress>)
    requires ready.Valid() && Linked(procs, prog) && PidIndex(procs, pos) && 0 <= i < |procs| && procs[i] == p
    modifies p`remaining
    ensures p.remaining == v && prog' == prog[i := prog[i].(remaining := v)]
    ensures ready.Valid() && Linked(procs, prog') && ready.Contents == old(ready.Contents) && ready.counter == old(ready.counter)
  {
    p.remaining := v;
    prog' := prog[i := prog[i].(remaining := v)];
  }

  /** `p.completion_time = v`, where `p` is `procs[i]`. */
  method SetCompletionTime(p: Process, v: int, ghost procs: seq<Process>, ghost prog: seq<Progress>,
                           ghost pos: map<string, nat>, ghost i: int, ready: Heap.BinaryHeap<Process>)
    returns (ghost prog': seq<Progress>)
    requires ready.Valid() && Linked(procs, prog) && PidIndex(procs, pos) && 0 <= i < |procs| && procs[i] == p
    modifies p`completionTime
    ensures p.completionTime == Some(v) && prog' == prog[i := prog[i].(completionTime := Some(v))]
    ensures ready.Valid() && Linked(procs, prog') && ready.Contents == old(ready.Contents) && ready.counter == old(ready.counter)
  {
    p.completionTime := Some(v);
    prog' := prog[i := prog[i].(completionTime := Some(v))];
  }

  // ---------------------------------------------------------------------------
  // The four steps of one tick

  /** Admits `procs[idx]`, which arrives at `clock`: `last_enqueued = clock` and a ready
      entry with priority `(base_priority, arrival, 0)`. */
  method AdmitOne(procs: seq<Process>, ghost pos: map<string, nat>, ghost prog: seq<Progress>, ready: Heap.BinaryHeap<Process>,
                  clock: int, idx: int, ghost current: Option<Process>, ghost ci: int, ghost tl: seq<Tick>, ghost completed: int)
    returns (next: int, ghost prog': seq<Progress>)
    requires ArrivalSorted(procs) && PidIndex(procs, pos)
    requires Inv(procs, pos, prog, ready, clock, idx, current, ci, tl, completed)
    requires 0 <= idx < |procs| && procs[idx].arrival == clock
    modifies ready, procs`lastEnqueued
    ensures next == idx + 1 && Inv(procs, pos, prog', ready, clock, next, current, ci, tl, completed)
    ensures prog' == prog[idx := prog[idx].(lastEnqueued := clock)] && Work(prog') == Work(prog)
    ensures ready.counter == old(ready.counter) + 1
    ensures ready.Contents ==
      old(ready.Contents)[procs[idx].pid := Heap.LiveEntry((procs[idx].basePriority, procs[idx].arrival, 0), old(ready.counter), procs[idx])]
  {
    var p := procs[idx];
    ghost var live0 := ready.Contents;
    prog' := SetLastEnqueued(p, clock, procs, prog, pos, idx, ready);
    Enqueue(ready, p, (p.basePriority, p.arrival, 0), procs, prog');
    next := idx + 1;
    LastEnqueuedIrrelevant(procs, pos, prog, prog', live0, idx, clock, clock, idx, current, ci, tl, completed);
    AdmitKeepsState(procs, pos, prog', clock, idx, next, current, ci, tl, completed);
    AdmitKeepsReady(procs, pos, prog', live0, ready.Contents, idx, next, ci);
  }

  /** `prog'` is `prog` with `last_enqueued` set to `clock` at the indices in `[lo, hi)`. */
  ghost predicate EnqueuedAt(prog: seq<Progress>, prog': seq<Progress>, lo: int, hi: int, clock: int) {
    |prog'| == |prog| && forall i :: 0 <= i < |prog| ==>
      prog'[i] == if lo <= i < hi then prog[i].(lastEnqueued := clock) else prog[i]
  }

  /** `procs[lo..hi]` arrive at `clock` and are ready under their base priority, with the
      insertion counters from `counter0` on, in intake order. */
  ghost predicate EntersReady(procs: seq<Process>, live: map<string, Heap.LiveEntry<Process>>, lo: int, hi: int,
                              clock: int, counter0: nat)
  {
    forall i :: lo <= i < hi ==>
      && 0 <= i < |procs| && procs[i].arrival == clock && procs[i].pid in live
      && live[procs[i].pid] == Heap.LiveEntry((procs[i].basePriority, procs[i].arrival, 0), counter0 + (i - lo), procs[i])
  }

  /** Every entry of `live0` is still in `live`, unchanged. */
  ghost predicate Kept<T>(live0: map<string, T>, live: map<string, T>) {
    forall k :: k in live0 ==> k in live && live[k] == live0[k]
  }

  /** The ready entries after admitting `procs[lo..hi]` onto `live0`, with counters from
      `counter0` on: the old entries unchanged, and the admitted ones added in intake order. */
  ghost predicate Joined(procs: seq<Process>, live0: map<string, Heap.LiveEntry<Process>>,
                         live: map<string, Heap.LiveEntry<Process>>, lo: int, hi: int, clock: int, counter0: nat)
  {
    EntersReady(procs, live, lo, hi, clock, counter0) && Kept(live0, live)
  }

  /** The keys of `live0` belong to processes before index `lo`. */
  ghost predicate KeysBelow(live0: map<string, Heap.LiveEntry<Process>>, pos: map<string, nat>, lo: int) {
    forall k :: k in live0 ==> k in pos && pos[k] < lo
  }

  /** The effect of admitting `procs[lo..hi]` at `clock`: their `last_enqueued` becomes
      `clock` (`prog` to `prog'`), and the ready entries `live0` gain them in intake order
      under the counters `counter0` to `counter - 1`, the old entries unchanged. */
  ghost predicate Admission(procs: seq<Process>, prog: seq<Progress>, prog': seq<Progress>,
                            live0: map<string, Heap.LiveEntry<Process>>, live: map<string, Heap.LiveEntry<Process>>,
                            counter0: nat, counter: nat, lo: int, hi: int, clock: int)
  {
    && EnqueuedAt(prog, prog', lo, hi, clock)
    && counter == counter0 + (hi - lo)
    && Joined(procs, live0, live, lo, hi, clock, counter0)
  }

  lemma AdmissionStep(procs: seq<Process>, pos: map<string, nat>, prog: seq<Progress>, prog1: seq<Progress>,
                      prog2: seq<Progress>, live0: map<string, Heap.LiveEntry<Process>>,
                      live1: map<string, Heap.LiveEntry<Process>>, live2: map<string, Heap.LiveEntry<Process>>,
                      counter0: nat, counter1: nat, counter2: nat, lo: int, hi: int, clock: int)
    requires PidIndex(procs, pos) && 0 <= lo <= hi < |procs| && hi < |prog1| && procs[hi].arrival == clock
    requires KeysBelow(live0, pos, lo)
    requires Admission(procs, prog, prog1, live0, live1, counter0, counter1, lo, hi, clock)
    requires prog2 == prog1[hi := prog1[hi].(lastEnqueued := clock)] && counter2 == counter1 + 1
    requires live2 == live1[procs[hi].pid :=
      Heap.LiveEntry((procs[hi].basePriority, procs[hi].arrival, 0), counter1, procs[hi])]
    ensures Admission(procs, prog, prog2, live0, live2, counter0, counter2, lo, hi + 1, clock)
  {
    EnqueuedAtStep(prog, prog1, prog2, lo, hi, clock);
    EntersReadyStep(procs, pos, live0, live1, live2, lo, hi, clock, counter0, counter1);
  }

  /** Every ready key belongs to an admitted process. */
  lemma ReadyKeysBelow(procs: seq<Process>, pos: map<string, nat>, prog: seq<Progress>,
                       live: map<string, Heap.LiveEntry<Process>>, idx: int, ci: int)
    requires ReadyOk(procs, pos, prog, live, idx, ci)
    ensures KeysBelow(live, pos, idx)
  {
  }

  lemma EnqueuedAtStep(prog: seq<Progress>, prog1: seq<Progress>, prog2: seq<Progress>, lo: int, hi: int, clock: int)
    requires EnqueuedAt(prog, prog1, lo, hi, clock) && 0 <= lo <= hi < |prog1|
    requires prog2 == prog1[hi := prog1[hi].(lastEnqueued := clock)]
    ensures EnqueuedAt(prog, prog2, lo, hi + 1, clock)
  {
  }

  lemma EntersReadyStep(procs: seq<Process>, pos: map<string, nat>,
                        live0: map<string, Heap.LiveEntry<Process>>,
                        live1: map<string, Heap.LiveEntry<Process>>, live2: map<string, Heap.LiveEntry<Process>>,
                        lo: int, hi: int, clock: int, counter0: nat, counter: nat)
    requires PidIndex(procs, pos) && 0 <= lo <= hi < |procs| && procs[hi].arrival == clock
    requires counter == counter0 + (hi - lo)
    requires KeysBelow(live0, pos, lo) && Joined(procs, live0, live1, lo, hi, clock, counter0)
    requires live2 == live1[procs[hi].pid :=
      Heap.LiveEntry((procs[hi].basePriority, procs[hi].arrival, 0), counter, procs[hi])]
    ensures Joined(procs, live0, live2, lo, hi + 1, clock, counter0)
  {
    forall i | lo <= i < hi ensures procs[i].pid != procs[hi].pid {
      assert pos[procs[i].pid] == i;
    }
    assert procs[hi].pid !in live0 by {
      assert pos[procs[hi].pid] == hi;
    }
  }

  /** One step of admission: `procs[idx]` joins the processes `procs[idx0..idx]` already
      admitted at `clock` onto the ready entries `start`. */
  method AdmitNext(procs: seq<Process>, ghost pos: map<string, nat>, ghost prog: seq<Progress>, ghost prog1: seq<Progress>,
                   ready: Heap.BinaryHeap<Process>, clock: int, ghost idx0: int, idx: int,
                   ghost current: Option<Process>, ghost ci: int, ghost tl: seq<Tick>, ghost completed: int,
                   ghost start: map<string, Heap.LiveEntry<Process>>, ghost counter0: nat)
    returns (next: int, ghost prog2: seq<Progress>)
    requires ArrivalSorted(procs) && PidIndex(procs, pos) && KeysBelow(start, pos, idx0)
    requires 0 <= idx0 <= idx < |procs| && procs[idx].arrival == clock
    requires Inv(procs, pos, prog1, ready, clock, idx, current, ci, tl, completed) && Work(prog1) == Work(prog)
    requires Admission(procs, prog, prog1, start, ready.Contents, counter0, ready.counter, idx0, idx, clock)
    modifies ready, procs`lastEnqueued
    ensures next == idx + 1 && idx0 <= next <= |procs|
    ensures Inv(procs, pos, prog2, ready, clock, next, current, ci, tl, completed) && Work(prog2) == Work(prog)
    ensures Admission(procs, prog, prog2, start, ready.Contents, counter0, ready.counter, idx0, next, clock)
  {
    ghost var live1, counter1 := ready.Contents, ready.counter;
    next, prog2 := AdmitOne(procs, pos, prog1, ready, clock, idx, current, ci, tl, completed);
    AdmissionStep(procs, pos, prog, prog1, prog2, start, live1, ready.Contents, counter0, counter1, ready.counter, idx0, idx, clock);
  }

  /** Admission: every process arriving at `clock` gets `last_enqueued = clock` and joins the
      ready queue with priority `(base_priority, arrival, 0)`. */
  method Admit(procs: seq<Process>, ghost pos: map<string, nat>, ghost prog: seq<Progress>, ready: Heap.BinaryHeap<Process>,
               clock: int, idx0: int, ghost current: Option<Process>, ghost ci: int, ghost tl: seq<Tick>, ghost completed: int)
    returns (idx: int, ghost prog': seq<Progress>)
    requires ArrivalSorted(procs) && PidIndex(procs, pos)
    requires Inv(procs, pos, prog, ready, clock, idx0, current, ci, tl, completed)
    modifies ready, procs`lastEnqueued
    ensures Inv(procs, pos, prog', ready, clock, idx, current, ci, tl, completed)
    ensures Admitted(procs, idx, clock) && idx0 <= idx && Work(prog') == Work(prog)
    ensures Admission(procs, prog, prog', old(ready.Contents), ready.Contents, old(ready.counter), ready.counter, idx0, idx, clock)
  {
    idx, prog' := idx0, prog;
    ghost var start, counter0 := ready.Contents, ready.counter;
    ReadyKeysBelow(procs, pos, prog, start, idx0, ci);
    while idx < |procs| && procs[idx].arrival == clock
      invariant idx0 <= idx <= |procs|
      invariant Inv(procs, pos, prog', ready, clock, idx, current, ci, tl, completed)
      invariant Work(prog') == Work(prog)
      invariant Admission(procs, prog, prog', start, ready.Contents, counter0, ready.counter, idx0, idx, clock)
      decreases |procs| - idx
    {
      idx, prog' := AdmitNext(procs, pos, prog, prog', ready, clock, idx0, idx, current, ci, tl, completed, start, counter0);
    }
  }

  /** Dispatch: with nothing running and a non-empty ready queue, the least ready process
      becomes the running one; its start time is set on its first dispatch. */
  method Dispatch(procs: seq<Process>, ghost pos: map<string, nat>, ghost prog: seq<Progress>, ready: Heap.BinaryHeap<Process>,
                  clock: int, ghost idx: int, current: Option<Process>, ghost ci: int, ghost tl: seq<Tick>, ghost completed: int)
    returns (next: Option<Process>, ghost nci: int, ghost prog': seq<Progress>)
    requires ArrivalSorted(procs) && PidIndex(procs, pos)
    requires Inv(procs, pos, prog, ready, clock, idx, current, ci, tl, completed)
    modifies ready, procs`startTime
    ensures Inv(procs, pos, prog', ready, clock, idx, next, nci, tl, completed) && Work(prog') == Work(prog)
    ensures next.None? <==> current.None? && old(ready.Contents) == map[]
    ensures ready.counter == old(ready.counter)
    ensures current.Some? || old(ready.Contents) == map[] ==>
      next == current && prog' == prog && ready.Contents == old(ready.Contents)
    ensures current.None? && old(ready.Contents) != map[] ==>
      && next.Some? && Heap.IsLeast(old(ready.Contents), next.value.pid)
      && next.value == old(ready.Contents)[next.value.pid].item
      && ready.Contents == old(ready.Contents) - {next.value.pid}
      && prog' == prog[nci := Started(prog[nci], clock)]
  {
    next, nci, prog' := current, ci, prog;
    if current.None? && !ready.IsEmpty() {
      ghost var live := ready.Contents;
      var p, key := Dequeue(ready, procs, prog);
      nci := pos[key];
      prog' := StartIfFirst(p, clock, procs, prog, pos, nci, ready);
      next := Some(p);
      DispatchKeeps(procs, pos, prog, prog', live, key, next, nci, clock, idx, tl, completed);
    }
  }

  /** The head refresh: the least ready process is taken out and put back under its
      effective priority at `clock`. */
  method RefreshHead(agingInterval: int, procs: seq<Process>, ghost pos: map<string, nat>, ghost prog: seq<Progress>,
                     ready: Heap.BinaryHeap<Process>, clock: int, ghost idx: int, ghost current: Option<Process>, ghost ci: int,
                     ghost tl: seq<Tick>, ghost completed: int)
    returns (ghost cand: string)
    requires agingInterval > 0 && PidIndex(procs, pos)
    requires Inv(procs, pos, prog, ready, clock, idx, current, ci, tl, completed) && ready.Contents != map[]
    modifies ready
    ensures Inv(procs, pos, prog, ready, clock, idx, current, ci, tl, completed)
    ensures ready.counter == old(ready.counter) + 1
    ensures Heap.IsLeast(old(ready.Contents), cand)
    ensures ready.Contents == old(ready.Contents)[cand :=
      Aged(agingInterval, old(ready.Contents)[cand], old(ready.Contents)[cand].item.lastEnqueued, clock, old(ready.counter))]
  {
    ghost var live0, counter0 := ready.Contents, ready.counter;
    var c, key := Dequeue(ready, procs, prog);
    var candEff := EffPriority(agingInterval, c.basePriority, c.lastEnqueued, clock);
    Enqueue(ready, c, (candEff, c.arrival, 0), procs, prog);
    cand := key;
    RefreshKeepsReady(procs, pos, prog, live0, ready.Contents, key, Aged(agingInterval, live0[key], c.lastEnqueued, clock, counter0), idx, ci);
  }

  /** The preemption itself: the running process rejoins the ready queue with priority
      `(curEff, arrival, 0)` and `last_enqueued = clock`, and the least ready process `top`
      is taken out and runs, its start time set on its first dispatch. */
  method Preempt(procs: seq<Process>, ghost pos: map<string, nat>, ghost prog: seq<Progress>,
                 ready: Heap.BinaryHeap<Process>, clock: int, ghost idx: int, current: Option<Process>, ghost ci: int,
                 ghost tl: seq<Tick>, ghost completed: int, ghost top: string, curEff: int)
    returns (next: Option<Process>, ghost nci: int, ghost prog': seq<Progress>)
    requires ArrivalSorted(procs) && PidIndex(procs, pos)
    requires Inv(procs, pos, prog, ready, clock, idx, current, ci, tl, completed) && current.Some?
    requires Heap.IsLeast(ready.Contents, top) && ready.Contents[top].priority.0 < curEff
    modifies ready, procs`lastEnqueued, procs`startTime
    ensures Inv(procs, pos, prog', ready, clock, idx, next, nci, tl, completed) && Work(prog') == Work(prog)
    ensures ready.counter == old(ready.counter) + 1
    ensures next.Some? && next.value.pid == top && next.value == old(ready.Contents)[top].item && next.value != current.value
    ensures current.value.lastEnqueued == clock
    ensures ready.Contents ==
      old(ready.Contents)[current.value.pid := Heap.LiveEntry((curEff, current.value.arrival, 0), old(ready.counter), current.value)] - {top}
    ensures 0 <= nci < |prog| && nci != ci
    ensures prog' == prog[ci := prog[ci].(lastEnqueued := clock)][nci := Started(prog[nci], clock)]
  {
    var cur := current.value;
    assert cur == procs[ci];
    ghost var live0 := ready.Contents;
    ghost var prog1 := SetLastEnqueued(cur, clock, procs, prog, pos, ci, ready);
    LastEnqueuedIrrelevant(procs, pos, prog, prog1, live0, ci, clock, clock, idx, current, ci, tl, completed);
    ghost var e := Heap.LiveEntry((curEff, cur.arrival, 0), ready.counter, cur);
    Enqueue(ready, cur, (curEff, cur.arrival, 0), procs, prog1);
    ghost var live1 := ready.Contents;
    RequeueKeeps(procs, pos, prog1, live0, live1, top, e, clock, idx, current, ci, tl, completed);
    var p, key := Dequeue(ready, procs, prog1);
    Heap.LeastIsUnique(live1, key, top);
    nci := pos[key];
    prog' := StartIfFirst(p, clock, procs, prog1, pos, nci, ready);
    next := Some(p);
    DispatchKeeps(procs, pos, prog1, prog', live1, key, next, nci, clock, idx, tl, completed);
  }

  /** The preemption decision after the refresh: the running process yields when the least
      ready priority is strictly better than its own effective priority. */
  method PreemptIfBetter(agingInterval: int, procs: seq<Process>, ghost pos: map<string, nat>, ghost prog: seq<Progress>,
                         ready: Heap.BinaryHeap<Process>, clock: int, ghost idx: int, current: Option<Process>, ghost ci: int,
                         ghost tl: seq<Tick>, ghost completed: int)
    returns (next: Option<Process>, ghost nci: int, ghost prog': seq<Progress>, ghost preempted: bool, ghost top: string, ghost curEff: int)
    requires agingInterval > 0 && ArrivalSorted(procs) && PidIndex(procs, pos)
    requires Inv(procs, pos, prog, ready, clock, idx, current, ci, tl, completed)
    requires current.Some? && ready.Contents != map[]
    modifies ready, procs`lastEnqueued, procs`startTime
    ensures Inv(procs, pos, prog', ready, clock, idx, next, nci, tl, completed) && Work(prog') == Work(prog)
    ensures curEff == EffPriority(agingInterval, current.value.basePriority, old(current.value.lastEnqueued), clock)
    ensures Heap.IsLeast(old(ready.Contents), top)
    ensures preempted <==> old(ready.Contents)[top].priority.0 < curEff
    ensures ready.counter == old(ready.counter) + (if preempted then 1 else 0)
    ensures !preempted ==> next == current && prog' == prog && ready.Contents == old(ready.Contents)
    ensures preempted ==>
      && next.Some? && next.value.pid == top && next.value == old(ready.Contents)[top].item && next.value != current.value
      && current.value.lastEnqueued == clock
      && ready.Contents == old(ready.Contents)[current.value.pid := Heap.LiveEntry((curEff, current.value.arrival, 0), old(ready.counter), current.value)] - {top}
      && 0 <= nci < |prog| && nci != ci
      && prog' == prog[ci := prog[ci].(lastEnqueued := clock)][nci := Started(prog[nci], clock)]
  {
    var cur := current.value;
    var ce := EffPriority(agingInterval, cur.basePriority, cur.lastEnqueued, clock);
    curEff := ce;
    var topPriority, t := PeekPriority(ready, procs, prog);
    top := t;
    next, nci, prog', preempted := current, ci, prog, false;
    if topPriority.0 < ce {
      next, nci, prog' := Preempt(procs, pos, prog, ready, clock, idx, current, ci, tl, completed, top, ce);
      preempted := true;
    }
  }

  /** The preemption check: when a process runs and another is ready, the head is
      refreshed and the running process yields to a strictly better effective priority. */
  method PreemptionCheck(agingInterval: int, procs: seq<Process>, ghost pos: map<string, nat>, ghost prog: seq<Progress>,
                         ready: Heap.BinaryHeap<Process>, clock: int, ghost idx: int, current: Option<Process>, ghost ci: int,
                         ghost tl: seq<Tick>, ghost completed: int)
    returns (next: Option<Process>, ghost nci: int, ghost prog': seq<Progress>, ghost preempted: bool,
             ghost cand: string, ghost refreshed: map<string, Heap.LiveEntry<Process>>, ghost top: string, ghost curEff: int)
    requires agingInterval > 0 && ArrivalSorted(procs) && PidIndex(procs, pos)
    requires Inv(procs, pos, prog, ready, clock, idx, current, ci, tl, completed)
    modifies ready, procs`lastEnqueued, procs`startTime
    ensures Inv(procs, pos, prog', ready, clock, idx, next, nci, tl, completed) && Work(prog') == Work(prog)
    ensures next.None? <==> current.None?
    ensures current.None? || old(ready.Contents) == map[] ==>
      !preempted && next == current && prog' == prog && ready.Contents == old(ready.Contents)
    ensures current.Some? && old(ready.Contents) != map[] ==>
      && Heap.IsLeast(old(ready.Contents), cand)
      && refreshed == old(ready.Contents)[cand :=
           Aged(agingInterval, old(ready.Contents)[cand], old(ready.Contents[cand].item.lastEnqueued), clock, old(ready.counter))]
      && Heap.IsLeast(refreshed, top)
      && curEff == EffPriority(agingInterval, current.value.basePriority, old(current.value.lastEnqueued), clock)
      && (preempted <==> refreshed[top].priority.0 < curEff)
      && (!preempted ==> next == current && prog' == prog && ready.Contents == refreshed)
      && (preempted ==>
            && next.Some? && next.value.pid == top && next.value == refreshed[top].item && next.value != current.value
            && current.value.lastEnqueued == clock
            && ready.Contents == refreshed[current.value.pid :=
                 Heap.LiveEntry((curEff, current.value.arrival, 0), old(ready.counter) + 1, current.value)] - {top}
            && 0 <= nci < |prog| && nci != ci
            && prog' == prog[ci := prog[ci].(lastEnqueued := clock)][nci := Started(prog[nci], clock)])
    ensures ready.counter == old(ready.counter) + (if current.None? || old(ready.Contents) == map[] then 0
                                                   else if preempted then 2 else 1)
  {
    next, nci, prog', preempted := current, ci, prog, false;
    cand, refreshed, top, curEff := "", ready.Contents, "", 0;
    if current.Some? && !ready.IsEmpty() {
      cand := RefreshHead(agingInterval, procs, pos, prog, ready, clock, idx, current, ci, tl, completed);
      assert current.value.lastEnqueued == old(current.value.lastEnqueued);
      refreshed := ready.Contents;
      next, nci, prog', preempted, top, curEff := PreemptIfBetter(agingInterval, procs, pos, prog, ready, clock, idx, current, ci, tl, completed);
    }
  }

  /** Executes one tick: an idle tick when nothing runs; otherwise the running process
      runs, loses one tick of `remaining`, and completes at `clock + 1` once nothing
      remains. Either way the clock advances. */
  method ExecuteTick(procs: seq<Process>, ghost pos: map<string, nat>, ghost prog: seq<Progress>, ready: Heap.BinaryHeap<Process>,
                     clock: int, ghost idx: int, current: Option<Process>, ghost ci: int, timeline: seq<Tick>, completed: int)
    returns (clock': int, next: Option<Process>, ghost nci: int, ghost prog': seq<Progress>, timeline': seq<Tick>, completed': int)
    requires PidIndex(procs, pos) && Admitted(procs, idx, clock)
    requires Inv(procs, pos, prog, ready, clock, idx, current, ci, timeline, completed)
    requires current.None? ==> ready.Contents == map[]
    modifies procs`remaining, procs`completionTime
    ensures clock' == clock + 1 && Inv(procs, pos, prog', ready, clock', idx, next, nci, timeline', completed')
    ensures current.None? ==> timeline' == timeline + [Idle] && next.None? && prog' == prog && completed' == completed
    ensures current.Some? ==>
      && timeline' == timeline + [Ran(current.value.pid)]
      && current.value.remaining == old(current.value.remaining) - 1
      && prog' == prog[ci := Ticked(prog[ci], clock)]
      && (next.None? <==> current.value.remaining <= 0)
      && (next.None? ==> current.value.completionTime == Some(clock + 1) && completed' == completed + 1)
      && (next.Some? ==> next == current && completed' == completed)
      && Work(prog') < Work(prog)
  {
    clock' := clock + 1;
    if current.None? {
      timeline' := timeline + [Idle];
      next, nci, prog', completed' := None, -1, prog, completed;
      IdleKeeps(procs, pos, prog, clock, clock', idx, timeline, timeline', completed);
    } else {
      var p := current.value;
      timeline' := timeline + [Ran(p.pid)];
      ghost var v := p.remaining - 1;
      assert prog[ci].remaining == p.remaining;
      ghost var prog1 := SetRemaining(p, p.remaining - 1, procs, prog, pos, ci, ready);
      next, nci, prog', completed' := current, ci, prog1, completed;
      if p.remaining <= 0 {
        prog' := SetCompletionTime(p, clock + 1, procs, prog1, pos, ci, ready);
        completed' := completed + 1;
        next, nci := None, -1;
      }
      TickedInPlace(prog, prog1, prog', ci, v, clock);
      RanKeeps(procs, pos, prog, prog', ready.Contents, clock, clock', idx, current, ci, next, nci,
               timeline, timeline', completed, completed');
    }
  }

  // ---------------------------------------------------------------------------
  // What a run guarantees about the processes it was given

  /** The pids of `ps`. */
  ghost function Pids(ps: seq<Process>): set<string> {
    set p | p in ps :: p.pid
  }

  /** The pids of the completed processes among `ps`. */
  ghost function CompletedPidsOf(ps: seq<Process>): set<string>
    reads ps
  {
    set p | p in ps && p.completionTime.Some? :: p.pid
  }

  /** Each process's `remaining` is its burst less the ticks it ran; one that has not
      completed and whose burst is positive still has a tick left. */
  ghost predicate TicksAccounted(ps: seq<Process>, tl: seq<Tick>)
    reads ps
  {
    forall p :: p in ps ==>
      && p.remaining == p.burst - Count(tl, p.pid)
      && (p.completionTime.None? && p.burst >= 1 ==> p.remaining >= 1)
  }

  /** A process runs only from its start, which is not before its arrival, up to its
      completion. */
  ghost predicate RunsWithinLifetime(ps: seq<Process>, tl: seq<Tick>)
    reads ps
  {
    forall p, t :: p in ps && 0 <= t < |tl| && tl[t] == Ran(p.pid) ==>
      && p.startTime.Some? && p.arrival <= p.startTime.value <= t
      && (p.completionTime.Some? ==> t < p.completionTime.value)
  }

  /** A completed process ran for its burst (one tick when the burst is not positive),
      all of it between its start and its completion, within the timeline. */
  ghost predicate CompletionsAccounted(ps: seq<Process>, tl: seq<Tick>)
    reads ps
  {
    forall p :: p in ps && p.completionTime.Some? ==>
      && Count(tl, p.pid) == (if p.burst >= 1 then p.burst else 1)
      && p.startTime.Some? && p.arrival <= p.startTime.value
      && p.startTime.value + Count(tl, p.pid) <= p.completionTime.value <= |tl|
  }

  /** The processor idles at tick `t` only when every process that has arrived by `t` has
      completed by then. */
  ghost predicate WorkConserving(ps: seq<Process>, tl: seq<Tick>)
    reads ps
  {
    forall p, t :: p in ps && 0 <= t < |tl| && tl[t] == Idle && p.arrival <= t ==>
      p.completionTime.Some? && p.completionTime.value <= t
  }

  /** The timeline's last tick, if any, is one in which some process completed, unless some
      process is incomplete. */
  ghost predicate EndsAtLastCompletion(ps: seq<Process>, tl: seq<Tick>)
    reads ps
  {
    |tl| > 0 ==> exists p :: p in ps && (p.completionTime.None? || p.completionTime.value == |tl|)
  }

  /** The completion times and the waiting times cover exactly the completed processes, with
      waiting time `completion - arrival - burst`. */
  ghost predicate Statistics(ps: seq<Process>, completionTimes: map<string, int>, waitingTimes: map<string, int>)
    reads ps
  {
    && completionTimes.Keys == CompletedPidsOf(ps)
    && waitingTimes.Keys == completionTimes.Keys
    && (forall p :: p in ps && p.completionTime.Some? ==>
          && p.pid in completionTimes && p.pid in waitingTimes
          && completionTimes[p.pid] == p.completionTime.value
          && waitingTimes[p.pid] == p.completionTime.value - p.arrival - p.burst)
  }

  /** What a run reports about the processes it was given, with timeline `tl`:
      - with `maxTime` the timeline has at most `max(0, maxTime)` ticks, and a process is left
        incomplete only when a `maxTime` stopped the run after exactly that many ticks;
      - the timeline does not run past the last completion: its last tick is the one in which
        some process completed, unless some process is incomplete;
      - every tick that runs a process runs one of those given;
      - the tick accounting of `TicksAccounted`, `RunsWithinLifetime` and
        `CompletionsAccounted`, and, when no arrival is negative, `WorkConserving`;
      - the completion times and the waiting times cover exactly the completed processes,
        with waiting time `completion - arrival - burst`. */
  ghost predicate Reported(processes: seq<Process>, maxTime: Option<int>, tl: seq<Tick>,
                           completionTimes: map<string, int>, waitingTimes: map<string, int>)
    reads processes
  {
    && (maxTime.Some? ==> |tl| <= Max(0, maxTime.value))
    && ((exists p :: p in processes && p.completionTime.None?) ==> maxTime.Some? && |tl| == Max(0, maxTime.value))
    && EndsAtLastCompletion(processes, tl)
    && (forall t :: 0 <= t < |tl| && tl[t].Ran? ==> tl[t].pid in Pids(processes))
    && TicksAccounted(processes, tl) && RunsWithinLifetime(processes, tl) && CompletionsAccounted(processes, tl)
    && ((forall p :: p in processes ==> p.arrival >= 0) ==> WorkConserving(processes, tl))
    && Statistics(processes, completionTimes, waitingTimes)
  }

  /** No reported waiting time is negative: a completed process ran for at least its
      burst after arriving. */
  lemma ReportedWaitingNonNegative(processes: seq<Process>, maxTime: Option<int>, tl: seq<Tick>,
                                   completionTimes: map<string, int>, waitingTimes: map<string, int>)
    requires Reported(processes, maxTime, tl, completionTimes, waitingTimes)
    ensures forall k :: k in waitingTimes ==> waitingTimes[k] >= 0
  {
    forall k | k in waitingTimes ensures waitingTimes[k] >= 0 {
      assert k in CompletedPidsOf(processes);
      var p :| p in processes && p.completionTime.Some? && p.pid == k;
    }
  }

  /** A map of non-negative values has a non-negative sum. */
  lemma {:induction false} MapSumNonNegative(m: map<string, int>)
    requires forall k :: k in m ==> m[k] >= 0
    ensures MapSum(m) >= 0
    decreases |m|
  {
    if m != map[] {
      var k :| k in m;
      MapSumRemove(m, k);
      MapSumNonNegative(m - {k});
    }
  }

  /** Without `maxTime` the run stops at the first tick after the last completion: every
      process completed within the timeline, and one of them in its last tick. */
  lemma ReportedStopsAtLastCompletion(processes: seq<Process>, tl: seq<Tick>,
                                      completionTimes: map<string, int>, waitingTimes: map<string, int>)
    requires Reported(processes, None, tl, completionTimes, waitingTimes)
    ensures forall p :: p in processes ==> p.completionTime.Some? && p.completionTime.value <= |tl|
    ensures |tl| > 0 ==> exists p :: p in processes && p.completionTime == Some(|tl|)
  {
  }

  /** The reported average waiting time is never negative. */
  lemma ReportedAverageNonNegative(processes: seq<Process>, maxTime: Option<int>, tl: seq<Tick>,
                                   completionTimes: map<string, int>, waitingTimes: map<string, int>)
    requires Reported(processes, maxTime, tl, completionTimes, waitingTimes)
    ensures Average(waitingTimes) >= 0.0
  {
    ReportedWaitingNonNegative(processes, maxTime, tl, completionTimes, waitingTimes);
    MapSumNonNegative(waitingTimes);
  }

  /** The loop's knowledge about `procs` and its mirror `prog`, carried over to the same
      processes in the caller's order. */
  lemma RunOutcome(procs: seq<Process>, processes: seq<Process>, pos: map<string, nat>, prog: seq<Progress>,
                   clock: int, idx: int, current: Option<Process>, ci: int, tl: seq<Tick>, completed: int)
    requires multiset(procs) == multiset(processes) && PidIndex(procs, pos) && Linked(procs, prog)
    requires State(procs, pos, prog, clock, idx, current, ci, tl, completed)
    ensures TicksAccounted(processes, tl) && RunsWithinLifetime(processes, tl) && CompletionsAccounted(processes, tl)
    ensures forall t :: 0 <= t < |tl| && tl[t].Ran? ==> tl[t].pid in Pids(processes)
  {
    forall p | p in processes
      ensures p.remaining == p.burst - Count(tl, p.pid)
      ensures p.completionTime.None? && p.burst >= 1 ==> p.remaining >= 1
      ensures p.completionTime.Some? ==>
        && Count(tl, p.pid) == (if p.burst >= 1 then p.burst else 1)
        && p.startTime.Some? && p.arrival <= p.startTime.value
        && p.startTime.value + Count(tl, p.pid) <= p.completionTime.value <= |tl|
    {
      assert p in multiset(procs);
      var i :| 0 <= i < |procs| && procs[i] == p;
      assert ProcOkAt(procs, prog, tl, idx, i);
    }
    forall p, t | p in processes && 0 <= t < |tl| && tl[t] == Ran(p.pid)
      ensures p.startTime.Some? && p.arrival <= p.startTime.value <= t
      ensures p.completionTime.Some? ==> t < p.completionTime.value
    {
      assert p in multiset(procs);
      var i :| 0 <= i < |procs| && procs[i] == p;
      assert ProcOkAt(procs, prog, tl, idx, i);
      if Count(tl, p.pid) == 0 {
        CountZero(tl, p.pid);
      }
    }
    forall t | 0 <= t < |tl| && tl[t].Ran? ensures tl[t].pid in Pids(processes) {
      var q := procs[pos[tl[t].pid]];
      assert q in multiset(processes);
    }
  }

  /** With no negative arrival, an idle tick leaves nothing that has arrived unfinished. */
  lemma IdleOutcome(procs: seq<Process>, processes: seq<Process>, pos: map<string, nat>, prog: seq<Progress>,
                    clock: int, idx: int, current: Option<Process>, ci: int, tl: seq<Tick>, completed: int)
    requires multiset(procs) == multiset(processes) && ArrivalSorted(procs) && PidIndex(procs, pos) && Linked(procs, prog)
    requires State(procs, pos, prog, clock, idx, current, ci, tl, completed)
    requires forall p :: p in processes ==> p.arrival >= 0
    ensures WorkConserving(processes, tl)
  {
    forall p, t | p in processes && 0 <= t < |tl| && tl[t] == Idle && p.arrival <= t
      ensures p.completionTime.Some? && p.completionTime.value <= t
    {
      assert p in multiset(procs);
      var i :| 0 <= i < |procs| && procs[i] == p;
      assert ProcOkAt(procs, prog, tl, idx, i);
      if idx < |procs| {
        assert procs[idx] in multiset(processes);
      }
    }
  }

  /** Once the completion count reaches the number of processes, every process given has
      completed. */
  lemma AllDone(procs: seq<Process>, processes: seq<Process>, prog: seq<Progress>)
    requires multiset(procs) == multiset(processes) && Linked(procs, prog) && Completed(prog) == |procs|
    ensures forall p :: p in processes ==> p.completionTime.Some?
  {
    AllCompleted(prog);
    forall p | p in processes ensures p.completionTime.Some? {
      assert p in multiset(procs);
      var i :| 0 <= i < |procs| && procs[i] == p;
      assert prog[i] == ProgressOf(procs[i]);
    }
  }

  /** The statistics pass over `procs` describes the same processes as `processes`. */
  lemma StatisticsOutcome(procs: seq<Process>, processes: seq<Process>,
                          completionTimes: map<string, int>, waitingTimes: map<string, int>)
    requires multiset(procs) == multiset(processes) && Collected(procs, completionTimes, waitingTimes)
    ensures completionTimes.Keys == CompletedPidsOf(processes)
    ensures forall p :: p in processes && p.completionTime.Some? ==>
      && p.pid in completionTimes && p.pid in waitingTimes
      && completionTimes[p.pid] == p.completionTime.value
      && waitingTimes[p.pid] == p.completionTime.value - p.arrival - p.burst
  {
    forall p | p in processes ensures p in procs {
      assert p in multiset(procs);
    }
    forall p | p in procs ensures p in processes {
      assert p in multiset(processes);
    }
  }

  /** The state before the first tick: nothing admitted, run or completed. */
  lemma StartKeeps(procs: seq<Process>, pos: map<string, nat>, prog: seq<Progress>)
    requires Linked(procs, prog) && forall i :: 0 <= i < |procs| ==> Fresh(procs[i])
    ensures State(procs, pos, prog, 0, 0, None, -1, [], 0)
    ensures ReadyOk(procs, pos, prog, map[], 0, -1)
  {
    forall i | 0 <= i < |procs| ensures ProcOkAt(procs, prog, [], 0, i) && prog[i].completionTime.None? {
    }
    NoneCompleted(prog);
  }

  /** Admission, dispatch and the preemption check of the tick at `clock`; afterwards
      nothing runs only when nothing is ready. */
  method PrepareTick(agingInterval: int, procs: seq<Process>, ghost pos: map<string, nat>, ghost prog: seq<Progress>,
                     ready: Heap.BinaryHeap<Process>, clock: int, idx0: int, current0: Option<Process>, ghost ci0: int,
                     ghost tl: seq<Tick>, ghost completed: int)
    returns (idx: int, current: Option<Process>, ghost ci: int, ghost prog': seq<Progress>)
    requires agingInterval > 0 && ArrivalSorted(procs) && PidIndex(procs, pos)
    requires Inv(procs, pos, prog, ready, clock, idx0, current0, ci0, tl, completed)
    modifies ready, procs`lastEnqueued, procs`startTime
    ensures Inv(procs, pos, prog', ready, clock, idx, current, ci, tl, completed)
    ensures Admitted(procs, idx, clock) && Work(prog') == Work(prog)
    ensures current.None? ==> ready.Contents == map[]
  {
    ghost var prog1, prog2;
    idx, prog1 := Admit(procs, pos, prog, ready, clock, idx0, current0, ci0, tl, completed);
    current, ci, prog2 := Dispatch(procs, pos, prog1, ready, clock, idx, current0, ci0, tl, completed);
    ghost var preempted, cand, refreshed, top, curEff;
    current, ci, prog', preempted, cand, refreshed, top, curEff :=
      PreemptionCheck(agingInterval, procs, pos, prog2, ready, clock, idx, current, ci, tl, completed);
  }

  /** One iteration of the tick loop while some process is incomplete: the tick at `clock`
      keeps the invariant, does not pass the last completion, and lessens the outstanding
      work or, without `maxTime`, happens before the last arrival. */
  method Step(agingInterval: int, procs: seq<Process>, ghost pos: map<string, nat>, ghost prog: seq<Progress>,
              ready: Heap.BinaryHeap<Process>, clock: int, idx0: int, current0: Option<Process>, ghost ci0: int,
              timeline: seq<Tick>, completed: int, maxTime: Option<int>)
    returns (clock': int, idx: int, current: Option<Process>, timeline': seq<Tick>, completed': int,
             ghost ci: int, ghost prog': seq<Progress>)
    requires agingInterval > 0 && ArrivalSorted(procs) && PidIndex(procs, pos)
    requires Inv(procs, pos, prog, ready, clock, idx0, current0, ci0, timeline, completed) && completed < |procs|
    requires maxTime.None? ==> forall i :: 0 <= i < |procs| ==> procs[i].arrival >= 0
    modifies ready, procs`remaining, procs`lastEnqueued, procs`startTime, procs`completionTime
    ensures clock' == clock + 1 && Inv(procs, pos, prog', ready, clock', idx, current, ci, timeline', completed')
    ensures NotPastLast(prog', clock')
    ensures Work(prog') < Work(prog) || (Work(prog') == Work(prog) && (maxTime.None? ==> clock < procs[|procs| - 1].arrival))
  {
    ghost var prog1;
    idx, current, ci, prog1 := PrepareTick(agingInterval, procs, pos, prog, ready, clock, idx0, current0, ci0, timeline, completed);
    if current.None? && maxTime.None? {
      IdleBeforeLastArrival(procs, pos, prog1, clock, idx, timeline, completed);
    }
    ghost var k := SomeIncomplete(prog1);
    ghost var ci1 := ci;
    clock', current, ci, prog', timeline', completed' := ExecuteTick(procs, pos, prog1, ready, clock, idx, current, ci, timeline, completed);
    NotPastLastStep(prog1, prog', k, ci1, clock);
  }

  /** The tick loop of `run`: it stops once every process has completed, or when the clock
      reaches `maxTime`. */
  method TickLoop(agingInterval: int, procs: seq<Process>, ghost pos: map<string, nat>, ghost prog0: seq<Progress>,
                  ready: Heap.BinaryHeap<Process>, maxTime: Option<int>)
    returns (clock: int, idx: int, current: Option<Process>, timeline: seq<Tick>, completed: int,
             ghost ci: int, ghost prog: seq<Progress>)
    requires agingInterval > 0 && |procs| > 0 && ArrivalSorted(procs) && PidIndex(procs, pos)
    requires Inv(procs, pos, prog0, ready, 0, 0, None, -1, [], 0)
    requires maxTime.None? ==> forall i :: 0 <= i < |procs| ==> procs[i].arrival >= 0
    modifies ready, procs`remaining, procs`lastEnqueued, procs`startTime, procs`completionTime
    ensures Inv(procs, pos, prog, ready, clock, idx, current, ci, timeline, completed)
    ensures maxTime.Some? ==> clock <= Max(0, maxTime.value)
    ensures completed == |procs| || (maxTime.Some? && clock == Max(0, maxTime.value))
    ensures NotPastLast(prog, clock)
  {
    clock, idx, current, timeline, completed := 0, 0, None, [], 0;
    ci, prog := -1, prog0;
    ghost var last := procs[|procs| - 1].arrival;
    while completed < |procs|
      invariant Inv(procs, pos, prog, ready, clock, idx, current, ci, timeline, completed)
      invariant maxTime.Some? ==> clock <= Max(0, maxTime.value)
      invariant NotPastLast(prog, clock)
      decreases (if maxTime.Some? then maxTime.value - clock else 0), Work(prog), (if clock < last then last - clock else 0)
    {
      if maxTime.Some? && clock >= maxTime.value {
        break;
      }
      clock, idx, current, timeline, completed, ci, prog :=
        Step(agingInterval, procs, pos, prog, ready, clock, idx, current, ci, timeline, completed, maxTime);
    }
  }

  /** Sorting for intake keeps the processes and puts them in arrival order. */
  lemma IntakeOrder(processes: seq<Process>, procs: seq<Process>)
    requires procs == SortForIntake(processes) && DistinctPids(processes)
    ensures multiset(procs) == multiset(processes) && (forall p :: p in procs <==> p in processes)
    ensures forall i :: 0 <= i < |procs| ==> procs[i] in processes
    ensures |procs| == |processes| && DistinctPids(procs) && ArrivalSorted(procs)
  {
    SortForIntakeCorrect(processes);
    SortKeepsDistinct(processes);
    forall p ensures p in procs <==> p in processes {
      assert p in procs <==> p in multiset(procs);
    }
    assert |procs| == |multiset(procs)|;
  }

  /** The index of each pid among processes with distinct pids. */
  lemma PidIndexOf(procs: seq<Process>) returns (pos: map<string, nat>)
    requires DistinctPids(procs)
    ensures PidIndex(procs, pos)
  {
    pos := map i | 0 <= i < |procs| :: procs[i].pid := i;
  }

  /** The mirror of the processes' managed fields. */
  lemma ProgressOfAll(procs: seq<Process>) returns (prog: seq<Progress>)
    ensures Linked(procs, prog)
  {
    prog := seq(|procs|, i requires 0 <= i < |procs| reads procs => ProgressOf(procs[i]));
  }

  /** The intake: the processes sorted into intake order, an empty ready queue and
      nothing admitted, run or completed. */
  method Intake(processes: seq<Process>) returns (procs: seq<Process>, ready: Heap.BinaryHeap<Process>,
                                                  ghost pos: map<string, nat>, ghost prog: seq<Progress>)
    requires |processes| > 0 && DistinctPids(processes) && forall p :: p in processes ==> Fresh(p)
    ensures fresh(ready) && procs == SortForIntake(processes)
    ensures multiset(procs) == multiset(processes) && (forall p :: p in procs <==> p in processes)
    ensures |procs| > 0 && DistinctPids(procs) && ArrivalSorted(procs) && PidIndex(procs, pos)
    ensures Inv(procs, pos, prog, ready, 0, 0, None, -1, [], 0)
  {
    procs := SortForIntake(processes);
    IntakeOrder(processes, procs);
    pos := PidIndexOf(procs);
    prog := ProgressOfAll(procs);
    StartKeeps(procs, pos, prog);
    ready := new Heap.BinaryHeap<Process>();
  }

  /** The loop's last tick, stated about the processes given: some process is incomplete,
      or completed at exactly `clock`. */
  lemma LastTickOutcome(procs: seq<Process>, processes: seq<Process>, prog: seq<Progress>, clock: int)
    requires multiset(procs) == multiset(processes) && Linked(procs, prog)
    requires NotPastLast(prog, clock) && clock != 0
    ensures exists p :: p in processes && (p.completionTime.None? || p.completionTime.value == clock)
  {
    var i :| 0 <= i < |prog| && (prog[i].completionTime.None? || prog[i].completionTime == Some(clock));
    assert prog[i] == ProgressOf(procs[i]);
    assert procs[i] in multiset(processes);
  }

  /** What the loop and the statistics pass leave, stated about the processes given. */
  lemma RunFinish(procs: seq<Process>, processes: seq<Process>, pos: map<string, nat>, prog: seq<Progress>,
                  clock: int, idx: int, current: Option<Process>, ci: int, tl: seq<Tick>, completed: int,
                  completionTimes: map<string, int>, waitingTimes: map<string, int>, maxTime: Option<int>)
    requires multiset(procs) == multiset(processes) && ArrivalSorted(procs) && PidIndex(procs, pos) && Linked(procs, prog)
    requires State(procs, pos, prog, clock, idx, current, ci, tl, completed)
    requires maxTime.Some? ==> clock <= Max(0, maxTime.value)
    requires completed == |procs| || (maxTime.Some? && clock == Max(0, maxTime.value))
    requires NotPastLast(prog, clock)
    requires Collected(procs, completionTimes, waitingTimes)
    ensures Reported(processes, maxTime, tl, completionTimes, waitingTimes)
  {
    if |tl| > 0 {
      LastTickOutcome(procs, processes, prog, clock);
    }
    RunOutcome(procs, processes, pos, prog, clock, idx, current, ci, tl, completed);
    if forall p :: p in processes ==> p.arrival >= 0 {
      IdleOutcome(procs, processes, pos, prog, clock, idx, current, ci, tl, completed);
    }
    if completed == |procs| {
      AllDone(procs, processes, prog);
    }
    StatisticsOutcome(procs, processes, completionTimes, waitingTimes);
  }

  /** The statistics pass after the loop: the completion and waiting times of the completed
      processes. */
  method Report(procs: seq<Process>, processes: seq<Process>, ghost pos: map<string, nat>, ghost prog: seq<Progress>,
                clock: int, idx: int, current: Option<Process>, ghost ci: int,
                tl: seq<Tick>, completed: int, maxTime: Option<int>)
    returns (completionTimes: map<string, int>, waitingTimes: map<string, int>)
    requires multiset(procs) == multiset(processes) && DistinctPids(procs) && ArrivalSorted(procs) && PidIndex(procs, pos)
    requires Linked(procs, prog) && State(procs, pos, prog, clock, idx, current, ci, tl, completed)
    requires maxTime.Some? ==> clock <= Max(0, maxTime.value)
    requires completed == |procs| || (maxTime.Some? && clock == Max(0, maxTime.value))
    requires NotPastLast(prog, clock)
    ensures Reported(processes, maxTime, tl, completionTimes, waitingTimes)
  {
    completionTimes, waitingTimes := CollectStatistics(procs);
    RunFinish(procs, processes, pos, prog, clock, idx, current, ci, tl, completed, completionTimes, waitingTimes, maxTime);
  }

  // ---------------------------------------------------------------------------
  // The scheduler

  /** `run(processes, max_time)`: sorts the processes into intake order and simulates
      one tick at a time (admission, dispatch, the preemption check, execution) until every
      process has completed or the clock reaches `maxTime`; then reports the timeline and
      each completed process's completion and waiting time, with their mean. */
  method Run(sched: PriorityAgingScheduler, processes: seq<Process>, maxTime: Option<int>) returns (r: ScheduleResult)
    requires sched.agingInterval > 0
    requires DistinctPids(processes) && forall p :: p in processes ==> Fresh(p)
    requires maxTime.None? ==> forall p :: p in processes ==> p.arrival >= 0
    modifies set p | p in processes
    ensures processes == [] ==> r == ScheduleResult([], map[], map[], 0.0)
    ensures Reported(processes, maxTime, r.timeline, r.completionTimes, r.waitingTimes)
    ensures r.averageWaitingTime == Average(r.waitingTimes)
  {
    if |processes| == 0 {
      return ScheduleResult([], map[], map[], 0.0);
    }
    var procs, ready, pos, prog := Intake(processes);
    var clock, idx, current, timeline, completed, ci, prog' := TickLoop(sched.agingInterval, procs, pos, prog, ready, maxTime);
    var completionTimes, waitingTimes := Report(procs, processes, pos, prog', clock, idx, current, ci, timeline, completed, maxTime);
    var avg := AverageWaitingTime(waitingTimes);
    r := ScheduleResult(timeline, completionTimes, waitingTimes, avg);
  }
}
