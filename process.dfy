/** The process record the scheduler consumes and updates, and the intake order
    `(arrival, base_priority, pid)` in which it admits processes. The record's own
    definition is not part of this model; its fields are those the scheduler reads
    and writes. */
module Processes {
  import opened Wrappers

  class Process {
    const pid: string
    const arrival: int
    const basePriority: int
    const burst: int
    /** Ticks still to execute; starts at `burst`. */
    var remaining: int
    /** The tick at which the process last entered the ready queue. */
    var lastEnqueued: int
    var startTime: Option<int>
    var completionTime: Option<int>
  }

  /** String order as Python compares `str` values: code point by code point, a proper
      prefix first. */
  predicate StrLe(a: string, b: string)
    decreases |a|
  {
    if |a| == 0 then true
    else if |b| == 0 then false
    else if a[0] != b[0] then a[0] < b[0]
    else StrLe(a[1..], b[1..])
  }

  lemma {:induction false} StrLeTotal(a: string, b: string)
    ensures StrLe(a, b) || StrLe(b, a)
    decreases |a|
  {
    if |a| > 0 && |b| > 0 && a[0] == b[0] {
      StrLeTotal(a[1..], b[1..]);
    }
  }

  lemma {:induction false} StrLeTransitive(a: string, b: string, c: string)
    requires StrLe(a, b) && StrLe(b, c)
    ensures StrLe(a, c)
    decreases |a|
  {
    if |a| > 0 && |b| > 0 && |c| > 0 && a[0] == b[0] && b[0] == c[0] {
      StrLeTransitive(a[1..], b[1..], c[1..]);
    }
  }

  lemma {:induction false} StrLeAntisymmetric(a: string, b: string)
    requires StrLe(a, b) && StrLe(b, a)
    ensures a == b
    decreases |a|
  {
    if |a| > 0 {
      StrLeAntisymmetric(a[1..], b[1..]);
      assert a == [a[0]] + a[1..] && b == [b[0]] + b[1..];
    }
  }

  /** The intake order: by arrival, then base priority, then pid. */
  predicate IntakeLe(p: Process, q: Process) {
    || p.arrival < q.arrival
    || (p.arrival == q.arrival && p.basePriority < q.basePriority)
    || (p.arrival == q.arrival && p.basePriority == q.basePriority && StrLe(p.pid, q.pid))
  }

  lemma IntakeLeTotal(p: Process, q: Process)
    ensures IntakeLe(p, q) || IntakeLe(q, p)
  {
    StrLeTotal(p.pid, q.pid);
  }

  lemma IntakeLeTransitive(p: Process, q: Process, r: Process)
    requires IntakeLe(p, q) && IntakeLe(q, r)
    ensures IntakeLe(p, r)
  {
    if p.arrival == q.arrival == r.arrival && p.basePriority == q.basePriority == r.basePriority {
      StrLeTransitive(p.pid, q.pid, r.pid);
    }
  }

  ghost predicate SortedForIntake(ps: seq<Process>) {
    forall i, j :: 0 <= i < j < |ps| ==> IntakeLe(ps[i], ps[j])
  }

  /** No two processes share a pid. */
  ghost predicate DistinctPids(ps: seq<Process>) {
    forall i, j :: 0 <= i < j < |ps| ==> ps[i].pid != ps[j].pid
  }

  /** Places `p` in front of the first element it does not follow. */
  function InsertForIntake(p: Process, ps: seq<Process>): seq<Process> {
    if ps == [] then [p]
    else if IntakeLe(p, ps[0]) then [p] + ps
    else [ps[0]] + InsertForIntake(p, ps[1..])
  }

  /** The processes in intake order; equal keys keep their input order, as a stable sort does. */
  function SortForIntake(ps: seq<Process>): seq<Process> {
    if ps == [] then [] else InsertForIntake(ps[0], SortForIntake(ps[1..]))
  }

  /** The head of a sorted sequence precedes each later element. */
  lemma HeadPrecedes(ps: seq<Process>, q: Process)
    requires SortedForIntake(ps) && ps != [] && q in ps[1..]
    ensures IntakeLe(ps[0], q)
  {
    var k :| 0 <= k < |ps[1..]| && ps[1..][k] == q;
    assert ps[k + 1] == q;
  }

  lemma {:induction false} InsertForIntakeSorted(p: Process, ps: seq<Process>)
    requires SortedForIntake(ps)
    ensures SortedForIntake(InsertForIntake(p, ps))
  {
    if ps == [] {
    } else if IntakeLe(p, ps[0]) {
      var r := [p] + ps;
      forall i, j | 0 <= i < j < |r| ensures IntakeLe(r[i], r[j]) {
        if i == 0 && j > 1 {
          IntakeLeTransitive(p, ps[0], ps[j - 1]);
        }
      }
    } else {
      IntakeLeTotal(p, ps[0]);
      InsertForIntakeSorted(p, ps[1..]);
      var rest := InsertForIntake(p, ps[1..]);
      var r := [ps[0]] + rest;
      forall j | 0 < j < |r| ensures IntakeLe(r[0], r[j]) {
        var q := rest[j - 1];
        assert q in rest;
        InsertForIntakeMembers(p, ps[1..], q);
        if q != p {
          HeadPrecedes(ps, q);
        }
      }
      forall i, j | 0 <= i < j < |r| ensures IntakeLe(r[i], r[j]) {
        if i > 0 {
          assert r[i] == rest[i - 1] && r[j] == rest[j - 1];
        }
      }
    }
  }

  lemma {:induction false} InsertForIntakePermutes(p: Process, ps: seq<Process>)
    ensures multiset(InsertForIntake(p, ps)) == multiset(ps) + multiset{p}
  {
    if ps != [] && !IntakeLe(p, ps[0]) {
      InsertForIntakePermutes(p, ps[1..]);
      assert ps == [ps[0]] + ps[1..];
    }
  }

  /** Sorting for intake yields a permutation of its input in intake order. */
  lemma {:induction false} SortForIntakeCorrect(ps: seq<Process>)
    ensures SortedForIntake(SortForIntake(ps))
    ensures multiset(SortForIntake(ps)) == multiset(ps)
  {
    if ps != [] {
      SortForIntakeCorrect(ps[1..]);
      InsertForIntakeSorted(ps[0], SortForIntake(ps[1..]));
      InsertForIntakePermutes(ps[0], SortForIntake(ps[1..]));
      assert ps == [ps[0]] + ps[1..];
    }
  }

  /** Inserting a process whose pid is new keeps the pids distinct. */
  lemma {:induction false} InsertKeepsDistinct(p: Process, ps: seq<Process>)
    requires DistinctPids(ps)
    requires forall q :: q in ps ==> q.pid != p.pid
    ensures DistinctPids(InsertForIntake(p, ps))
  {
    if ps != [] && !IntakeLe(p, ps[0]) {
      InsertKeepsDistinct(p, ps[1..]);
      var rest := InsertForIntake(p, ps[1..]);
      var r := [ps[0]] + rest;
      forall j | 0 < j < |r| ensures r[0].pid != r[j].pid {
        var q := rest[j - 1];
        assert q in rest;
        InsertForIntakeMembers(p, ps[1..], q);
        if q != p {
          var k :| 0 <= k < |ps[1..]| && ps[1..][k] == q;
          assert ps[k + 1] == q;
        }
      }
      forall i, j | 0 <= i < j < |r| ensures r[i].pid != r[j].pid {
        if i > 0 {
          assert r[i] == rest[i - 1] && r[j] == rest[j - 1];
        }
      }
    }
  }

  /** The elements of an insertion are the new process and the old ones. */
  lemma {:induction false} InsertForIntakeMembers(p: Process, ps: seq<Process>, q: Process)
    ensures q in InsertForIntake(p, ps) <==> q == p || q in ps
  {
    if ps != [] && !IntakeLe(p, ps[0]) {
      InsertForIntakeMembers(p, ps[1..], q);
      assert ps == [ps[0]] + ps[1..];
    }
  }

  /** Sorting keeps the pids distinct. */
  lemma {:induction false} SortKeepsDistinct(ps: seq<Process>)
    requires DistinctPids(ps)
    ensures DistinctPids(SortForIntake(ps))
  {
    if ps != [] {
      SortKeepsDistinct(ps[1..]);
      SortForIntakeCorrect(ps[1..]);
      forall q | q in SortForIntake(ps[1..]) ensures q.pid != ps[0].pid {
        assert q in multiset(ps[1..]);
        var k :| 0 <= k < |ps[1..]| && ps[1..][k] == q;
        assert ps[k + 1] == q;
      }
      InsertKeepsDistinct(ps[0], SortForIntake(ps[1..]));
    }
  }
}
