// SJF: who gets the CPU.
module SjfDispatch {
  import opened UInt32
  import opened Wrappers
  import opened StableSort
  import opened SchedulerModel
  import opened SchedulerSafety
  import opened NonPreemptive
  import opened FcfsSchedule

  /** (B, A, index) in lexicographic order. */
  predicate Shorter(jobs: seq<Job>, i: nat, j: nat)
    requires i < |jobs| && j < |jobs|
  {
    jobs[i].B < jobs[j].B || (jobs[i].B == jobs[j].B && ArrivesBefore(jobs, i, j))
  }

  predicate ShortestFirst(jobs: seq<Job>, q: seq<nat>)
    requires Names(jobs, q)
  {
    forall j, k :: 0 <= j < k < |q| ==> Shorter(jobs, q[j], q[k])
  }

  predicate LaterThanAll(jobs: seq<Job>, q: seq<nat>, x: nat)
    requires Names(jobs, q) && x < |jobs|
  {
    forall y :: y in q ==> y < |jobs| && ArrivesBefore(jobs, y, x)
  }

  predicate BurstsOf(jobs: seq<Job>, B: seq<nat>) {
    |B| == |jobs| && forall i :: 0 <= i < |jobs| ==> B[i] == jobs[i].B
  }

  lemma AppendShorter(jobs: seq<Job>, q: seq<nat>, x: nat)
    requires Names(jobs, q) && x < |jobs| && ShortestFirst(jobs, q)
    requires forall y :: y in q ==> y < |jobs| && Shorter(jobs, y, x)
    ensures ShortestFirst(jobs, q + [x])
  {
    forall k | 0 <= k < |q| ensures Shorter(jobs, q[k], x) {
      assert q[k] in q;
    }
  }

  lemma {:induction false} InsertKeepsShortest(jobs: seq<Job>, q: seq<nat>, x: nat, B: seq<nat>)
    requires Names(jobs, q) && x < |jobs| && BurstsOf(jobs, B) && ShortestFirst(jobs, q)
    requires LaterThanAll(jobs, q, x)
    ensures Names(jobs, Insert(q, x, B)) && ShortestFirst(jobs, Insert(q, x, B))
  {
    if q == [] || B[q[|q| - 1]] <= B[x] {
      forall y | y in q ensures Shorter(jobs, y, x) {
        var k :| 0 <= k < |q| && q[k] == y;
        assert k < |q| - 1 ==> Shorter(jobs, q[k], q[|q| - 1]);
      }
      AppendShorter(jobs, q, x);
    } else {
      var front, last := q[..|q| - 1], q[|q| - 1];
      InsertKeepsShortest(jobs, front, x, B);
      InsertIsPermutation(front, x, B);
      forall y | y in Insert(front, x, B) ensures Shorter(jobs, y, last) {
        assert y in multiset(Insert(front, x, B));
        if y in front {
          var k :| 0 <= k < |front| && front[k] == y;
          assert Shorter(jobs, q[k], last);
        } else {
          assert y == x;
        }
      }
      AppendShorter(jobs, Insert(front, x, B), last);
    }
  }

  lemma {:induction false} ShortestIsSorted(jobs: seq<Job>, q: seq<nat>, B: seq<nat>)
    requires Names(jobs, q) && BurstsOf(jobs, B) && ShortestFirst(jobs, q)
    ensures Sort(q, B) == q
  {
    forall j, k | 0 <= j < k < |q| ensures B[q[j]] <= B[q[k]] {
      assert Shorter(jobs, q[j], q[k]);
    }
    SortOfSorted(q, B);
  }

  lemma LaterThanMerged(jobs: seq<Job>, q: seq<nat>, new': seq<nat>, x: nat, merged: seq<nat>)
    requires Names(jobs, q) && Names(jobs, new') && x < |jobs| && LaterThanAll(jobs, q, x)
    requires forall k :: 0 <= k < |new'| ==> ArrivesBefore(jobs, new'[k], x)
    requires Names(jobs, merged) && forall y :: y in merged <==> y in q + new'
    ensures LaterThanAll(jobs, merged, x)
  {
    forall y | y in merged ensures y < |jobs| && ArrivesBefore(jobs, y, x) {
      assert y in q + new';
      assert y in q || y in new';
    }
  }

  /** Newcomers at the rear, later in (A, index) than everybody in the queue, sort into (B, A, index) order. */
  lemma {:induction false} SortNewcomers(jobs: seq<Job>, q: seq<nat>, new': seq<nat>, B: seq<nat>)
    requires Names(jobs, q) && Names(jobs, new') && BurstsOf(jobs, B) && ShortestFirst(jobs, q)
    requires forall k :: 0 <= k < |new'| ==> LaterThanAll(jobs, q, new'[k])
    requires forall j, k :: 0 <= j < k < |new'| ==> ArrivesBefore(jobs, new'[j], new'[k])
    ensures Names(jobs, Sort(q + new', B)) && ShortestFirst(jobs, Sort(q + new', B))
  {
    hide Sort, Insert, ShortestFirst, LaterThanAll;
    if new' == [] {
      assert q + new' == q;
      ShortestIsSorted(jobs, q, B);
    } else {
      var front, x := new'[..|new'| - 1], new'[|new'| - 1];
      SortNewcomers(jobs, q, front, B);
      assert q + new' == (q + front) + [x];
      Snoc(q + front, x, 0, B);
      MembersOfSort(q + front, B);
      LaterThanMerged(jobs, q, front, x, Sort(q + front, B));
      InsertKeepsShortest(jobs, Sort(q + front, B), x, B);
    }
  }

  lemma ReadyArrived(s: State, jobs: seq<Job>, t: nat, i: nat)
    requires Inv(Sjf, s, jobs) && OnTime(s, jobs, t) && i in s.ready
    ensures i < |jobs| && jobs[i].A < t
  {
    var k :| 0 <= k < |s.ready| && s.ready[k] == i;
    assert s.procs[s.ready[k]].status == Ready;
  }

  lemma {:induction false} SjfLine(s: State, jobs: seq<Job>, t: nat)
    requires Inv(Sjf, s, jobs) && OnTime(s, jobs, t)
    ensures Indexed(s) && BurstsOf(jobs, Bursts(s))
    ensures InRange(s.ready + ArrivingIn(jobs, t, |jobs|), Bursts(s))
    ensures Line(Sjf, s) == Sort(s.ready + ArrivingIn(jobs, t, |jobs|), Bursts(s))
  {
    SameArrivals(s, jobs, t, |jobs|);
    assert Bursts(Arrive(s)) == Bursts(s);
  }

  lemma LineShortest(s: State, jobs: seq<Job>, t: nat)
    requires Inv(Sjf, s, jobs) && OnTime(s, jobs, t)
    requires Names(jobs, s.ready) && ShortestFirst(jobs, s.ready)
    ensures Indexed(s) && Names(jobs, Line(Sjf, s)) && ShortestFirst(jobs, Line(Sjf, s))
  {
    hide Inv, OnTime, Line, ShortestFirst;
    var new' := ArrivingIn(jobs, t, |jobs|);
    SjfLine(s, jobs, t);
    forall k | 0 <= k < |new'| ensures LaterThanAll(jobs, s.ready, new'[k]) {
      forall y | y in s.ready ensures y < |jobs| && ArrivesBefore(jobs, y, new'[k]) {
        ReadyArrived(s, jobs, t, y);
      }
    }
    SortNewcomers(jobs, s.ready, new', Bursts(s));
  }

  lemma RestOf(s: State, jobs: seq<Job>)
    requires Inv(Sjf, s, jobs) && |jobs| <= MAX
    ensures Step(Sjf, s).ready == Rest(Sjf, s) || Step(Sjf, s).ready == []
  {
    hide Step, Inv, Line;
    InvBasics(Sjf, s, jobs);
    StepQueues(Sjf, s, jobs);
  }

  lemma {:induction false} ReadyShortest(jobs: seq<Job>, t: nat)
    requires |jobs| <= MAX
    ensures Names(jobs, After(Sjf, jobs, t).ready) && ShortestFirst(jobs, After(Sjf, jobs, t).ready)
  {
    hide Step, Inv, OnTime, Line;
    if t == 0 {
    } else {
      var s := After(Sjf, jobs, t - 1);
      ReadyShortest(jobs, t - 1);
      Reachable(Sjf, jobs, t - 1);
      OnTimeAlways(Sjf, jobs, t - 1);
      LineShortest(s, jobs, t - 1);
      RestOf(s, jobs);
    }
  }

  /**
   * Over the whole run: when SJF dispatches, it picks the (B, A, index)-least of all processes that
   * are ready in that cycle, newcomers included.
   */
  lemma {:induction false} DispatchesShortest(jobs: seq<Job>, t: nat, i: nat, j: nat)
    requires |jobs| <= MAX && i < |jobs| && j < |jobs| && i != j
    requires var s := After(Sjf, jobs, t);
             && s.running == None && HasCpu(Sjf, s) == Some(i)
             && Admit(s.procs[j], s.cycle).status == Ready
    ensures Shorter(jobs, i, j)
    ensures Admit(After(Sjf, jobs, t).procs[i], After(Sjf, jobs, t).cycle).status == Ready
  {
    hide Step, Inv, OnTime, Line;
    var s := After(Sjf, jobs, t);
    ReadyShortest(jobs, t);
    Reachable(Sjf, jobs, t);
    OnTimeAlways(Sjf, jobs, t);
    LineShortest(s, jobs, t);
    InvBasics(Sjf, s, jobs);
    CoreOf(s, jobs);
    LineIsReady(Sjf, s, jobs);
    var k :| 0 <= k < |Line(Sjf, s)| && Line(Sjf, s)[k] == j;
  }

  lemma CoreOf(s: State, jobs: seq<Job>)
    requires Inv(Sjf, s, jobs)
    ensures Core(s, jobs)
  {
  }
}
