// FCFS: the whole run in closed form.
module FcfsSchedule {
  import opened UInt32
  import opened Wrappers
  import opened SchedulerModel
  import opened SchedulerSafety
  import opened SchedulerTermination
  import opened NonPreemptive
  import opened Accounting

  /** The first n jobs that arrive in cycle t, in list order. */
  function ArrivingIn(jobs: seq<Job>, t: nat, n: nat): (q: seq<nat>)
    requires n <= |jobs|
    ensures forall k :: 0 <= k < |q| ==> q[k] < n && jobs[q[k]].A == t
    ensures forall i: nat :: i < n && jobs[i].A == t ==> i in q
    ensures forall j, k :: 0 <= j < k < |q| ==> q[j] < q[k]
  {
    if n == 0 then []
    else if jobs[n - 1].A == t then ArrivingIn(jobs, t, n - 1) + [n - 1]
    else ArrivingIn(jobs, t, n - 1)
  }

  /** All jobs that arrive before cycle t, in order of arrival. */
  function ArrivalOrder(jobs: seq<Job>, t: nat): (q: seq<nat>)
    ensures forall k :: 0 <= k < |q| ==> q[k] < |jobs|
  {
    if t == 0 then [] else ArrivalOrder(jobs, t - 1) + ArrivingIn(jobs, t - 1, |jobs|)
  }

  /** (A, index) in lexicographic order. */
  predicate ArrivesBefore(jobs: seq<Job>, i: nat, j: nat)
    requires i < |jobs| && j < |jobs|
  {
    jobs[i].A < jobs[j].A || (jobs[i].A == jobs[j].A && i < j)
  }

  /** q lists exactly the jobs with A < t, strictly sorted by (A, index). */
  predicate InOrder(jobs: seq<Job>, q: seq<nat>, t: nat) {
    && (forall k :: 0 <= k < |q| ==> q[k] < |jobs| && jobs[q[k]].A < t)
    && (forall i: nat :: i < |jobs| && jobs[i].A < t ==> i in q)
    && (forall j, k :: 0 <= j < k < |q| ==> ArrivesBefore(jobs, q[j], q[k]))
  }

  lemma {:induction false} InOrderStep(jobs: seq<Job>, q: seq<nat>, t: nat)
    requires InOrder(jobs, q, t)
    ensures InOrder(jobs, q + ArrivingIn(jobs, t, |jobs|), t + 1)
  {
    hide ArrivingIn;
    var late := ArrivingIn(jobs, t, |jobs|);
    var r := q + late;
    forall i: nat | i < |jobs| && jobs[i].A < t + 1 ensures i in r {
      assert i in if jobs[i].A < t then q else late;
    }
    forall j, k | 0 <= j < k < |r| ensures ArrivesBefore(jobs, r[j], r[k]) {
      if k < |q| {
        assert r[j] == q[j] && r[k] == q[k];
      } else if j < |q| {
        assert r[j] == q[j] && r[k] == late[k - |q|];
      } else {
        assert r[j] == late[j - |q|] && r[k] == late[k - |q|];
      }
    }
  }

  lemma NothingInOrder(jobs: seq<Job>)
    ensures InOrder(jobs, [], 0)
  {
  }

  lemma {:induction false} ArrivalOrderInOrder(jobs: seq<Job>, t: nat)
    ensures InOrder(jobs, ArrivalOrder(jobs, t), t)
  {
    hide ArrivingIn, InOrder;
    if t == 0 {
      NothingInOrder(jobs);
    } else {
      ArrivalOrderInOrder(jobs, t - 1);
      InOrderStep(jobs, ArrivalOrder(jobs, t - 1), t - 1);
    }
  }

  /** `ArrivalOrder` lists exactly the jobs with A < t, strictly sorted by (A, index). */
  lemma {:induction false} ArrivalOrderSorted(jobs: seq<Job>, t: nat)
    ensures var q := ArrivalOrder(jobs, t);
            && (forall k :: 0 <= k < |q| ==> jobs[q[k]].A < t)
            && (forall i: nat :: i < |jobs| && jobs[i].A < t ==> i in q)
            && (forall j, k :: 0 <= j < k < |q| ==> ArrivesBefore(jobs, q[j], q[k]))
  {
    hide ArrivalOrder;
    ArrivalOrderInOrder(jobs, t);
  }

  predicate Names(jobs: seq<Job>, q: seq<nat>) {
    forall k :: 0 <= k < |q| ==> q[k] < |jobs|
  }

  /** Cycle in which the k-th job of q is dispatched when the jobs of q run one after the other. */
  function StartOf(jobs: seq<Job>, q: seq<nat>, k: nat): nat
    requires Names(jobs, q) && k < |q|
    decreases k, 0
  {
    if k == 0 then jobs[q[0]].A
    else if jobs[q[k]].A > EndOf(jobs, q, k - 1) then jobs[q[k]].A
    else EndOf(jobs, q, k - 1)
  }

  function EndOf(jobs: seq<Job>, q: seq<nat>, k: nat): nat
    requires Names(jobs, q) && k < |q|
    decreases k, 1
  {
    StartOf(jobs, q, k) + jobs[q[k]].C
  }

  lemma {:induction false} StartOfEnd(jobs: seq<Job>, q: seq<nat>, k: nat)
    requires Names(jobs, q) && k < |q|
    ensures EndOf(jobs, q, k) == StartOf(jobs, q, k) + jobs[q[k]].C
  {
  }

  lemma {:induction false} EndOfPrefix(jobs: seq<Job>, q: seq<nat>, q': seq<nat>, k: nat)
    requires Names(jobs, q) && Names(jobs, q') && q <= q' && k < |q|
    ensures StartOf(jobs, q', k) == StartOf(jobs, q, k) && EndOf(jobs, q', k) == EndOf(jobs, q, k)
  {
    assert q'[k] == q[k] && q'[0] == q[0];
    if k == 0 {
    } else {
      EndOfPrefix(jobs, q, q', k - 1);
    }
  }

  lemma {:induction false} EndsIncrease(jobs: seq<Job>, q: seq<nat>, j: nat, k: nat)
    requires Names(jobs, q) && j < k < |q|
    ensures EndOf(jobs, q, j) <= StartOf(jobs, q, k) < EndOf(jobs, q, k)
  {
    if j == k - 1 {
    } else {
      EndsIncrease(jobs, q, j, k - 1);
    }
  }

  /** The k-th job of q completed at its end time. */
  predicate Past(jobs: seq<Job>, q: seq<nat>, procs: seq<Proc>, k: nat) {
    Names(jobs, q) && |procs| == |jobs| && k < |q| && EndRecord(Fcfs, procs[q[k]], EndOf(jobs, q, k))
  }

  /** Where FCFS is at the top of pass t: the first `finished` jobs of q are done, in order. */
  predicate Schedule(jobs: seq<Job>, q: seq<nat>, s: State, t: nat)
    requires Names(jobs, q) && |s.procs| == |jobs|
  {
    var f := s.finished;
    && f <= |q|
    && (f > 0 ==> EndOf(jobs, q, f - 1) <= t)
    && (forall k: nat :: k < f ==> Past(jobs, q, s.procs, k))
    && match s.running
       case None =>
         s.ready == q[f..] && (f < |q| ==> f > 0 && EndOf(jobs, q, f - 1) == t)
       case Some(i) =>
         f < |q| && i == q[f] && s.ready == q[f + 1..]
         && StartOf(jobs, q, f) < t < EndOf(jobs, q, f)
         && s.procs[i].cpuTime == t - StartOf(jobs, q, f)
  }

  lemma {:induction false} SameArrivals(s: State, jobs: seq<Job>, t: nat, n: nat)
    requires ForJobs(s, jobs) && OnTime(s, jobs, t) && n <= |jobs|
    ensures NewArrivals(s.procs, s.cycle, n) == ArrivingIn(jobs, t, n)
  {
    if n == 0 {
    } else {
      SameArrivals(s, jobs, t, n - 1);
      assert s.procs[n - 1].job == jobs[n - 1];
    }
  }

  lemma {:induction false} FcfsLine(s: State, jobs: seq<Job>, t: nat)
    requires Indexed(s) && ForJobs(s, jobs) && OnTime(s, jobs, t)
    ensures Line(Fcfs, s) == s.ready + ArrivingIn(jobs, t, |jobs|)
  {
    SameArrivals(s, jobs, t, |jobs|);
  }

  /** The next job of the order, if any, is the one that gets the CPU, at its start time. */
  predicate PicksNext(jobs: seq<Job>, q: seq<nat>, s: State, t: nat)
    requires Names(jobs, q) && Indexed(s)
  {
    var f := s.finished;
    && HasCpu(Fcfs, s) == (if f < |q| then Some(q[f]) else None)
    && Rest(Fcfs, s) == (if f < |q| then q[f + 1..] else [])
    && (f < |q| ==>
          && StartOf(jobs, q, f) <= t < EndOf(jobs, q, f)
          && Picked(Fcfs, s).cpuTime == t - StartOf(jobs, q, f))
  }

  lemma OrderStep(jobs: seq<Job>, t: nat)
    ensures ArrivalOrder(jobs, t + 1) == ArrivalOrder(jobs, t) + ArrivingIn(jobs, t, |jobs|)
  {
  }

  lemma NextStartsNow(jobs: seq<Job>, s: State, t: nat, q: seq<nat>, q': seq<nat>)
    requires q == ArrivalOrder(jobs, t) && q' == ArrivalOrder(jobs, t + 1)
    requires |s.procs| == |jobs| && Schedule(jobs, q, s, t)
    requires s.running == None && s.finished < |q'|
    ensures StartOf(jobs, q', s.finished) == t
  {
    hide Past, EndOf, ArrivalOrder, ArrivingIn;
    var f := s.finished;
    OrderStep(jobs, t);
    if f > 0 {
      EndOfPrefix(jobs, q, q', f - 1);
    }
    ArrivalOrderSorted(jobs, t + 1);
    assert jobs[q'[f]].A <= t;
    if f == |q| {
      assert q'[f] == ArrivingIn(jobs, t, |jobs|)[0];
    }
  }

  lemma {:induction false} FreeLine(s: State, jobs: seq<Job>, t: nat, q: seq<nat>, q': seq<nat>)
    requires Inv(Fcfs, s, jobs) && OnTime(s, jobs, t) && s.running == None
    requires q' == q + ArrivingIn(jobs, t, |jobs|) && s.finished <= |q| && s.ready == q[s.finished..]
    ensures Line(Fcfs, s) == q'[s.finished..]
    ensures HasCpu(Fcfs, s) == (if s.finished < |q'| then Some(q'[s.finished]) else None)
    ensures Rest(Fcfs, s) == (if s.finished < |q'| then q'[s.finished + 1..] else [])
  {
    hide Inv, OnTime, Indexed, ForJobs, ArrivingIn, Line;
    InvBasics(Fcfs, s, jobs);
    FcfsLine(s, jobs, t);
    assert Line(Fcfs, s) == q'[s.finished..];
  }

  lemma ReadyWhenFree(jobs: seq<Job>, s: State, t: nat, q: seq<nat>)
    requires Names(jobs, q) && |s.procs| == |jobs| && Schedule(jobs, q, s, t) && s.running == None
    ensures s.finished <= |q| && s.ready == q[s.finished..]
  {
  }

  lemma PicksNextWhenFree(s: State, jobs: seq<Job>, t: nat, q: seq<nat>, q': seq<nat>)
    requires Inv(Fcfs, s, jobs) && OnTime(s, jobs, t) && s.running == None
    requires q == ArrivalOrder(jobs, t) && q' == ArrivalOrder(jobs, t + 1) && Schedule(jobs, q, s, t)
    ensures PicksNext(jobs, q', s, t)
  {
    hide Past, StartOf, EndOf, Schedule, Inv, OnTime, Indexed, Line, HasCpu, Rest, Picked, ArrivalOrder, ArrivingIn;
    InvBasics(Fcfs, s, jobs);
    OrderStep(jobs, t);
    ReadyWhenFree(jobs, s, t, q);
    FreeLine(s, jobs, t, q, q');
    if s.finished < |q'| {
      NextStartsNow(jobs, s, t, q, q');
      StartOfEnd(jobs, q', s.finished);
      FreshlyPicked(Fcfs, s, jobs);
    }
  }

  lemma PicksNextWhenBusy(s: State, jobs: seq<Job>, t: nat, q: seq<nat>, q': seq<nat>)
    requires Inv(Fcfs, s, jobs) && OnTime(s, jobs, t) && s.running != None
    requires q == ArrivalOrder(jobs, t) && q' == ArrivalOrder(jobs, t + 1) && Schedule(jobs, q, s, t)
    ensures PicksNext(jobs, q', s, t)
  {
    hide Past, StartOf, EndOf, Inv, OnTime, Indexed, ForJobs, ArrivalOrder, ArrivingIn;
    var f := s.finished;
    InvBasics(Fcfs, s, jobs);
    OrderStep(jobs, t);
    FcfsLine(s, jobs, t);
    EndOfPrefix(jobs, q, q', f);
    assert Line(Fcfs, s) == q'[f + 1..];
    hide Line;
  }

  lemma EndRecordKept(jobs: seq<Job>, s: State, k: nat, e: nat)
    requires Inv(Fcfs, s, jobs) && |jobs| <= MAX && k < |jobs| && EndRecord(Fcfs, s.procs[k], e)
    ensures EndRecord(Fcfs, Step(Fcfs, s).procs[k], e)
  {
    hide Step;
    if HasCpu(Fcfs, s) == Some(k) {
      PickedOk(Fcfs, s, jobs);
    } else {
      StepOfOther(Fcfs, s, jobs, k);
    }
  }

  lemma {:induction false} SchedulePast(s: State, jobs: seq<Job>, t: nat, q: seq<nat>, q': seq<nat>)
    requires |jobs| <= MAX && Inv(Fcfs, s, jobs) && Names(jobs, q) && Names(jobs, q') && q <= q'
    requires Schedule(jobs, q, s, t)
    ensures forall k: nat :: k < s.finished ==> Past(jobs, q', Step(Fcfs, s).procs, k)
    ensures s.finished > 0 ==> EndOf(jobs, q', s.finished - 1) <= t
  {
    hide Step, Inv, EndRecord, EndOf;
    InvBasics(Fcfs, s, jobs);
    var r := Step(Fcfs, s);
    forall k: nat | k < s.finished ensures Past(jobs, q', r.procs, k) {
      assert Past(jobs, q, s.procs, k);
      EndOfPrefix(jobs, q, q', k);
      assert q'[k] == q[k];
      EndRecordKept(jobs, s, q[k], EndOf(jobs, q, k));
    }
    if s.finished > 0 {
      EndOfPrefix(jobs, q, q', s.finished - 1);
    }
  }

  /** The queues and counters after the pass in which job q[f] runs. */
  predicate Ran(jobs: seq<Job>, q: seq<nat>, f: nat, r: State, t: nat)
    requires Names(jobs, q) && f < |q| && |r.procs| == |jobs|
  {
    && r.ready == q[f + 1..]
    && if t == EndOf(jobs, q, f) then
         r.running == None && r.finished == f + 1
       else
         && r.running == Some(q[f]) && r.finished == f
         && StartOf(jobs, q, f) < t < EndOf(jobs, q, f)
         && r.procs[q[f]].cpuTime == t - StartOf(jobs, q, f)
  }

  lemma ScheduleRan(s: State, jobs: seq<Job>, t: nat, q: seq<nat>)
    requires |jobs| <= MAX && Inv(Fcfs, s, jobs) && Names(jobs, q) && PicksNext(jobs, q, s, t) && s.finished < |q|
    ensures Ran(jobs, q, s.finished, Step(Fcfs, s), t + 1)
  {
    hide Step, Line, Rest, Inv, IoOk, Indexed, Picked, HasCpu, StartOf;
    InvBasics(Fcfs, s, jobs);
    PickedOk(Fcfs, s, jobs);
    StepQueues(Fcfs, s, jobs);
    RunsOn(Fcfs, s, jobs, q[s.finished], Picked(Fcfs, s).cpuTime);
    FinishedIncrements(Fcfs, s, jobs);
  }

  lemma {:induction false} ScheduleEnds(s: State, jobs: seq<Job>, t: nat, q: seq<nat>)
    requires |jobs| <= MAX && Inv(Fcfs, s, jobs) && OnTime(s, jobs, t) && AllWaiting(Fcfs, s, t)
    requires Names(jobs, q) && PicksNext(jobs, q, s, t) && s.finished < |q|
    requires t + 1 == EndOf(jobs, q, s.finished)
    ensures Past(jobs, q, Step(Fcfs, s).procs, s.finished)
  {
    hide Step, Line, Rest, Inv, IoOk, Indexed, Picked, HasCpu, StartOf, EndRecord, AllWaiting, OnTime;
    InvBasics(Fcfs, s, jobs);
    PickedOk(Fcfs, s, jobs);
    WaitingStep(Fcfs, s, jobs, t);
  }

  lemma ScheduleAfterRun(jobs: seq<Job>, q: seq<nat>, f: nat, r: State, t: nat)
    requires Names(jobs, q) && f < |q| && |r.procs| == |jobs| && Ran(jobs, q, f, r, t)
    requires forall k: nat :: k < f ==> Past(jobs, q, r.procs, k)
    requires f > 0 ==> EndOf(jobs, q, f - 1) <= t
    requires t == EndOf(jobs, q, f) ==> Past(jobs, q, r.procs, f)
    ensures Schedule(jobs, q, r, t)
  {
    hide Past, StartOf, EndOf;
  }

  lemma {:induction false} ScheduleIdle(s: State, jobs: seq<Job>, t: nat, q: seq<nat>)
    requires |jobs| <= MAX && Inv(Fcfs, s, jobs)
    requires Names(jobs, q) && PicksNext(jobs, q, s, t) && s.finished == |q|
    requires forall k: nat :: k < |q| ==> Past(jobs, q, Step(Fcfs, s).procs, k)
    requires |q| > 0 ==> EndOf(jobs, q, |q| - 1) <= t
    ensures Schedule(jobs, q, Step(Fcfs, s), t + 1)
  {
    hide Step, Rest, Inv, Past, Indexed, Picked, HasCpu, StartOf, EndOf;
    InvBasics(Fcfs, s, jobs);
    StepQueues(Fcfs, s, jobs);
  }

  lemma ScheduleBounds(s: State, jobs: seq<Job>, t: nat, q: seq<nat>, q': seq<nat>)
    requires q == ArrivalOrder(jobs, t) && q' == ArrivalOrder(jobs, t + 1)
    requires |s.procs| == |jobs| && Schedule(jobs, q, s, t)
    ensures q <= q' && s.finished <= |q|
  {
  }

  lemma ScheduleStep(s: State, jobs: seq<Job>, t: nat, q: seq<nat>, q': seq<nat>)
    requires |jobs| <= MAX && Inv(Fcfs, s, jobs) && OnTime(s, jobs, t) && AllWaiting(Fcfs, s, t)
    requires q == ArrivalOrder(jobs, t) && q' == ArrivalOrder(jobs, t + 1)
    requires Schedule(jobs, q, s, t)
    ensures Schedule(jobs, q', Step(Fcfs, s), t + 1)
  {
    hide Step, Rest, Inv, Past, AllWaiting, OnTime, Indexed, Picked, HasCpu, StartOf, EndOf, ArrivalOrder, ArrivingIn,
      Schedule, PicksNext, Ran;
    InvBasics(Fcfs, s, jobs);
    ScheduleBounds(s, jobs, t, q, q');
    if s.running == None {
      PicksNextWhenFree(s, jobs, t, q, q');
    } else {
      PicksNextWhenBusy(s, jobs, t, q, q');
    }
    SchedulePast(s, jobs, t, q, q');
    if s.finished < |q'| {
      ScheduleRan(s, jobs, t, q');
      if t + 1 == EndOf(jobs, q', s.finished) {
        ScheduleEnds(s, jobs, t, q');
      }
      ScheduleAfterRun(jobs, q', s.finished, Step(Fcfs, s), t + 1);
    } else {
      ScheduleIdle(s, jobs, t, q');
    }
  }

  lemma {:induction false} ScheduleStart(jobs: seq<Job>)
    ensures Schedule(jobs, ArrivalOrder(jobs, 0), Init(jobs), 0)
  {
  }

  lemma {:induction false} FollowsSchedule(jobs: seq<Job>, t: nat)
    requires |jobs| <= MAX
    ensures Schedule(jobs, ArrivalOrder(jobs, t), After(Fcfs, jobs, t), t)
  {
    hide Step, Inv, OnTime, AllWaiting, Past, ArrivalOrder, Schedule;
    if t == 0 {
      ScheduleStart(jobs);
    } else {
      FollowsSchedule(jobs, t - 1);
      Reachable(Fcfs, jobs, t - 1);
      OnTimeAlways(Fcfs, jobs, t - 1);
      WaitingAlways(Fcfs, jobs, t - 1);
      ScheduleStep(After(Fcfs, jobs, t - 1), jobs, t - 1, ArrivalOrder(jobs, t - 1), ArrivalOrder(jobs, t));
    }
  }

  // ----- The theorems

  lemma {:induction false} OrderGrows(jobs: seq<Job>, t: nat, T: nat)
    requires t <= T
    ensures ArrivalOrder(jobs, t) <= ArrivalOrder(jobs, T)
  {
    hide ArrivingIn;
    if t == T {
    } else {
      OrderGrows(jobs, t, T - 1);
    }
  }

  lemma {:induction false} BeforeAndAfter(jobs: seq<Job>, q: seq<nat>, s: State, t: nat, k: nat)
    requires Names(jobs, q) && |s.procs| == |jobs| && k < |q| && Schedule(jobs, q, s, t)
    ensures k < s.finished ==> EndOf(jobs, q, k) <= t && Past(jobs, q, s.procs, k)
    ensures k == s.finished && s.running.Some? ==> StartOf(jobs, q, k) < t < EndOf(jobs, q, k)
    ensures k > s.finished || (k == s.finished && s.running.None?) ==> t <= StartOf(jobs, q, k)
  {
    hide Past;
    var f := s.finished;
    if k < f - 1 {
      EndsIncrease(jobs, q, k, f - 1);
    }
    if f < k {
      EndsIncrease(jobs, q, f, k);
      if f > 0 {
        EndsIncrease(jobs, q, f - 1, k);
      }
    }
  }

  /**
   * The whole FCFS run in closed form: at the top of pass t, the k-th job in (A, index) order is
   * terminated, on the CPU, waiting or not yet there exactly as its start and end times say.
   */
  lemma {:induction false} FcfsClosedForm(jobs: seq<Job>, t: nat, T: nat, k: nat)
    requires |jobs| <= MAX && t <= T && k < |ArrivalOrder(jobs, T)|
    ensures var q := ArrivalOrder(jobs, T);
            var p := After(Fcfs, jobs, t).procs[q[k]];
            && (p.status == Unstarted <==> t <= jobs[q[k]].A)
            && (p.status == Ready <==> jobs[q[k]].A < t <= StartOf(jobs, q, k))
            && (HoldsCpu(p) <==> StartOf(jobs, q, k) < t < EndOf(jobs, q, k))
            && (p.status == Terminated <==> EndOf(jobs, q, k) <= t)
            && (p.status == Terminated ==> EndRecord(Fcfs, p, EndOf(jobs, q, k)))
  {
    hide Step, Inv, Schedule, Past, StartOf, ArrivalOrder;
    var q0, q, s := ArrivalOrder(jobs, t), ArrivalOrder(jobs, T), After(Fcfs, jobs, t);
    Reachable(Fcfs, jobs, t);
    InvFacts(Fcfs, s, jobs);
    FollowsSchedule(jobs, t);
    OnTimeAlways(Fcfs, jobs, t);
    OrderGrows(jobs, t, T);
    if k < |q0| {
      EndOfPrefix(jobs, q0, q, k);
      assert q0[k] == q[k];
      BeforeAndAfter(jobs, q0, s, t, k);
      StatusAt(jobs, q0, s, t, k);
    } else {
      LaterArrival(jobs, t, T, k);
      StartAfterArrival(jobs, q, k);
    }
  }

  lemma {:induction false} StartAfterArrival(jobs: seq<Job>, q: seq<nat>, k: nat)
    requires Names(jobs, q) && k < |q|
    ensures jobs[q[k]].A <= StartOf(jobs, q, k) < EndOf(jobs, q, k)
  {
  }

  lemma {:induction false} LaterArrival(jobs: seq<Job>, t: nat, T: nat, k: nat)
    requires t <= T && |ArrivalOrder(jobs, t)| <= k < |ArrivalOrder(jobs, T)|
    ensures t <= jobs[ArrivalOrder(jobs, T)[k]].A
  {
    ArrivalOrderSorted(jobs, t);
    ArrivalOrderSorted(jobs, T);
    OrderGrows(jobs, t, T);
  }

  /** The position in the order decides the status. */
  lemma {:induction false} StatusAt(jobs: seq<Job>, q: seq<nat>, s: State, t: nat, k: nat)
    requires Inv(Fcfs, s, jobs) && OnTime(s, jobs, t) && q == ArrivalOrder(jobs, t) && k < |q|
    requires Schedule(jobs, q, s, t)
    ensures var p := s.procs[q[k]];
            && (p.status == Terminated <==> k < s.finished)
            && (p.status == Terminated ==> EndRecord(Fcfs, p, EndOf(jobs, q, k)))
            && (HoldsCpu(p) <==> k == s.finished && s.running.Some?)
            && p.status != Unstarted
  {
    hide Inv, OnTime, Past, EndRecord, EndOf, StartOf, ArrivalOrder;
    var f := s.finished;
    InvBasics(Fcfs, s, jobs);
    if k < f {
      PastIsTerminated(jobs, q, s.procs, k);
    } else if k == f && s.running.Some? {
      RunningHoldsCpu(s, jobs);
    } else {
      var pos := if s.running.Some? then k - f - 1 else k - f;
      assert s.ready[pos] == q[k];
      ReadyIsReady(s, jobs, pos);
    }
  }

  lemma RunningHoldsCpu(s: State, jobs: seq<Job>)
    requires Inv(Fcfs, s, jobs) && s.running.Some?
    ensures HoldsCpu(s.procs[s.running.value])
  {
  }

  lemma ReadyIsReady(s: State, jobs: seq<Job>, k: nat)
    requires Inv(Fcfs, s, jobs) && k < |s.ready|
    ensures s.procs[s.ready[k]].status == Ready
  {
  }

  lemma {:induction false} PastIsTerminated(jobs: seq<Job>, q: seq<nat>, procs: seq<Proc>, k: nat)
    requires Past(jobs, q, procs, k)
    ensures procs[q[k]].status == Terminated && EndRecord(Fcfs, procs[q[k]], EndOf(jobs, q, k))
  {
  }

  lemma {:induction false} DistinctBelow(q: seq<nat>, n: nat)
    requires Distinct(q) && forall k :: 0 <= k < |q| ==> q[k] < n
    ensures |q| <= n
  {
    var first := if |q| > 0 then q[0] else 0;
    if n > 0 && exists k :: 0 <= k < |q| && q[k] == n - 1 {
      var k :| 0 <= k < |q| && q[k] == n - 1;
      var r := q[..k] + q[k + 1..];
      assert forall j :: 0 <= j < |r| ==> r[j] == if j < k then q[j] else q[j + 1];
      DistinctBelow(r, n - 1);
    } else if n > 0 {
      DistinctBelow(q, n - 1);
    }
  }

  /** FCFS leaves its loop at the end time of the last job, in (A, index) order. */
  lemma FcfsExit(jobs: seq<Job>, last: nat)
    requires 0 < |jobs| <= MAX && forall i :: 0 <= i < |jobs| ==> jobs[i].A <= last
    ensures var q := ArrivalOrder(jobs, last + 1);
            |q| == |jobs| && ExitPass(Fcfs, jobs) == EndOf(jobs, q, |jobs| - 1)
  {
    hide Step, Inv, ExitPass, StartOf, EndOf, ArrivalOrder;
    var e, n := ExitPass(Fcfs, jobs), |jobs|;
    var T := if e < last + 1 then last + 1 else e;
    var q, q' := ArrivalOrder(jobs, last + 1), ArrivalOrder(jobs, T);
    EveryRunEnds(Fcfs, jobs);
    ArrivalOrderSorted(jobs, last + 1);
    ArrivalOrderSorted(jobs, T);
    OrderGrows(jobs, last + 1, T);
    OrderIsComplete(jobs, last + 1);
    OrderIsComplete(jobs, T);
    assert q == q';
    FcfsClosedForm(jobs, e, T, n - 1);
    if EndOf(jobs, q, n - 1) < e {
      var t := EndOf(jobs, q, n - 1);
      assert Unfinished(Fcfs, jobs, t);
      AllEnded(jobs, t, T);
    }
  }

  lemma {:induction false} AllEnded(jobs: seq<Job>, t: nat, T: nat)
    requires 0 < |jobs| <= MAX && t <= T && |ArrivalOrder(jobs, T)| == |jobs|
    requires forall i: nat :: i < |jobs| ==> i in ArrivalOrder(jobs, T)
    requires EndOf(jobs, ArrivalOrder(jobs, T), |jobs| - 1) <= t
    ensures !Unfinished(Fcfs, jobs, t)
  {
    hide Step, Inv, StartOf, EndOf, ArrivalOrder;
    var q, s := ArrivalOrder(jobs, T), After(Fcfs, jobs, t);
    forall i: nat | i < |jobs| ensures s.procs[i].status == Terminated {
      assert i in q;
      var k :| 0 <= k < |q| && q[k] == i;
      if k < |jobs| - 1 {
        EndsIncrease(jobs, q, k, |jobs| - 1);
      }
      FcfsClosedForm(jobs, t, T, k);
    }
    Reachable(Fcfs, jobs, t);
    AllFinished(Fcfs, s, jobs);
  }

  lemma {:induction false} OrderIsComplete(jobs: seq<Job>, t: nat)
    requires forall i :: 0 <= i < |jobs| ==> jobs[i].A < t
    ensures |ArrivalOrder(jobs, t)| == |jobs|
  {
    ArrivalOrderSorted(jobs, t);
    DistinctBelow(ArrivalOrder(jobs, t), |jobs|);
    CoversBelow(ArrivalOrder(jobs, t), |jobs|);
  }

  lemma {:induction false} CoversBelow(q: seq<nat>, n: nat)
    requires forall i: nat :: i < n ==> i in q
    ensures |q| >= n
  {
    if n == 0 {
    } else {
      assert n - 1 in q;
      var k :| 0 <= k < |q| && q[k] == n - 1;
      var r := q[..k] + q[k + 1..];
      forall i: nat | i < n - 1 ensures i in r {
        assert i in q;
        var j :| 0 <= j < |q| && q[j] == i;
        assert i == if j < k then r[j] else r[j - 1];
      }
      CoversBelow(r, n - 1);
    }
  }

  // ----- What the printed FCFS numbers mean

  function IoTime(j: Job): nat {
    if j.C > j.B then j.C - j.B else 0
  }

  lemma QuotientZero(x: nat, B: nat)
    requires B > 0
    ensures x / B == 0 <==> x < B
  {
    if x < B {
      DivMod(x, B, 0, x);
    }
  }

  lemma WrapCongruent(x: int, y: int, d: int)
    ensures Wrap(x) == Wrap(y) <==> Wrap(x + d) == Wrap(y + d)
  {
    WrapInside(x, d);
    WrapInside(y, d);
    WrapInside(x + d, 0 - d);
    WrapInside(y + d, 0 - d);
  }

  lemma AsInt32Injective(x: nat, y: nat)
    requires x <= MAX && y <= MAX
    ensures AsInt32(x) == AsInt32(y) <==> x == y
  {
  }

  /**
   * `finishingTime` is documented as the cycle in which the process finishes. Under FCFS it is that
   * cycle (as an int32_t) only for jobs whose I/O accounting happens to make up for the arrival time.
   */
  lemma {:induction false} FcfsFinishingTime(jobs: seq<Job>, t: nat, T: nat, k: nat)
    requires |jobs| <= MAX && t <= T && k < |ArrivalOrder(jobs, T)|
    requires EndOf(jobs, ArrivalOrder(jobs, T), k) <= t
    ensures var q := ArrivalOrder(jobs, T);
            var j, e := jobs[q[k]], EndOf(jobs, q, k);
            var p := After(Fcfs, jobs, t).procs[q[k]];
            && p.finishingTime == AsInt32(Wrap(e + IoTime(j) + (j.C - 1) / j.B - j.A - 1))
            && (p.finishingTime == AsInt32(Wrap(e)) <==> Wrap(IoTime(j) + (j.C - 1) / j.B) == Wrap(j.A + 1))
  {
    hide Step, Inv, StartOf, EndOf, ArrivalOrder, Wrap, AsInt32;
    FcfsClosedForm(jobs, t, T, k);
    Reachable(Fcfs, jobs, t);
    InvFacts(Fcfs, After(Fcfs, jobs, t), jobs);
    var q := ArrivalOrder(jobs, T);
    var j, e := jobs[q[k]], EndOf(jobs, q, k);
    var extra := IoTime(j) + (j.C - 1) / j.B;
    WrapCongruent(extra, j.A + 1, e - j.A - 1);
    AsInt32Injective(Wrap(e + extra - j.A - 1), Wrap(e));
  }

  /** The same in integers: what is reported if it fits in an int32_t, and when it is the completion cycle. */
  lemma {:induction false} FcfsFinishingTimeExact(jobs: seq<Job>, t: nat, T: nat, k: nat)
    requires |jobs| <= MAX && t <= T && k < |ArrivalOrder(jobs, T)|
    requires EndOf(jobs, ArrivalOrder(jobs, T), k) <= t
    ensures var q := ArrivalOrder(jobs, T);
            var j, e := jobs[q[k]], EndOf(jobs, q, k);
            var p := After(Fcfs, jobs, t).procs[q[k]];
            var x := e + IoTime(j) + (j.C - 1) / j.B - j.A - 1;
            && (p.finishingTime == x <==> x < 0x8000_0000)
            && (p.finishingTime == e <==> e < 0x8000_0000 && IoTime(j) + (j.C - 1) / j.B == j.A + 1)
  {
    hide Step, Inv, StartOf, EndOf, ArrivalOrder;
    FcfsFinishingTime(jobs, t, T, k);
    var q := ArrivalOrder(jobs, T);
    SmallQuotient(jobs[q[k]].C - 1, jobs[q[k]].B);
    StartAfterArrival(jobs, q, k);
    StartOfEnd(jobs, q, k);
  }

  /**
   * The reported waiting time is one less than the cycles waited plus the I/O blocks taken, so it
   * underflows to 2^32 - 1 for a job that is dispatched on arrival and never blocks.
   */
  lemma {:induction false} FcfsWaitingTime(jobs: seq<Job>, t: nat, T: nat, k: nat)
    requires |jobs| <= MAX && t <= T && k < |ArrivalOrder(jobs, T)|
    requires EndOf(jobs, ArrivalOrder(jobs, T), k) <= t
    ensures var q := ArrivalOrder(jobs, T);
            var j, p := jobs[q[k]], After(Fcfs, jobs, t).procs[q[k]];
            var waited := StartOf(jobs, q, k) - j.A + (j.C - 1) / j.B;
            && waited >= 0
            && p.waitingTime == Wrap(waited - 1)
            && (p.waitingTime == MAX <==> Wrap(waited) == 0)
            && (EndOf(jobs, q, k) <= MAX ==> p.waitingTime == if waited == 0 then MAX else waited - 1)
            && (waited == 0 <==> StartOf(jobs, q, k) == j.A && j.C <= j.B)
  {
    hide Step, Inv, StartOf, ArrivalOrder;
    FcfsClosedForm(jobs, t, T, k);
    Reachable(Fcfs, jobs, t);
    InvFacts(Fcfs, After(Fcfs, jobs, t), jobs);
    var q := ArrivalOrder(jobs, T);
    SmallQuotient(jobs[q[k]].C - 1, jobs[q[k]].B);
    QuotientZero(jobs[q[k]].C - 1, jobs[q[k]].B);
    StartAfterArrival(jobs, q, k);
    WrapSteps(StartOf(jobs, q, k) - jobs[q[k]].A + (jobs[q[k]].C - 1) / jobs[q[k]].B);
  }

  /** A single one-cycle job completes in cycle 1; its record says cycle 0, after a wait of 2^32 - 1. */
  lemma OneShortJob()
    ensures var jobs := [JobInput(0, 2, 1)];
            var p := After(Fcfs, jobs, 1).procs[0];
            && ArrivalOrder(jobs, 1) == [0] && EndOf(jobs, [0], 0) == 1
            && p.status == Terminated && p.finishingTime == 0 && p.waitingTime == MAX
  {
    hide After, Inv;
    var jobs := [JobInput(0, 2, 1)];
    assert ArrivalOrder(jobs, 1) == ArrivalOrder(jobs, 0) + ArrivingIn(jobs, 0, 1);
    assert ArrivingIn(jobs, 0, 1) == ArrivingIn(jobs, 0, 0) + [0];
    FcfsClosedForm(jobs, 1, 1, 0);
    FcfsFinishingTimeExact(jobs, 1, 1, 0);
    FcfsWaitingTime(jobs, 1, 1, 0);
  }
}
