// FCFS and SJF: what the two non-preemptive loops have in common.
module NonPreemptive {
  import opened UInt32
  import opened Wrappers
  import opened SchedulerModel
  import opened Totals
  import opened SchedulerSafety
  import opened SchedulerTermination

  /** Pass t of a non-preemptive loop runs at cycle t, so everybody arrives on time. */
  predicate OnTime(s: State, jobs: seq<Job>, t: nat)
    requires |s.procs| == |jobs|
  {
    && s.cycle == Wrap(t)
    && forall i :: 0 <= i < |jobs| ==> (s.procs[i].status == Unstarted <==> t <= jobs[i].A)
  }

  lemma PickedIsHere(alg: Algorithm, s: State, jobs: seq<Job>, t: nat)
    requires Inv(alg, s, jobs) && OnTime(s, jobs, t) && HasCpu(alg, s).Some?
    ensures HasCpu(alg, s).value < |jobs| && jobs[HasCpu(alg, s).value].A <= t
  {
    hide Line;
    PickedOk(alg, s, jobs);
    var i := HasCpu(alg, s).value;
    if s.running == None {
      LineIsReady(alg, s, jobs);
      assert Admit(s.procs[i], s.cycle).status == Ready;
    } else {
      assert HoldsCpu(s.procs[i]);
    }
  }

  lemma OnTimeStep(alg: Algorithm, s: State, jobs: seq<Job>, t: nat)
    requires alg != RoundRobin && |jobs| <= MAX && Inv(alg, s, jobs) && OnTime(s, jobs, t)
    ensures OnTime(Step(alg, s), jobs, t + 1)
  {
    hide Step, Line, Inv, HasCpu, Picked;
    InvBasics(alg, s, jobs);
    var r := Step(alg, s);
    StepQueues(alg, s, jobs);
    WrapSteps(t);
    forall i: nat | i < |jobs| ensures r.procs[i].status == Unstarted <==> t + 1 <= jobs[i].A {
      if HasCpu(alg, s) == Some(i) {
        StepOfChosen(alg, s, jobs);
        PickedOk(alg, s, jobs);
        PickedIsHere(alg, s, jobs, t);
      } else {
        StepOfOther(alg, s, jobs, i);
      }
    }
  }

  lemma {:induction false} OnTimeAlways(alg: Algorithm, jobs: seq<Job>, t: nat)
    requires alg != RoundRobin && |jobs| <= MAX
    ensures OnTime(After(alg, jobs, t), jobs, t)
  {
    hide Step, Inv;
    if t == 0 {
    } else {
      OnTimeAlways(alg, jobs, t - 1);
      Reachable(alg, jobs, t - 1);
      OnTimeStep(alg, After(alg, jobs, t - 1), jobs, t - 1);
    }
  }

  // ----- The backlog: arrived, unfinished work

  /** CPU time of the first n jobs that arrive in cycle t. */
  function ArrivingWork(jobs: seq<Job>, t: nat, n: nat): nat
    requires n <= |jobs|
  {
    if n == 0 then 0
    else ArrivingWork(jobs, t, n - 1) + if jobs[n - 1].A == t then jobs[n - 1].C else 0
  }

  /** Backlog before cycle t of any work-conserving single CPU; no dispatch order is mentioned. */
  function Backlog(jobs: seq<Job>, t: nat): nat {
    if t == 0 then 0
    else
      var b := Backlog(jobs, t - 1) + ArrivingWork(jobs, t - 1, |jobs|);
      if b == 0 then 0 else b - 1
  }

  function Pending(p: Proc): nat {
    if p.status == Unstarted || p.status == Terminated then 0 else Left(p)
  }

  lemma {:induction false} PendingArrives(procs: seq<Proc>, procs': seq<Proc>, jobs: seq<Job>, t: nat, n: nat)
    requires |procs| == |procs'| == |jobs| && n <= |jobs|
    requires forall i :: 0 <= i < n ==>
               Pending(procs'[i]) == Pending(procs[i]) + if jobs[i].A == t then jobs[i].C else 0
    ensures Total(procs'[..n], Pending) == Total(procs[..n], Pending) + ArrivingWork(jobs, t, n)
  {
    if n == 0 {
    } else {
      PendingArrives(procs, procs', jobs, t, n - 1);
      assert procs[..n][..n - 1] == procs[..n - 1] && procs'[..n][..n - 1] == procs'[..n - 1];
    }
  }

  function Admitted(s: State): seq<Proc> {
    seq(|s.procs|, i requires 0 <= i < |s.procs| => Admit(s.procs[i], s.cycle))
  }

  lemma {:induction false} AdmittedPending(alg: Algorithm, s: State, jobs: seq<Job>, t: nat)
    requires alg != RoundRobin && Inv(alg, s, jobs) && OnTime(s, jobs, t)
    ensures Total(Admitted(s), Pending) == Total(s.procs, Pending) + ArrivingWork(jobs, t, |jobs|)
  {
    PendingArrives(s.procs, Admitted(s), jobs, t, |jobs|);
    assert s.procs[..|jobs|] == s.procs && Admitted(s)[..|jobs|] == Admitted(s);
  }

  lemma PendingKept(p: Proc)
    ensures Pending(Charge(p)) == Pending(p)
  {
  }

  lemma PendingRun(alg: Algorithm, p: Proc, cycle: nat)
    requires TimeOk(p) && HoldsCpu(p)
    ensures Pending(p) > 0 && Pending(Charge(Run(alg, p, cycle))) == Pending(p) - 1
  {
  }

  lemma PendingStep(alg: Algorithm, s: State, jobs: seq<Job>)
    requires |jobs| <= MAX && Inv(alg, s, jobs)
    ensures Total(Step(alg, s).procs, Pending) ==
            Total(Admitted(s), Pending) - if HasCpu(alg, s).Some? then 1 else 0
  {
    hide Step, Line, Charge, Run;
    var r := Step(alg, s);
    forall i: nat | i < |jobs| && HasCpu(alg, s) != Some(i)
      ensures Pending(r.procs[i]) == Pending(Admitted(s)[i])
    {
      StepOfOther(alg, s, jobs, i);
      PendingKept(Admit(s.procs[i], s.cycle));
    }
    if HasCpu(alg, s).Some? {
      var i := HasCpu(alg, s).value;
      StepOfChosen(alg, s, jobs);
      PickedOk(alg, s, jobs);
      PendingRun(alg, Picked(alg, s), s.cycle);
      PickedPending(alg, s, jobs);
      TotalChange(Admitted(s), r.procs, Pending, Pending, i);
    } else {
      TotalSame(Admitted(s), r.procs, Pending, Pending);
    }
  }

  lemma PickedPending(alg: Algorithm, s: State, jobs: seq<Job>)
    requires Inv(alg, s, jobs) && HasCpu(alg, s).Some?
    ensures Pending(Picked(alg, s)) == Pending(Admit(s.procs[HasCpu(alg, s).value], s.cycle))
  {
    if s.running == None {
      LineIsReady(alg, s, jobs);
    } else {
      assert HoldsCpu(s.procs[s.running.value]);
    }
  }

  lemma IdleMeansNothingPending(alg: Algorithm, s: State, jobs: seq<Job>)
    requires Inv(alg, s, jobs)
    ensures HasCpu(alg, s) == None <==> Total(Admitted(s), Pending) == 0
  {
    hide Line, Inv;
    IdlePass(alg, s, jobs);
    TotalZero(Admitted(s), Pending);
    assert |s.procs| == |jobs| && forall i :: 0 <= i < |jobs| ==> TimeOk(s.procs[i]) && s.procs[i].job == jobs[i] by {
      InvFacts(alg, s, jobs);
    }
    forall i: nat | i < |jobs| ensures CannotRun(s.procs[i], s.cycle) <==> Pending(Admitted(s)[i]) == 0 {
    }
  }

  lemma InvFacts(alg: Algorithm, s: State, jobs: seq<Job>)
    requires Inv(alg, s, jobs)
    ensures |s.procs| == |jobs| && forall i :: 0 <= i < |jobs| ==> TimeOk(s.procs[i]) && s.procs[i].job == jobs[i]
  {
  }

  lemma {:induction false} BacklogIs(alg: Algorithm, jobs: seq<Job>, t: nat)
    requires alg != RoundRobin && |jobs| <= MAX
    ensures Total(After(alg, jobs, t).procs, Pending) == Backlog(jobs, t)
  {
    hide Step, Inv, OnTime, HasCpu, Admitted, ArrivingWork;
    if t == 0 {
      TotalZero(Init(jobs).procs, Pending);
    } else {
      BacklogIs(alg, jobs, t - 1);
      var s := After(alg, jobs, t - 1);
      Reachable(alg, jobs, t - 1);
      OnTimeAlways(alg, jobs, t - 1);
      AdmittedPending(alg, s, jobs, t - 1);
      IdleMeansNothingPending(alg, s, jobs);
      PendingStep(alg, s, jobs);
    }
  }

  /** A condition on the input alone that decides when a non-preemptive loop is done. */
  predicate Drained(jobs: seq<Job>, t: nat) {
    && (forall i :: 0 <= i < |jobs| ==> jobs[i].A < t)
    && Backlog(jobs, t) == 0
  }

  lemma {:induction false} DoneWhenDrained(alg: Algorithm, jobs: seq<Job>, t: nat)
    requires alg != RoundRobin && |jobs| <= MAX
    ensures After(alg, jobs, t).finished == |jobs| <==> Drained(jobs, t)
  {
    hide Step, Inv;
    var s := After(alg, jobs, t);
    Reachable(alg, jobs, t);
    InvFacts(alg, s, jobs);
    AllFinished(alg, s, jobs);
    OnTimeAlways(alg, jobs, t);
    BacklogIs(alg, jobs, t);
    TotalZero(s.procs, Pending);
  }

  /** FCFS and SJF leave their loops after the same number of cycles, on every input. */
  lemma {:induction false} SameExit(jobs: seq<Job>)
    requires |jobs| <= MAX
    ensures ExitPass(Fcfs, jobs) == ExitPass(Sjf, jobs)
    ensures After(Fcfs, jobs, ExitPass(Fcfs, jobs)).cycle == After(Sjf, jobs, ExitPass(Sjf, jobs)).cycle
  {
    hide Step, Inv, ExitPass;
    var f, j := ExitPass(Fcfs, jobs), ExitPass(Sjf, jobs);
    EveryRunEnds(Fcfs, jobs);
    EveryRunEnds(Sjf, jobs);
    assert (f < j ==> Unfinished(Sjf, jobs, f)) && (j < f ==> Unfinished(Fcfs, jobs, j));
    DoneWhenDrained(Fcfs, jobs, f);
    DoneWhenDrained(Sjf, jobs, f);
    DoneWhenDrained(Fcfs, jobs, j);
    DoneWhenDrained(Sjf, jobs, j);
    OnTimeAlways(Fcfs, jobs, f);
    OnTimeAlways(Sjf, jobs, f);
  }

  // ----- Bounds

  /** From the last arrival on, no pass is idle until everybody has terminated. */
  lemma {:induction false} BusyAfterLastArrival(alg: Algorithm, jobs: seq<Job>, t: nat)
    requires alg != RoundRobin && |jobs| <= MAX && forall i :: 0 <= i < |jobs| ==> jobs[i].A <= t
    ensures After(alg, jobs, t).finished < |jobs| ==> HasCpu(alg, After(alg, jobs, t)).Some?
  {
    hide Step, Inv, HasCpu;
    var s := After(alg, jobs, t);
    Reachable(alg, jobs, t);
    OnTimeAlways(alg, jobs, t);
    IdlePass(alg, s, jobs);
    AllFinished(alg, s, jobs);
    InvFacts(alg, s, jobs);
    if s.finished < |jobs| {
      var i: nat :| i < |jobs| && s.procs[i].status != Terminated;
      assert !CannotRun(s.procs[i], s.cycle);
    }
  }

  lemma {:induction false} WorkRunsOut(alg: Algorithm, jobs: seq<Job>, last: nat, m: nat)
    requires alg != RoundRobin && |jobs| <= MAX && forall i :: 0 <= i < |jobs| ==> jobs[i].A <= last
    ensures var s := After(alg, jobs, last + m);
            s.finished == |jobs| || Work(s) + m <= Demand(jobs)
  {
    hide Step, Inv, HasCpu;
    if m == 0 {
      WorkAtMostDemand(alg, jobs, last);
    } else {
      WorkRunsOut(alg, jobs, last, m - 1);
      var s := After(alg, jobs, last + (m - 1));
      assert After(alg, jobs, last + m) == Step(alg, s);
      Reachable(alg, jobs, last + (m - 1));
      Reachable(alg, jobs, last + m);
      BusyAfterLastArrival(alg, jobs, last + (m - 1));
      WorkStep(alg, s, jobs);
      AllFinished(alg, s, jobs);
      AllFinished(alg, Step(alg, s), jobs);
    }
  }

  /** FCFS and SJF are done by the last arrival plus the total demand. */
  lemma {:induction false} ExitBound(alg: Algorithm, jobs: seq<Job>, last: nat)
    requires alg != RoundRobin && |jobs| <= MAX && forall i :: 0 <= i < |jobs| ==> jobs[i].A <= last
    ensures ExitPass(alg, jobs) <= last + Demand(jobs)
  {
    hide Step, Inv, ExitPass;
    var e := last + Demand(jobs);
    EveryRunEnds(alg, jobs);
    WorkRunsOut(alg, jobs, last, Demand(jobs));
    Reachable(alg, jobs, e);
    AllFinished(alg, After(alg, jobs, e), jobs);
    assert e < ExitPass(alg, jobs) ==> Unfinished(alg, jobs, e);
  }

  // ----- The CPU is never taken away

  /** Process i has run for m of its cycles without leaving the CPU. */
  predicate HasRun(s: State, i: nat, m: nat) {
    s.running == Some(i) && i < |s.procs| && s.procs[i].cpuTime == m
  }

  lemma RunsOn(alg: Algorithm, s: State, jobs: seq<Job>, i: nat, m: nat)
    requires alg != RoundRobin && |jobs| <= MAX && Inv(alg, s, jobs) && i < |jobs|
    requires HasCpu(alg, s) == Some(i) && Picked(alg, s).cpuTime == m
    ensures m < jobs[i].C
    ensures m + 1 < jobs[i].C ==> HasRun(Step(alg, s), i, m + 1)
    ensures m + 1 == jobs[i].C ==> Step(alg, s).procs[i].status == Terminated && Step(alg, s).running == None
  {
    hide Step, Line, Inv;
    StepQueues(alg, s, jobs);
    StepOfChosen(alg, s, jobs);
    PickedOk(alg, s, jobs);
  }

  lemma FreshlyPicked(alg: Algorithm, s: State, jobs: seq<Job>)
    requires alg != RoundRobin && Inv(alg, s, jobs) && s.running == None && HasCpu(alg, s).Some?
    ensures Picked(alg, s).cpuTime == 0
  {
    PickedOk(alg, s, jobs);
    LineIsReady(alg, s, jobs);
  }

  /** A process dispatched in pass t holds the CPU in passes t .. t + C - 1 and terminates in the last one. */
  lemma {:induction false} NotPreempted(alg: Algorithm, jobs: seq<Job>, t: nat, i: nat, m: nat)
    requires alg != RoundRobin && |jobs| <= MAX && i < |jobs|
    requires After(alg, jobs, t).running == None && HasCpu(alg, After(alg, jobs, t)) == Some(i)
    requires m < jobs[i].C
    ensures HasCpu(alg, After(alg, jobs, t + m)) == Some(i)
    ensures Picked(alg, After(alg, jobs, t + m)).cpuTime == m
    ensures m + 1 == jobs[i].C ==> After(alg, jobs, t + m + 1).procs[i].status == Terminated
  {
    hide Step, Line, Inv;
    var s := After(alg, jobs, t + m);
    Reachable(alg, jobs, t + m);
    if m == 0 {
      FreshlyPicked(alg, s, jobs);
    } else {
      NotPreempted(alg, jobs, t, i, m - 1);
      Reachable(alg, jobs, t + (m - 1));
      RunsOn(alg, After(alg, jobs, t + (m - 1)), jobs, i, m - 1);
      assert s == Step(alg, After(alg, jobs, t + (m - 1)));
    }
    RunsOn(alg, s, jobs, i, m);
    assert After(alg, jobs, t + m + 1) == Step(alg, s);
  }
}
