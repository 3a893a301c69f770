// Every loop ends, for every input: arrivals that a round-robin run skips are caught when the
// 32-bit clock has wrapped around.
module SchedulerTermination {
  import opened UInt32
  import opened Wrappers
  import opened SchedulerModel
  import opened Totals
  import opened SchedulerSafety

  function Left(p: Proc): nat {
    if p.cpuTime <= p.job.C then p.job.C - p.cpuTime else 0
  }

  /** Passes of an idle clock until p arrives. */
  function TimeToArrival(p: Proc, cycle: nat): nat
    requires cycle <= MAX
  {
    if p.status == Unstarted then Distance(cycle, p.job.A) else 0
  }

  function Arrivals(cycle: nat): Proc -> nat
    requires cycle <= MAX
  {
    (p: Proc) => TimeToArrival(p, cycle)
  }

  /** CPU time still to be run, over all processes. */
  function Work(s: State): nat {
    Total(s.procs, Left)
  }

  function Idle(s: State): nat
    requires s.cycle <= MAX
  {
    Total(s.procs, Arrivals(s.cycle))
  }

  lemma LeftKept(p: Proc, cycle: nat)
    ensures Left(Charge(Admit(p, cycle))) == Left(p)
  {
  }

  lemma LeftRun(alg: Algorithm, p: Proc, cycle: nat)
    requires TimeOk(p) && HoldsCpu(p)
    ensures Left(Charge(Run(alg, p, cycle))) == Left(p) - 1
  {
  }

  /** Conservation: a pass that is not idle does exactly one cycle of work, an idle pass none. */
  lemma WorkStep(alg: Algorithm, s: State, jobs: seq<Job>)
    requires Inv(alg, s, jobs) && |jobs| <= MAX
    ensures Work(Step(alg, s)) == if HasCpu(alg, s).Some? then Work(s) - 1 else Work(s)
  {
    hide Step, Line, Charge, Run;
    var r := Step(alg, s);
    forall i: nat | i < |jobs| && HasCpu(alg, s) != Some(i) ensures Left(r.procs[i]) == Left(s.procs[i]) {
      StepOfOther(alg, s, jobs, i);
      LeftKept(s.procs[i], s.cycle);
    }
    if HasCpu(alg, s).Some? {
      var i := HasCpu(alg, s).value;
      StepOfChosen(alg, s, jobs);
      PickedOk(alg, s, jobs);
      LeftRun(alg, Picked(alg, s), s.cycle);
      assert Left(Picked(alg, s)) == Left(s.procs[i]);
      TotalChange(s.procs, r.procs, Left, Left, i);
    } else {
      TotalSame(s.procs, r.procs, Left, Left);
    }
  }

  lemma SomebodyLeft(alg: Algorithm, s: State, jobs: seq<Job>)
    requires Inv(alg, s, jobs) && s.finished < |jobs|
    ensures exists i :: 0 <= i < |jobs| && s.procs[i].status != Terminated
  {
    if forall i :: 0 <= i < |jobs| ==> s.procs[i].status == Terminated {
      TotalAtLeast(s.procs, Done);
    }
  }

  /** The loop condition fails exactly when every process has terminated. */
  lemma AllFinished(alg: Algorithm, s: State, jobs: seq<Job>)
    requires Inv(alg, s, jobs)
    ensures s.finished <= |jobs|
    ensures s.finished == |jobs| <==> forall i :: 0 <= i < |jobs| ==> s.procs[i].status == Terminated
    ensures s.finished == |jobs| <==> Work(s) == 0
  {
    DoneAtMost(s.procs);
    TotalZero(s.procs, Left);
    if s.finished < |jobs| {
      SomebodyLeft(alg, s, jobs);
    } else {
      forall i: nat | i < |jobs| ensures s.procs[i].status == Terminated {
        TotalOfOthers(s.procs, i);
      }
    }
  }

  lemma {:induction false} TotalOfOthers(procs: seq<Proc>, i: nat)
    requires i < |procs| && Total(procs, Done) == |procs|
    ensures Done(procs[i]) == 1
  {
    if Done(procs[i]) == 0 {
      var p := procs[i].(status := Terminated);
      TotalChange(procs, procs[i := p], Done, Done, i);
      DoneAtMost(procs[i := p]);
    }
  }

  lemma FinishedIncrements(alg: Algorithm, s: State, jobs: seq<Job>)
    requires Inv(alg, s, jobs) && |jobs| <= MAX && HasCpu(alg, s).Some?
    ensures Inc(s.finished) == s.finished + 1
  {
    hide Inv, Line, HasCpu, Work;
    IdlePass(alg, s, jobs);
    AllFinished(alg, s, jobs);
  }

  lemma IdleStep(alg: Algorithm, s: State, jobs: seq<Job>)
    requires Inv(alg, s, jobs) && |jobs| <= MAX && s.finished < |jobs| && HasCpu(alg, s) == None
    ensures Step(alg, s).cycle <= MAX && Idle(Step(alg, s)) < Idle(s)
  {
    hide Step, Line;
    var r := Step(alg, s);
    StepQueues(alg, s, jobs);
    IdlePass(alg, s, jobs);
    forall i: nat | i < |jobs|
      ensures TimeToArrival(r.procs[i], r.cycle) <= TimeToArrival(s.procs[i], s.cycle)
      ensures s.procs[i].status != Terminated ==>
                TimeToArrival(r.procs[i], r.cycle) < TimeToArrival(s.procs[i], s.cycle)
    {
      StepOfOther(alg, s, jobs, i);
      assert CannotRun(s.procs[i], s.cycle);
    }
    SomebodyLeft(alg, s, jobs);
    var i: nat :| i < |jobs| && s.procs[i].status != Terminated;
    TotalStrict(r.procs, s.procs, Arrivals(r.cycle), Arrivals(s.cycle), i);
  }

  /** Each pass makes progress towards the end of the loop, whatever the arrival times. */
  lemma Progress(alg: Algorithm, s: State, jobs: seq<Job>)
    requires Inv(alg, s, jobs) && |jobs| <= MAX && s.finished < |jobs|
    ensures Inv(alg, Step(alg, s), jobs)
    ensures || Work(Step(alg, s)) < Work(s)
            || (Work(Step(alg, s)) == Work(s) && Idle(Step(alg, s)) < Idle(s))
  {
    InvStep(alg, s, jobs);
    WorkStep(alg, s, jobs);
    if HasCpu(alg, s) == None {
      IdleStep(alg, s, jobs);
    }
  }

  /** The number of passes until everybody has terminated, from any state of a run. */
  function PassesLeft(alg: Algorithm, s: State, jobs: seq<Job>): (k: nat)
    requires Inv(alg, s, jobs) && |jobs| <= MAX
    decreases Work(s), Idle(s)
  {
    if s.finished >= |jobs| then 0
    else
      Progress(alg, s, jobs);
      1 + PassesLeft(alg, Step(alg, s), jobs)
  }

  /** The loop is left after this many passes. */
  function ExitPass(alg: Algorithm, jobs: seq<Job>): (k: nat)
    requires |jobs| <= MAX
  {
    Reachable(alg, jobs, 0);
    PassesLeft(alg, Init(jobs), jobs)
  }

  predicate Unfinished(alg: Algorithm, jobs: seq<Job>, k: nat) {
    After(alg, jobs, k).finished < |jobs|
  }

  lemma {:induction false} PassesLeftStep(alg: Algorithm, s: State, jobs: seq<Job>)
    requires Inv(alg, s, jobs) && |jobs| <= MAX && s.finished < |jobs|
    ensures Inv(alg, Step(alg, s), jobs)
    ensures PassesLeft(alg, s, jobs) == 1 + PassesLeft(alg, Step(alg, s), jobs)
  {
    Progress(alg, s, jobs);
  }

  lemma {:induction false} ExitPassFrom(alg: Algorithm, jobs: seq<Job>, k: nat, s: State)
    requires |jobs| <= MAX && s == After(alg, jobs, k) && Inv(alg, s, jobs)
    ensures !Unfinished(alg, jobs, k + PassesLeft(alg, s, jobs))
    ensures forall j: nat :: k <= j < k + PassesLeft(alg, s, jobs) ==> Unfinished(alg, jobs, j)
    decreases PassesLeft(alg, s, jobs)
  {
    hide Step, Inv;
    if s.finished < |jobs| {
      PassesLeftStep(alg, s, jobs);
      var s' := Step(alg, s);
      assert s' == After(alg, jobs, k + 1);
      assert Unfinished(alg, jobs, k);
      ExitPassFrom(alg, jobs, k + 1, s');
    }
  }

  /** Every run of every algorithm ends: after exactly `ExitPass` passes everybody has terminated. */
  lemma {:induction false} EveryRunEnds(alg: Algorithm, jobs: seq<Job>)
    requires |jobs| <= MAX
    ensures After(alg, jobs, ExitPass(alg, jobs)).finished == |jobs|
    ensures forall i: nat :: i < |jobs| ==>
              After(alg, jobs, ExitPass(alg, jobs)).procs[i].status == Terminated
    ensures forall j: nat :: j < ExitPass(alg, jobs) ==> Unfinished(alg, jobs, j)
  {
    hide Step, Inv;
    Reachable(alg, jobs, 0);
    ExitPassFrom(alg, jobs, 0, Init(jobs));
    var k := ExitPass(alg, jobs);
    Reachable(alg, jobs, k);
    AllFinished(alg, After(alg, jobs, k), jobs);
  }

  /** CPU time asked for by all jobs together. */
  function Demand(jobs: seq<Job>): nat {
    if jobs == [] then 0 else Demand(jobs[..|jobs| - 1]) + jobs[|jobs| - 1].C
  }

  lemma {:induction false} DemandIs(procs: seq<Proc>, jobs: seq<Job>)
    requires |procs| == |jobs| && forall i :: 0 <= i < |jobs| ==> Left(procs[i]) == jobs[i].C
    ensures Total(procs, Left) == Demand(jobs)
  {
    if jobs == [] {
    } else {
      DemandIs(procs[..|jobs| - 1], jobs[..|jobs| - 1]);
    }
  }

  lemma {:induction false} WorkInit(jobs: seq<Job>)
    ensures Work(Init(jobs)) == Demand(jobs)
  {
    DemandIs(Init(jobs).procs, jobs);
  }

  lemma {:induction false} WorkAtMostDemand(alg: Algorithm, jobs: seq<Job>, k: nat)
    requires |jobs| <= MAX
    ensures Work(After(alg, jobs, k)) <= Demand(jobs)
  {
    hide Step, Inv;
    if k == 0 {
      WorkInit(jobs);
    } else {
      WorkAtMostDemand(alg, jobs, k - 1);
      Reachable(alg, jobs, k - 1);
      WorkStep(alg, After(alg, jobs, k - 1), jobs);
    }
  }
}
