// Round robin: exact waiting and finishing times, run length, and skipped arrivals.
module RoundRobinAccounting {
  import opened UInt32
  import opened Wrappers
  import opened SchedulerModel
  import opened SchedulerSafety
  import opened SchedulerTermination
  import opened RoundRobinRun
  import NonPreemptive

  // ----- The clock

  /** The clock counts the passes plus one extra step for every completion. */
  lemma {:induction false} RrClock(jobs: seq<Job>, k: nat)
    requires |jobs| <= MAX
    ensures var s := After(RoundRobin, jobs, k);
            s.cycle == Wrap(k + s.finished) && s.finished <= |jobs|
  {
    hide Step, Inv, Line, HasCpu, Picked, Completes, Work, Wrap;
    if k == 0 {
      WrapSteps(0);
    } else {
      RrClock(jobs, k - 1);
      var s := After(RoundRobin, jobs, k - 1);
      Reachable(RoundRobin, jobs, k - 1);
      Reachable(RoundRobin, jobs, k);
      AllFinished(RoundRobin, s, jobs);
      AllFinished(RoundRobin, After(RoundRobin, jobs, k), jobs);
      StepQueues(RoundRobin, s, jobs);
      WrapSteps(k - 1 + s.finished);
      WrapSteps(k + s.finished);
      if HasCpu(RoundRobin, s).Some? {
        FinishedIncrements(RoundRobin, s, jobs);
      }
    }
  }

  // ----- Waiting

  /** Passes among the first k that end with process i arrived. */
  function PassesSince(jobs: seq<Job>, i: nat, k: nat): nat
    requires i < |jobs|
  {
    if k == 0 then 0
    else PassesSince(jobs, i, k - 1) + if After(RoundRobin, jobs, k).procs[i].status == Unstarted then 0 else 1
  }

  predicate WaitOk(p: Proc, n: nat) {
    match p.status
    case Unstarted => p.waitingTime == 0 && n == 0
    case Ready => p.waitingTime == Wrap(n - p.cpuTime + p.cpuTime / 2)
    case Running => p.waitingTime == Wrap(n - p.cpuTime + p.cpuTime / 2)
    case Blocked => true
    case Terminated => true
  }

  lemma WaitOfOther(p: Proc, cycle: nat, n: nat)
    requires TimeOk(p) && SliceOk(p) && WaitOk(p, n) && IoOk(RoundRobin, p, 0) && !HoldsCpu(p)
    ensures var r := Charge(Admit(p, cycle));
            r.status != Terminated ==> WaitOk(r, if r.status == Unstarted then n else n + 1)
  {
    WrapSteps(n - p.cpuTime + p.cpuTime / 2);
  }

  predicate PickedWait(p: Proc, n: nat) {
    p.waitingTime == Wrap(n - p.cpuTime + p.cpuTime / 2)
  }

  lemma WaitOfRun(p: Proc, cycle: nat, n: nat)
    requires TimeOk(p) && PickedSlice(p) && PickedWait(p, n)
    ensures var r := Charge(Run(RoundRobin, p, cycle));
            && r.status != Unstarted
            && WaitOk(r, n + 1)
            && (Completes(p) ==>
                  && r.status == Terminated
                  && r.finishingTime == AsInt32(Inc(cycle))
                  && r.waitingTime == Wrap(n + 1 - p.job.C + (p.job.C - 1) / 2))
            && (!Completes(p) ==> r.status != Terminated)
  {
    WrapSteps(n - p.cpuTime + p.cpuTime / 2);
  }

  lemma PickedWaits(s: State, jobs: seq<Job>, n: nat)
    requires Inv(RoundRobin, s, jobs) && AllSlicesOk(s) && HasCpu(RoundRobin, s).Some?
    requires WaitOk(s.procs[HasCpu(RoundRobin, s).value], n)
    ensures PickedWait(Picked(RoundRobin, s), n)
  {
    hide Line;
    PickedOk(RoundRobin, s, jobs);
    var i := HasCpu(RoundRobin, s).value;
    if s.running == None {
      PickedWasReady(s, jobs);
    } else {
      assert HoldsCpu(s.procs[i]);
      assert IoOk(RoundRobin, s.procs[i], 0);
    }
  }

  /** What one pass does to the waiting account of process i. */
  lemma WaitStep(s: State, jobs: seq<Job>, i: nat, n: nat)
    requires |jobs| <= MAX && Inv(RoundRobin, s, jobs) && AllSlicesOk(s) && i < |jobs| && WaitOk(s.procs[i], n)
    ensures var r := Step(RoundRobin, s).procs[i];
            && (r.status != Terminated ==> WaitOk(r, if r.status == Unstarted then n else n + 1))
            && (s.procs[i].status != Terminated && r.status == Terminated ==>
                  && r.finishingTime == AsInt32(Inc(s.cycle))
                  && r.waitingTime == Wrap(n + 1 - jobs[i].C + (jobs[i].C - 1) / 2))
  {
    hide Step, Inv, Line, HasCpu, Run, Charge, WaitOk, PickedWait;
    InvBasics(RoundRobin, s, jobs);
    if HasCpu(RoundRobin, s) == Some(i) {
      StepOfChosen(RoundRobin, s, jobs);
      PickedOk(RoundRobin, s, jobs);
      PickedInSlice(s, jobs);
      PickedWaits(s, jobs, n);
      WaitOfRun(Picked(RoundRobin, s), s.cycle, n);
    } else {
      StepOfOther(RoundRobin, s, jobs, i);
      OtherFacts(s, jobs, i);
      WaitOfOther(s.procs[i], s.cycle, n);
      StaysUnterminated(s.procs[i], s.cycle);
    }
  }

  lemma OtherFacts(s: State, jobs: seq<Job>, i: nat)
    requires Inv(RoundRobin, s, jobs) && AllSlicesOk(s) && i < |jobs| && HasCpu(RoundRobin, s) != Some(i)
    ensures TimeOk(s.procs[i]) && SliceOk(s.procs[i]) && IoOk(RoundRobin, s.procs[i], 0) && !HoldsCpu(s.procs[i])
  {
  }

  lemma StaysUnterminated(p: Proc, cycle: nat)
    ensures p.status != Terminated ==> Charge(Admit(p, cycle)).status != Terminated
  {
  }

  lemma {:induction false} WaitAlways(jobs: seq<Job>, i: nat, k: nat)
    requires |jobs| <= MAX && i < |jobs|
    ensures WaitOk(After(RoundRobin, jobs, k).procs[i], PassesSince(jobs, i, k))
  {
    hide Step, Inv, WaitOk;
    if k == 0 {
      FreshWait(jobs, i);
    } else {
      var s := After(RoundRobin, jobs, k - 1);
      WaitAlways(jobs, i, k - 1);
      Reachable(RoundRobin, jobs, k - 1);
      SlicesAlways(jobs, k - 1);
      WaitStep(s, jobs, i, PassesSince(jobs, i, k - 1));
      TerminatedWait(After(RoundRobin, jobs, k).procs[i], PassesSince(jobs, i, k));
    }
  }

  lemma FreshWait(jobs: seq<Job>, i: nat)
    requires i < |jobs|
    ensures WaitOk(Init(jobs).procs[i], 0)
  {
  }

  lemma TerminatedWait(p: Proc, n: nat)
    ensures p.status == Terminated ==> WaitOk(p, n)
  {
  }

  /**
   * Exact accounting on every input: a process completing in its n-th pass since arrival has waited
   * n - C passes, plus one for each of its (C - 1) / 2 preemptions; its finishing time is the number
   * of passes plus the number of processes that finished earlier.
   */
  lemma RrCompletion(jobs: seq<Job>, i: nat, k: nat)
    requires |jobs| <= MAX && i < |jobs|
    requires After(RoundRobin, jobs, k).procs[i].status != Terminated
    requires After(RoundRobin, jobs, k + 1).procs[i].status == Terminated
    ensures var p := After(RoundRobin, jobs, k + 1).procs[i];
            && p.waitingTime == Wrap(PassesSince(jobs, i, k + 1) - jobs[i].C + (jobs[i].C - 1) / 2)
            && p.finishingTime == AsInt32(Wrap(k + 1 + After(RoundRobin, jobs, k).finished))
  {
    hide Step, Inv, WaitOk;
    var s := After(RoundRobin, jobs, k);
    assert After(RoundRobin, jobs, k + 1) == Step(RoundRobin, s);
    Reachable(RoundRobin, jobs, k);
    SlicesAlways(jobs, k);
    WaitAlways(jobs, i, k);
    WaitStep(s, jobs, i, PassesSince(jobs, i, k));
    RrClock(jobs, k);
    WrapSteps(k + s.finished);
  }

  // ----- All arrivals in cycle 0

  predicate AllAtZero(jobs: seq<Job>) {
    forall i :: 0 <= i < |jobs| ==> jobs[i].A == 0
  }

  predicate AllStarted(s: State) {
    forall i :: 0 <= i < |s.procs| ==> s.procs[i].status != Unstarted
  }

  lemma StaysStarted(p: Proc)
    ensures p.status != Unstarted ==> Charge(p).status != Unstarted
  {
  }

  lemma RunIsStarted(p: Proc, cycle: nat)
    requires HoldsCpu(p)
    ensures Charge(Run(RoundRobin, p, cycle)).status != Unstarted
  {
  }

  lemma StartedStep(s: State, jobs: seq<Job>)
    requires |jobs| <= MAX && Inv(RoundRobin, s, jobs)
    requires forall i :: 0 <= i < |jobs| ==> Admit(s.procs[i], s.cycle).status != Unstarted
    ensures AllStarted(Step(RoundRobin, s))
  {
    hide Step, Line, HasCpu, Inv, Picked, Run, Charge;
    InvBasics(RoundRobin, s, jobs);
    forall i: nat | i < |jobs| ensures Step(RoundRobin, s).procs[i].status != Unstarted {
      StaysStarted(Admit(s.procs[i], s.cycle));
      if HasCpu(RoundRobin, s) == Some(i) {
        StepOfChosen(RoundRobin, s, jobs);
        PickedOk(RoundRobin, s, jobs);
        RunIsStarted(Picked(RoundRobin, s), s.cycle);
      } else {
        StepOfOther(RoundRobin, s, jobs, i);
      }
    }
  }

  lemma {:induction false} EverybodyThere(jobs: seq<Job>, k: nat)
    requires |jobs| <= MAX && AllAtZero(jobs)
    ensures k > 0 ==> AllStarted(After(RoundRobin, jobs, k))
    ensures forall i :: 0 <= i < |jobs| ==>
              Admit(After(RoundRobin, jobs, k).procs[i], After(RoundRobin, jobs, k).cycle).status != Unstarted
  {
    hide Step, Inv;
    if k == 0 {
    } else {
      EverybodyThere(jobs, k - 1);
      Reachable(RoundRobin, jobs, k - 1);
      StartedStep(After(RoundRobin, jobs, k - 1), jobs);
    }
  }

  lemma {:induction false} PassesAreAll(jobs: seq<Job>, i: nat, k: nat)
    requires |jobs| <= MAX && AllAtZero(jobs) && i < |jobs|
    ensures PassesSince(jobs, i, k) == k
  {
    hide Step, Inv;
    if k == 0 {
    } else {
      PassesAreAll(jobs, i, k - 1);
      EverybodyThere(jobs, k);
    }
  }

  lemma {:induction false} NeverIdle(jobs: seq<Job>, k: nat)
    requires |jobs| <= MAX && AllAtZero(jobs) && Unfinished(RoundRobin, jobs, k)
    ensures HasCpu(RoundRobin, After(RoundRobin, jobs, k)).Some?
  {
    hide Step, Inv, HasCpu, Line;
    var s := After(RoundRobin, jobs, k);
    Reachable(RoundRobin, jobs, k);
    EverybodyThere(jobs, k);
    IdlePass(RoundRobin, s, jobs);
    SomebodyLeft(RoundRobin, s, jobs);
    var i: nat :| i < |jobs| && s.procs[i].status != Terminated;
    assert Admit(s.procs[i], s.cycle).status != Unstarted;
    assert !CannotRun(s.procs[i], s.cycle);
  }

  lemma {:induction false} WorkAfter(jobs: seq<Job>, k: nat)
    requires |jobs| <= MAX && AllAtZero(jobs) && k <= ExitPass(RoundRobin, jobs)
    ensures Work(After(RoundRobin, jobs, k)) + k == Demand(jobs)
  {
    hide Step, Inv, HasCpu, ExitPass;
    if k == 0 {
      WorkInit(jobs);
    } else {
      WorkAfter(jobs, k - 1);
      EveryRunEnds(RoundRobin, jobs);
      Reachable(RoundRobin, jobs, k - 1);
      NeverIdle(jobs, k - 1);
      WorkStep(RoundRobin, After(RoundRobin, jobs, k - 1), jobs);
    }
  }

  /** With all arrivals in cycle 0: one pass per cycle of demand, and one extra clock step per job. */
  lemma {:induction false} RrRunLength(jobs: seq<Job>)
    requires |jobs| <= MAX && AllAtZero(jobs)
    ensures ExitPass(RoundRobin, jobs) == Demand(jobs)
    ensures After(RoundRobin, jobs, Demand(jobs)).cycle == Wrap(Demand(jobs) + |jobs|)
  {
    hide Step, Inv, ExitPass;
    var e := ExitPass(RoundRobin, jobs);
    EveryRunEnds(RoundRobin, jobs);
    WorkAfter(jobs, e);
    Reachable(RoundRobin, jobs, e);
    AllFinished(RoundRobin, After(RoundRobin, jobs, e), jobs);
    RrClock(jobs, e);
  }

  /** The same accounting with the pass number spelled out. */
  lemma RrCompletionAtZero(jobs: seq<Job>, i: nat, k: nat)
    requires |jobs| <= MAX && AllAtZero(jobs) && i < |jobs|
    requires After(RoundRobin, jobs, k).procs[i].status != Terminated
    requires After(RoundRobin, jobs, k + 1).procs[i].status == Terminated
    ensures After(RoundRobin, jobs, k + 1).procs[i].waitingTime ==
            Wrap(k + 1 - jobs[i].C + (jobs[i].C - 1) / 2)
    ensures After(RoundRobin, jobs, k + 1).procs[i].finishingTime ==
            AsInt32(Wrap(k + 1 + After(RoundRobin, jobs, k).finished))
  {
    hide Step, Inv;
    RrCompletion(jobs, i, k);
    PassesAreAll(jobs, i, k + 1);
  }

  // ----- Skipped arrivals

  /**
   * Not every process arrives at its arrival time: an arrival due in the next cycle is skipped
   * exactly when a process completes in this pass.
   */
  lemma SkippedArrival(jobs: seq<Job>, k: nat, i: nat)
    requires |jobs| <= MAX && i < |jobs|
    requires var s := After(RoundRobin, jobs, k);
             s.procs[i].status == Unstarted && jobs[i].A == Inc(s.cycle)
    ensures var s, r := After(RoundRobin, jobs, k), After(RoundRobin, jobs, k + 1);
            && r.procs[i].status == Unstarted
            && (r.cycle != jobs[i].A <==> HasCpu(RoundRobin, s).Some? && Completes(Picked(RoundRobin, s)))
            && (r.cycle != jobs[i].A ==> r.cycle == Inc(jobs[i].A))
  {
    hide Step, Inv, Line, HasCpu;
    var s := After(RoundRobin, jobs, k);
    Reachable(RoundRobin, jobs, k);
    InvBasics(RoundRobin, s, jobs);
    RrClock(jobs, k);
    assert After(RoundRobin, jobs, k + 1) == Step(RoundRobin, s);
    StepQueues(RoundRobin, s, jobs);
    UnstartedIsNotPicked(s, jobs, i);
    StepOfOther(RoundRobin, s, jobs, i);
  }

  lemma UnstartedIsNotPicked(s: State, jobs: seq<Job>, i: nat)
    requires Inv(RoundRobin, s, jobs) && i < |jobs|
    requires s.procs[i].status == Unstarted && jobs[i].A != s.cycle
    ensures HasCpu(RoundRobin, s) != Some(i)
  {
    LineIsReady(RoundRobin, s, jobs);
  }

  // ----- A skipped arrival waits for the clock to wrap around

  /** Cycles that the clock has advanced in m passes from pass k on, as an unbounded number. */
  function Advance(jobs: seq<Job>, k: nat, m: nat): int {
    m + After(RoundRobin, jobs, k + m).finished - After(RoundRobin, jobs, k).finished
  }

  lemma {:induction false} AdvanceGrows(jobs: seq<Job>, k: nat, m: nat)
    requires |jobs| <= MAX
    ensures Advance(jobs, k, m) >= m
    ensures Advance(jobs, k, m + 1) > Advance(jobs, k, m)
    decreases m
  {
    hide Step, Inv, Line, HasCpu;
    var s := After(RoundRobin, jobs, k + m);
    Reachable(RoundRobin, jobs, k + m);
    assert After(RoundRobin, jobs, k + (m + 1)) == Step(RoundRobin, s);
    StepQueues(RoundRobin, s, jobs);
    if HasCpu(RoundRobin, s).Some? {
      FinishedIncrements(RoundRobin, s, jobs);
    }
    if m == 0 {
    } else {
      AdvanceGrows(jobs, k, m - 1);
    }
  }

  lemma UnstartedStays(s: State, jobs: seq<Job>, i: nat)
    requires Inv(RoundRobin, s, jobs) && |jobs| <= MAX && i < |jobs|
    requires s.procs[i].status == Unstarted && s.cycle != jobs[i].A
    ensures Step(RoundRobin, s).procs[i].status == Unstarted
  {
    hide Step, Line, HasCpu;
    UnstartedIsNotPicked(s, jobs, i);
    StepOfOther(RoundRobin, s, jobs, i);
  }

  /** The clock comes round to A only MAX cycles after it stood just behind A. */
  lemma {:induction false} ClockIsElsewhere(jobs: seq<Job>, k: nat, m: nat, A: nat)
    requires |jobs| <= MAX && A <= MAX && After(RoundRobin, jobs, k).cycle == Inc(A)
    requires Advance(jobs, k, m) < MAX
    ensures After(RoundRobin, jobs, k + m).cycle != A
  {
    hide Step;
    RrClock(jobs, k);
    RrClock(jobs, k + m);
    AdvanceGrows(jobs, k, m);
  }

  /** Any skipped process stays unstarted until the clock has gone round all of its 2^32 values. */
  lemma {:induction false} SkippedArrivalIsVeryLate(jobs: seq<Job>, i: nat, k: nat, m: nat)
    requires |jobs| <= MAX && i < |jobs|
    requires var s := After(RoundRobin, jobs, k);
             s.procs[i].status == Unstarted && s.cycle == Inc(jobs[i].A)
    requires m > 0 ==> Advance(jobs, k, m - 1) < MAX
    ensures After(RoundRobin, jobs, k + m).procs[i].status == Unstarted
  {
    hide Step, Inv, Wrap, Inc;
    if m == 0 {
    } else {
      var s := After(RoundRobin, jobs, k + (m - 1));
      if m > 1 {
        AdvanceGrows(jobs, k, m - 2);
      }
      SkippedArrivalIsVeryLate(jobs, i, k, m - 1);
      Reachable(RoundRobin, jobs, k + (m - 1));
      ClockIsElsewhere(jobs, k, m - 1, jobs[i].A);
      UnstartedStays(s, jobs, i);
      assert After(RoundRobin, jobs, k + m) == Step(RoundRobin, s);
    }
  }

  /** A run in which an arrival is skipped takes about 2^32 passes. */
  lemma {:induction false} SkippingRunIsVeryLong(jobs: seq<Job>, i: nat, k: nat)
    requires |jobs| <= MAX && i < |jobs|
    requires var s := After(RoundRobin, jobs, k);
             s.procs[i].status == Unstarted && s.cycle == Inc(jobs[i].A)
    ensures ExitPass(RoundRobin, jobs) + |jobs| >= k + After(RoundRobin, jobs, k).finished + MAX + 2
  {
    hide Step, Inv, ExitPass;
    var e := ExitPass(RoundRobin, jobs);
    EveryRunEnds(RoundRobin, jobs);
    if e <= k {
      RecordIsFinal(RoundRobin, jobs, i, e, k - e);
    } else if Advance(jobs, k, e - k - 1) < MAX {
      SkippedArrivalIsVeryLate(jobs, i, k, e - k);
    } else {
      Reachable(RoundRobin, jobs, e - 1);
      AllFinished(RoundRobin, After(RoundRobin, jobs, e - 1), jobs);
      assert Unfinished(RoundRobin, jobs, e - 1);
    }
  }

  // ----- Runs that skip nobody

  /** Pass k begins in the cycle after the arrival time of process i, which has not been admitted. */
  predicate IsSkippedAt(jobs: seq<Job>, k: nat, i: nat)
    requires i < |jobs|
  {
    After(RoundRobin, jobs, k).procs[i].status == Unstarted && After(RoundRobin, jobs, k).cycle == Inc(jobs[i].A)
  }

  ghost predicate SkipsNobody(jobs: seq<Job>) {
    forall k: nat, i: nat :: i < |jobs| ==> !IsSkippedAt(jobs, k, i)
  }

  /** Everybody who has not been admitted is still to come on the clock. */
  predicate NobodyMissed(s: State, jobs: seq<Job>, clock: nat)
    requires |s.procs| == |jobs|
  {
    s.cycle == clock && forall i :: 0 <= i < |jobs| ==> s.procs[i].status == Unstarted ==> clock <= jobs[i].A
  }

  lemma AdmittedInTime(s: State, jobs: seq<Job>, i: nat)
    requires Inv(RoundRobin, s, jobs) && |jobs| <= MAX && i < |jobs|
    requires Step(RoundRobin, s).procs[i].status == Unstarted
    ensures s.procs[i].status == Unstarted && s.cycle != jobs[i].A
  {
    hide Step, Line, HasCpu;
    if HasCpu(RoundRobin, s) == Some(i) {
      StepOfChosen(RoundRobin, s, jobs);
      PickedOk(RoundRobin, s, jobs);
      RunIsStarted(Picked(RoundRobin, s), s.cycle);
    } else {
      StepOfOther(RoundRobin, s, jobs, i);
    }
  }

  lemma {:induction false} NobodyIsMissed(jobs: seq<Job>, k: nat)
    requires |jobs| <= MAX && SkipsNobody(jobs) && k + |jobs| <= MAX
    ensures NobodyMissed(After(RoundRobin, jobs, k), jobs, k + After(RoundRobin, jobs, k).finished)
  {
    hide Step, Inv, SkipsNobody;
    RrClock(jobs, k);
    if k == 0 {
    } else {
      NobodyIsMissed(jobs, k - 1);
      RrClock(jobs, k - 1);
      AdvanceGrows(jobs, k - 1, 0);
      var s, r := After(RoundRobin, jobs, k - 1), After(RoundRobin, jobs, k);
      Reachable(RoundRobin, jobs, k - 1);
      AtMostOneMore(s, jobs);
      forall i: nat | i < |jobs| && r.procs[i].status == Unstarted ensures k + r.finished <= jobs[i].A {
        AdmittedInTime(s, jobs, i);
        NotSkippedAt(jobs, k, i);
      }
    }
  }

  lemma NotSkippedAt(jobs: seq<Job>, k: nat, i: nat)
    requires SkipsNobody(jobs) && i < |jobs|
    ensures !IsSkippedAt(jobs, k, i)
  {
  }

  lemma AtMostOneMore(s: State, jobs: seq<Job>)
    requires Inv(RoundRobin, s, jobs) && |jobs| <= MAX
    ensures s.finished <= Step(RoundRobin, s).finished <= s.finished + 1
  {
    hide Step, Line, HasCpu;
    StepQueues(RoundRobin, s, jobs);
    if HasCpu(RoundRobin, s).Some? {
      FinishedIncrements(RoundRobin, s, jobs);
    }
  }

  /** An idle pass of an unfinished run lies before the last arrival. */
  lemma IdleIsEarly(s: State, jobs: seq<Job>, clock: nat, last: nat)
    requires Inv(RoundRobin, s, jobs) && |jobs| <= MAX && s.finished < |jobs| && HasCpu(RoundRobin, s) == None
    requires NobodyMissed(s, jobs, clock) && forall i :: 0 <= i < |jobs| ==> jobs[i].A <= last
    ensures clock < last
  {
    hide Line, HasCpu;
    IdlePass(RoundRobin, s, jobs);
    SomebodyLeft(RoundRobin, s, jobs);
    var i: nat :| i < |jobs| && s.procs[i].status != Terminated;
    assert CannotRun(s.procs[i], s.cycle);
  }

  /** Each pass so far did a cycle of work or moved the clock towards the last arrival. */
  lemma {:induction false} PassesAreUsed(jobs: seq<Job>, last: nat, k: nat)
    requires |jobs| <= MAX && SkipsNobody(jobs) && k + |jobs| <= MAX
    requires forall i :: 0 <= i < |jobs| ==> jobs[i].A <= last
    requires forall j: nat :: j < k ==> Unfinished(RoundRobin, jobs, j)
    ensures var s := After(RoundRobin, jobs, k);
            var clock := k + s.finished;
            k + Work(s) <= Demand(jobs) + if clock <= last then clock else last
  {
    hide Step, Inv, HasCpu, SkipsNobody, NobodyMissed;
    if k == 0 {
      WorkInit(jobs);
    } else {
      PassesAreUsed(jobs, last, k - 1);
      var s := After(RoundRobin, jobs, k - 1);
      Reachable(RoundRobin, jobs, k - 1);
      NobodyIsMissed(jobs, k - 1);
      WorkStep(RoundRobin, s, jobs);
      AtMostOneMore(s, jobs);
      assert Unfinished(RoundRobin, jobs, k - 1);
      if HasCpu(RoundRobin, s) == None {
        IdleIsEarly(s, jobs, k - 1 + s.finished, last);
      }
    }
  }

  /**
   * While the clock does not wrap around, a round-robin run meets the bound of FCFS and SJF, the last
   * arrival plus the total demand, exactly if it skips no arrival.
   */
  lemma {:induction false} RrExitBound(jobs: seq<Job>, last: nat)
    requires forall i :: 0 <= i < |jobs| ==> jobs[i].A <= last
    requires last + Demand(jobs) + |jobs| <= MAX
    ensures ExitPass(RoundRobin, jobs) <= last + Demand(jobs) <==> SkipsNobody(jobs)
  {
    hide Step, Inv, ExitPass, IsSkippedAt;
    var e, bound := ExitPass(RoundRobin, jobs), last + Demand(jobs);
    EveryRunEnds(RoundRobin, jobs);
    if !SkipsNobody(jobs) {
      var k: nat, i: nat :| i < |jobs| && IsSkippedAt(jobs, k, i);
      SkipIsLong(jobs, k, i);
    } else if e > bound {
      assert Unfinished(RoundRobin, jobs, bound);
      PassesAreUsed(jobs, last, bound);
      Reachable(RoundRobin, jobs, bound);
      AllFinished(RoundRobin, After(RoundRobin, jobs, bound), jobs);
    }
  }

  lemma SkipIsLong(jobs: seq<Job>, k: nat, i: nat)
    requires |jobs| <= MAX && i < |jobs| && IsSkippedAt(jobs, k, i)
    ensures ExitPass(RoundRobin, jobs) + |jobs| >= MAX + 2
  {
    hide Step, ExitPass;
    SkippingRunIsVeryLong(jobs, i, k);
  }

  // ----- The smallest run that skips an arrival

  /** The second job is due in the cycle that the first one's completion skips. */
  function SkippingJobs(): seq<Job> {
    [JobInput(0, 1, 1), JobInput(1, 1, 1)]
  }

  lemma PickedAtStart(s: State)
    requires Indexed(s) && s.running == None && HasCpu(RoundRobin, s).Some?
    ensures Picked(RoundRobin, s) == Start(RoundRobin, Admit(s.procs[HasCpu(RoundRobin, s).value], s.cycle))
  {
  }

  lemma FirstPass()
    ensures HasCpu(RoundRobin, Init(SkippingJobs())) == Some(0)
    ensures Completes(Picked(RoundRobin, Init(SkippingJobs())))
  {
    hide Line, HasCpu, Inv;
    var jobs := SkippingJobs();
    var s := Init(jobs);
    Reachable(RoundRobin, jobs, 0);
    IdlePass(RoundRobin, s, jobs);
    assert !CannotRun(s.procs[0], s.cycle);
    PickedWasReady(s, jobs);
    PickedAtStart(s);
    assert Admit(s.procs[1], s.cycle).status == Unstarted;
  }

  lemma SecondIsSkipped()
    ensures var s := After(RoundRobin, SkippingJobs(), 1);
            s.finished == 1 && s.cycle == 2 && s.procs[1].status == Unstarted
  {
    hide Step, Inv, HasCpu, Line, Picked;
    var jobs := SkippingJobs();
    var s := After(RoundRobin, jobs, 0);
    Reachable(RoundRobin, jobs, 0);
    FirstPass();
    assert After(RoundRobin, jobs, 1) == Step(RoundRobin, s);
    StepQueues(RoundRobin, s, jobs);
    StepOfOther(RoundRobin, s, jobs, 1);
  }

  /** Two one-cycle jobs that FCFS finishes in at most 3 passes keep round robin busy for over 2^32. */
  lemma TwoJobsTakeForever()
    ensures ExitPass(RoundRobin, SkippingJobs()) > MAX + 1
    ensures ExitPass(Fcfs, SkippingJobs()) <= 3
  {
    hide Step, Inv, ExitPass;
    var jobs := SkippingJobs();
    SecondIsSkipped();
    SkippingRunIsVeryLong(jobs, 1, 1);
    assert jobs[..2] == jobs && jobs[..1] == [jobs[0]];
    assert Demand(jobs) == 2;
    NonPreemptive.ExitBound(Fcfs, jobs, 1);
  }
}
