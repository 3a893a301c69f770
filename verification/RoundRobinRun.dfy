// Round robin: slices, accounting, bounded waiting, and the arrivals its clock skips.
module RoundRobinRun {
  import opened UInt32
  import opened Wrappers
  import opened SchedulerModel
  import opened SchedulerSafety

  // ----- Slices of two

  predicate SliceOk(p: Proc) {
    && (p.status == Ready ==> p.cpuTime % 2 == 0)
    && (p.status == Running ==> p.cpuTime % 2 == 1 && p.quantum == 1)
  }

  predicate AllSlicesOk(s: State) {
    forall i :: 0 <= i < |s.procs| ==> SliceOk(s.procs[i])
  }

  /** The picked process has run none of its slice, or one cycle of it. */
  predicate PickedSlice(p: Proc) {
    p.status == Running && (p.quantum == 1 || p.quantum == 2) && p.cpuTime % 2 == p.quantum % 2
  }

  lemma PickedInSlice(s: State, jobs: seq<Job>)
    requires Inv(RoundRobin, s, jobs) && AllSlicesOk(s) && HasCpu(RoundRobin, s).Some?
    ensures PickedSlice(Picked(RoundRobin, s)) && TimeOk(Picked(RoundRobin, s))
    ensures s.running == None <==> Picked(RoundRobin, s).quantum == 2
  {
    hide Line;
    PickedOk(RoundRobin, s, jobs);
    var i := HasCpu(RoundRobin, s).value;
    assert SliceOk(s.procs[i]);
    if s.running == None {
      PickedWasReady(s, jobs);
    }
  }

  lemma PickedWasReady(s: State, jobs: seq<Job>)
    requires Inv(RoundRobin, s, jobs) && s.running == None && HasCpu(RoundRobin, s).Some?
    ensures var i := HasCpu(RoundRobin, s).value;
            i < |jobs| && Admit(s.procs[i], s.cycle).status == Ready && TimeOk(s.procs[i])
  {
    LineIsReady(RoundRobin, s, jobs);
  }

  lemma SliceOfRun(p: Proc, cycle: nat)
    requires PickedSlice(p) && TimeOk(p)
    ensures SliceOk(Charge(Run(RoundRobin, p, cycle)))
    ensures !Completes(p) ==> (IsPreempted(RoundRobin, p) <==> p.quantum == 1)
  {
  }

  lemma SlicesStep(s: State, jobs: seq<Job>)
    requires |jobs| <= MAX && Inv(RoundRobin, s, jobs) && AllSlicesOk(s)
    ensures AllSlicesOk(Step(RoundRobin, s))
  {
    hide Step, Line, HasCpu, Run, Charge;
    InvBasics(RoundRobin, s, jobs);
    forall i: nat | i < |jobs| ensures SliceOk(Step(RoundRobin, s).procs[i]) {
      if HasCpu(RoundRobin, s) == Some(i) {
        StepOfChosen(RoundRobin, s, jobs);
        PickedInSlice(s, jobs);
        SliceOfRun(Picked(RoundRobin, s), s.cycle);
      } else {
        StepOfOther(RoundRobin, s, jobs, i);
        SliceOfOther(s, jobs, i);
      }
    }
  }

  lemma SliceOfOther(s: State, jobs: seq<Job>, i: nat)
    requires Inv(RoundRobin, s, jobs) && AllSlicesOk(s) && i < |jobs|
    ensures SliceOk(Charge(Admit(s.procs[i], s.cycle)))
  {
    assert TimeOk(s.procs[i]) && IoOk(RoundRobin, s.procs[i], 0) && SliceOk(s.procs[i]);
  }

  lemma {:induction false} SlicesAlways(jobs: seq<Job>, k: nat)
    requires |jobs| <= MAX
    ensures AllSlicesOk(After(RoundRobin, jobs, k))
  {
    hide Step, Inv;
    if k == 0 {
    } else {
      SlicesAlways(jobs, k - 1);
      Reachable(RoundRobin, jobs, k - 1);
      SlicesStep(After(RoundRobin, jobs, k - 1), jobs);
    }
  }

  /** The CPU is free at the top of a pass unless a slice has exactly one cycle left. */
  lemma SliceEnds(jobs: seq<Job>, k: nat)
    requires |jobs| <= MAX && After(RoundRobin, jobs, k).running.Some?
    ensures After(RoundRobin, jobs, k + 1).running == None
  {
    hide Step, Inv, Line, HasCpu;
    var s := After(RoundRobin, jobs, k);
    Reachable(RoundRobin, jobs, k);
    SlicesAlways(jobs, k);
    InvBasics(RoundRobin, s, jobs);
    BusyHasCpu(s);
    PickedInSlice(s, jobs);
    SliceOfRun(Picked(RoundRobin, s), s.cycle);
    StepQueues(RoundRobin, s, jobs);
    assert After(RoundRobin, jobs, k + 1) == Step(RoundRobin, s);
  }

  lemma BusyHasCpu(s: State)
    requires Indexed(s) && s.running.Some?
    ensures HasCpu(RoundRobin, s) == s.running
  {
  }

  // ----- Bounded waiting

  predicate DispatchedIn(jobs: seq<Job>, k: nat, i: nat) {
    After(RoundRobin, jobs, k).running == None && HasCpu(RoundRobin, After(RoundRobin, jobs, k)) == Some(i)
  }

  /** Round robin keeps the ready queue in order: arrivals, by their place in the list, go to its rear. */
  lemma RrLine(s: State)
    requires Indexed(s)
    ensures Line(RoundRobin, s) == s.ready + NewArrivals(s.procs, s.cycle, |s.procs|)
    ensures s.ready <= Line(RoundRobin, s)
  {
  }

  /** How the queue moves in one pass: nobody overtakes. */
  lemma QueueMoves(s: State, jobs: seq<Job>, pos: nat)
    requires |jobs| <= MAX && Inv(RoundRobin, s, jobs) && AllSlicesOk(s) && pos < |s.ready|
    ensures Indexed(s)
    ensures s.running.Some? ==>
              var r := Step(RoundRobin, s);
              r.running == None && pos < |r.ready| && r.ready[pos] == s.ready[pos]
    ensures s.running == None ==>
              && HasCpu(RoundRobin, s) == Some(s.ready[0])
              && (pos > 0 ==>
                    var r := Step(RoundRobin, s);
                    pos - 1 < |r.ready| && r.ready[pos - 1] == s.ready[pos])
  {
    hide Step, Inv, Line;
    InvBasics(RoundRobin, s, jobs);
    RrLine(s);
    StepQueues(RoundRobin, s, jobs);
    PickedInSlice(s, jobs);
    SliceOfRun(Picked(RoundRobin, s), s.cycle);
  }

  /** A process at position pos of the ready queue is dispatched within 2 * pos + 1 passes. */
  lemma {:induction false} BoundedWaiting(jobs: seq<Job>, k: nat, pos: nat) returns (d: nat)
    requires |jobs| <= MAX && pos < |After(RoundRobin, jobs, k).ready|
    ensures d <= 2 * pos + 1
    ensures DispatchedIn(jobs, k + d, After(RoundRobin, jobs, k).ready[pos])
    decreases pos, After(RoundRobin, jobs, k).running.Some?
  {
    hide Step, Inv, HasCpu;
    var s := After(RoundRobin, jobs, k);
    Reachable(RoundRobin, jobs, k);
    SlicesAlways(jobs, k);
    QueueMoves(s, jobs, pos);
    assert After(RoundRobin, jobs, k + 1) == Step(RoundRobin, s);
    if s.running == None {
      if pos == 0 {
        d := 0;
      } else {
        d := BoundedWaiting(jobs, k + 1, pos - 1);
        d := d + 1;
      }
    } else {
      d := BoundedWaitingFree(jobs, k + 1, pos);
      d := d + 1;
    }
  }

  /** The same when the CPU is free: the queue advances by one every two passes. */
  lemma BoundedWaitingFree(jobs: seq<Job>, k: nat, pos: nat) returns (d: nat)
    requires |jobs| <= MAX && pos < |After(RoundRobin, jobs, k).ready|
    requires After(RoundRobin, jobs, k).running == None
    ensures d <= 2 * pos
    ensures DispatchedIn(jobs, k + d, After(RoundRobin, jobs, k).ready[pos])
    decreases pos, false
  {
    hide Step, Inv, HasCpu;
    var s := After(RoundRobin, jobs, k);
    Reachable(RoundRobin, jobs, k);
    SlicesAlways(jobs, k);
    QueueMoves(s, jobs, pos);
    assert After(RoundRobin, jobs, k + 1) == Step(RoundRobin, s);
    if pos == 0 {
      d := 0;
    } else {
      d := BoundedWaiting(jobs, k + 1, pos - 1);
      d := d + 1;
    }
  }
}
