// The blocked queue, and the record fields that a loop leaves alone.
module BlockedQueue {
  import opened UInt32
  import opened Wrappers
  import opened SchedulerModel
  import opened SchedulerSafety
  import opened Accounting
  import opened RoundRobinRun

  // ----- Who is on the blocked queue

  /** How often p has blocked: at each multiple of B that it reached without completing. */
  function BlocksTaken(p: Proc): int {
    if p.status == Terminated then (p.job.C - 1) / p.job.B else p.cpuTime / p.job.B
  }

  predicate Listed(s: State, i: nat)
    requires i < |s.procs|
  {
    multiset(s.blocked)[i] == BlocksTaken(s.procs[i])
  }

  lemma TakenKept(p: Proc, cycle: nat)
    ensures BlocksTaken(Charge(Admit(p, cycle))) == BlocksTaken(p)
  {
  }

  lemma TakenByRun(alg: Algorithm, p: Proc, cycle: nat)
    requires alg != RoundRobin && TimeOk(p) && HoldsCpu(p)
    ensures BlocksTaken(Charge(Run(alg, p, cycle))) == BlocksTaken(p) + if Blocks(alg, p) then 1 else 0
  {
    NextQuotient(p.cpuTime, p.job.B);
  }

  lemma TakenPicked(alg: Algorithm, s: State, jobs: seq<Job>)
    requires Inv(alg, s, jobs) && HasCpu(alg, s).Some?
    ensures HasCpu(alg, s).value < |jobs|
    ensures BlocksTaken(Picked(alg, s)) == BlocksTaken(s.procs[HasCpu(alg, s).value])
  {
    HasCpuIsReady(alg, s, jobs);
  }

  lemma OneMore(q: seq<nat>, x: nat, i: nat)
    ensures multiset(q + [x])[i] == multiset(q)[i] + if i == x then 1 else 0
  {
  }

  lemma ListedStep(alg: Algorithm, s: State, jobs: seq<Job>, i: nat)
    requires alg != RoundRobin && |jobs| <= MAX && Inv(alg, s, jobs) && i < |jobs|
    requires |s.procs| == |jobs| && Listed(s, i)
    ensures Listed(Step(alg, s), i)
  {
    hide Step, Inv, Line, HasCpu, Picked, BlocksTaken;
    InvBasics(alg, s, jobs);
    StepQueues(alg, s, jobs);
    if HasCpu(alg, s).Some? {
      OneMore(s.blocked, HasCpu(alg, s).value, i);
    }
    if HasCpu(alg, s) == Some(i) {
      StepOfChosen(alg, s, jobs);
      PickedOk(alg, s, jobs);
      TakenPicked(alg, s, jobs);
      TakenByRun(alg, Picked(alg, s), s.cycle);
    } else {
      StepOfOther(alg, s, jobs, i);
      TakenKept(s.procs[i], s.cycle);
    }
  }

  /**
   * Under FCFS and SJF nobody ever leaves the blocked queue, so it holds each process once for every time
   * it blocked: once per B cycles of CPU time, not counting the cycle in which it completes.
   */
  lemma {:induction false} BlockedEntries(alg: Algorithm, jobs: seq<Job>, k: nat, i: nat)
    requires alg != RoundRobin && |jobs| <= MAX && i < |jobs|
    ensures Listed(After(alg, jobs, k), i)
    ensures var s := After(alg, jobs, k);
            multiset(s.blocked)[i] ==
            if s.procs[i].status == Terminated then (jobs[i].C - 1) / jobs[i].B else s.procs[i].cpuTime / jobs[i].B
  {
    hide Step, Inv;
    if k == 0 {
      NobodyListed(jobs, i);
    } else {
      BlockedEntries(alg, jobs, k - 1, i);
      Reachable(alg, jobs, k - 1);
      ListedStep(alg, After(alg, jobs, k - 1), jobs, i);
    }
    Reachable(alg, jobs, k);
    InvAt(alg, After(alg, jobs, k), jobs, i);
  }

  lemma NobodyListed(jobs: seq<Job>, i: nat)
    requires i < |jobs|
    ensures Listed(Init(jobs), i)
  {
    ZeroQuotient(jobs[i].B);
  }

  /** The queue is in the order of blocking: in each pass it gains at most the process that blocks, at its rear. */
  lemma {:induction false} BlockedInOrder(alg: Algorithm, jobs: seq<Job>, k: nat, m: nat)
    requires |jobs| <= MAX
    ensures After(alg, jobs, k).blocked <= After(alg, jobs, k + m).blocked
    ensures var s := After(alg, jobs, k);
            After(alg, jobs, k + 1).blocked ==
            s.blocked + if HasCpu(alg, s).Some? && Blocks(alg, Picked(alg, s)) then [HasCpu(alg, s).value] else []
  {
    hide Step, Inv, HasCpu, Picked, Blocks;
    Reachable(alg, jobs, k);
    StepQueues(alg, After(alg, jobs, k), jobs);
    assert After(alg, jobs, k + 1) == Step(alg, After(alg, jobs, k));
    if m == 0 {
    } else {
      BlockedInOrder(alg, jobs, k, m - 1);
      Reachable(alg, jobs, k + (m - 1));
      StepQueues(alg, After(alg, jobs, k + (m - 1)), jobs);
      assert After(alg, jobs, k + m) == Step(alg, After(alg, jobs, k + (m - 1)));
    }
  }

  /** Round robin never blocks anybody. */
  lemma {:induction false} NobodyBlocks(jobs: seq<Job>, k: nat)
    requires |jobs| <= MAX
    ensures After(RoundRobin, jobs, k).blocked == []
  {
    hide Step, HasCpu, Picked, Line;
    if k == 0 {
    } else {
      NobodyBlocks(jobs, k - 1);
      BlockedInOrder(RoundRobin, jobs, k - 1, 1);
    }
  }

  // ----- Fields that stay as they were read

  predicate Untouched(alg: Algorithm, p: Proc) {
    && (p.status != Terminated ==> p.finishingTime == -1)
    && (alg != RoundRobin || p.status == Unstarted ==> p.quantum == -1)
    && (alg == RoundRobin && p.status == Ready ==> p.quantum == if p.cpuTime == 0 then -1 else 0)
  }

  predicate AllUntouched(alg: Algorithm, s: State) {
    forall i :: 0 <= i < |s.procs| ==> Untouched(alg, s.procs[i])
  }

  lemma UntouchedByOther(alg: Algorithm, p: Proc, cycle: nat)
    requires Untouched(alg, p) && TimeOk(p) && IoOk(alg, p, 0)
    ensures Untouched(alg, Charge(Admit(p, cycle)))
  {
  }

  lemma UntouchedByRun(alg: Algorithm, p: Proc, cycle: nat)
    requires TimeOk(p) && HoldsCpu(p) && p.finishingTime == -1
    requires if alg == RoundRobin then PickedSlice(p) else p.quantum == -1
    ensures Untouched(alg, Charge(Run(alg, p, cycle)))
  {
  }

  lemma PickedUntouched(alg: Algorithm, s: State, jobs: seq<Job>)
    requires Inv(alg, s, jobs) && HasCpu(alg, s).Some? && AllUntouched(alg, s)
    ensures Picked(alg, s).finishingTime == -1
    ensures alg != RoundRobin ==> Picked(alg, s).quantum == -1
  {
    PickedOk(alg, s, jobs);
    HasCpuIsReady(alg, s, jobs);
    assert Untouched(alg, s.procs[HasCpu(alg, s).value]);
  }

  lemma UntouchedStep(alg: Algorithm, s: State, jobs: seq<Job>)
    requires Inv(alg, s, jobs) && |jobs| <= MAX && AllUntouched(alg, s)
    requires alg == RoundRobin ==> AllSlicesOk(s)
    ensures AllUntouched(alg, Step(alg, s))
  {
    hide Step, Line, HasCpu, Picked, Inv, Untouched, PickedSlice;
    InvBasics(alg, s, jobs);
    forall i: nat | i < |jobs| ensures Untouched(alg, Step(alg, s).procs[i]) {
      if HasCpu(alg, s) == Some(i) {
        StepOfChosen(alg, s, jobs);
        PickedOk(alg, s, jobs);
        PickedUntouched(alg, s, jobs);
        if alg == RoundRobin {
          PickedInSlice(s, jobs);
        }
        UntouchedByRun(alg, Picked(alg, s), s.cycle);
      } else {
        StepOfOther(alg, s, jobs, i);
        InvAt(alg, s, jobs, i);
        UntouchedByOther(alg, s.procs[i], s.cycle);
      }
    }
  }

  /** Until it terminates a process reports -1; only round robin uses the quantum, which ends at 0. */
  lemma {:induction false} UntouchedAlways(alg: Algorithm, jobs: seq<Job>, k: nat)
    requires |jobs| <= MAX
    ensures AllUntouched(alg, After(alg, jobs, k))
  {
    hide Step, Inv, AllUntouched, AllSlicesOk;
    if k == 0 {
      NothingTouched(alg, jobs);
    } else {
      UntouchedAlways(alg, jobs, k - 1);
      Reachable(alg, jobs, k - 1);
      if alg == RoundRobin {
        SlicesAlways(jobs, k - 1);
      }
      UntouchedStep(alg, After(alg, jobs, k - 1), jobs);
    }
  }

  lemma NothingTouched(alg: Algorithm, jobs: seq<Job>)
    ensures AllUntouched(alg, Init(jobs))
  {
  }
}
