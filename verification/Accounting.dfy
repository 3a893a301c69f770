// FCFS and SJF: what the waiting, blocked and finishing counters of a process mean.
module Accounting {
  import opened UInt32
  import opened Wrappers
  import opened SchedulerModel
  import opened SchedulerSafety
  import opened SchedulerTermination
  import opened NonPreemptive

  /** Before pass t: cycles since arrival that were not run, plus one for every I/O block taken. */
  function Waited(p: Proc, t: nat): int {
    t - p.cpuTime - p.job.A + p.cpuTime / p.job.B
  }

  /** Waiting time of a process that ran its last cycle in pass t - 1. */
  function WaitedAtEnd(j: Job, t: int): int {
    t - j.C - j.A + (j.C - 1) / j.B
  }

  predicate WaitingOk(alg: Algorithm, p: Proc, t: nat) {
    match p.status
    case Unstarted => p.waitingTime == 0
    case Ready => t >= p.job.A && p.waitingTime == Wrap(t - p.job.A)
    case Running => t - p.cpuTime >= p.job.A && p.waitingTime == Wrap(Waited(p, t))
    case Blocked => t - p.cpuTime >= p.job.A && p.waitingTime == Wrap(Waited(p, t))
    case Terminated => exists e: nat :: e <= t && EndRecord(alg, p, e)
  }

  /** What pass e - 1 leaves in the record of the process that completes in it. */
  predicate EndRecord(alg: Algorithm, p: Proc, e: nat) {
    && p.status == Terminated
    && p.job.A + p.job.C <= e
    && p.blockedTime == (if p.job.C > p.job.B then p.job.C - p.job.B else 0)
    && (alg == Sjf ==>
          && p.finishingTime == AsInt32(Wrap(e))
          && p.waitingTime == Wrap(WaitedAtEnd(p.job, e)))
    && (alg == Fcfs ==>
          && p.waitingTime == Wrap(WaitedAtEnd(p.job, e) - 1)
          && p.finishingTime == AsInt32(Wrap(WaitedAtEnd(p.job, e) - 1 + p.job.C + p.blockedTime)))
  }

  lemma NextQuotient(x: nat, B: nat)
    requires B > 0
    ensures (x + 1) / B == x / B + if (x + 1) % B == 0 then 1 else 0
  {
    var q, m := x / B, x % B;
    assert x == q * B + m;
    if m + 1 == B {
      assert x + 1 == (q + 1) * B;
      DivMod(x + 1, B, q + 1, 0);
    } else {
      DivMod(x + 1, B, q, m + 1);
    }
  }

  lemma DivMod(x: nat, B: nat, q: nat, m: nat)
    requires B > 0 && x == q * B + m && m < B
    ensures x / B == q && x % B == m
  {
    var d := x / B - q;
    assert d * B == m - x % B;
    assert (d >= 1 ==> d * B >= B) && (d <= -1 ==> d * B <= 0 - B);
  }

  lemma ZeroQuotient(B: nat)
    requires B > 0
    ensures 0 / B == 0
  {
  }

  /** Charging a process that is not using the CPU in pass t. */
  lemma WaitingOfOther(alg: Algorithm, p: Proc, t: nat)
    requires WaitingOk(alg, p, t) && !HoldsCpu(p) && TimeOk(p)
    requires p.status == Unstarted ==> t <= p.job.A
    ensures WaitingOk(alg, Charge(Admit(p, Wrap(t))), t + 1)
  {
    WrapSteps(t - p.job.A);
  }

  /** The process about to run in pass t. */
  predicate PickedWaiting(p: Proc, t: nat) {
    t - p.cpuTime >= p.job.A && p.waitingTime == Wrap(Waited(p, t))
  }

  lemma WaitingOfLastRun(alg: Algorithm, p: Proc, t: nat)
    requires alg != RoundRobin && TimeOk(p) && HoldsCpu(p) && IoOk(alg, p, 0) && PickedWaiting(p, t)
    requires Completes(p)
    ensures var r := Charge(Run(alg, p, Wrap(t)));
            EndRecord(alg, r, t + 1) && WaitingOk(alg, r, t + 1)
  {
    hide Wrap;
    WrapSteps(Waited(p, t));
    WrapSteps(t);
    assert Waited(p, t) == WaitedAtEnd(p.job, t + 1);
    WrapInside(Waited(p, t) - 1, p.job.C + p.blockedTime);
  }

  /** The record right after a cycle that does not complete the process. */
  lemma AfterNextRun(alg: Algorithm, p: Proc, t: nat)
    requires alg != RoundRobin && TimeOk(p) && HoldsCpu(p) && PickedWaiting(p, t) && !Completes(p)
    ensures var r := Run(alg, p, Wrap(t));
            && HoldsCpu(r) && r.job == p.job && r.cpuTime == p.cpuTime + 1
            && r.waitingTime == Wrap(Waited(r, t + 1))
  {
    hide Wrap;
    WrapSteps(Waited(p, t));
    NextQuotient(p.cpuTime, p.job.B);
    var r := Run(alg, p, Wrap(t));
    assert Waited(r, t + 1) == Waited(p, t) + if (p.cpuTime + 1) % p.job.B == 0 then 1 else 0;
  }

  lemma WaitingOfNextRun(alg: Algorithm, p: Proc, t: nat)
    requires alg != RoundRobin && TimeOk(p) && HoldsCpu(p) && IoOk(alg, p, 0) && PickedWaiting(p, t)
    requires !Completes(p)
    ensures WaitingOk(alg, Charge(Run(alg, p, Wrap(t))), t + 1)
  {
    hide Wrap, IoOk, Run, EndRecord, Waited;
    AfterNextRun(alg, p, t);
    IoRun(alg, p, Wrap(t));
    IoCharge(alg, Run(alg, p, Wrap(t)));
    SameWaited(Run(alg, p, Wrap(t)), Charge(Run(alg, p, Wrap(t))), t + 1);
  }

  lemma SameWaited(p: Proc, q: Proc, t: nat)
    requires q.job == p.job && q.cpuTime == p.cpuTime
    ensures Waited(q, t) == Waited(p, t)
  {
  }

  lemma WaitingOfRun(alg: Algorithm, p: Proc, t: nat)
    requires alg != RoundRobin && TimeOk(p) && HoldsCpu(p) && IoOk(alg, p, 0) && PickedWaiting(p, t)
    ensures var r := Charge(Run(alg, p, Wrap(t)));
            && WaitingOk(alg, r, t + 1)
            && (Completes(p) ==> EndRecord(alg, r, t + 1))
  {
    hide WaitingOk, EndRecord, PickedWaiting, IoOk, Run, Charge;
    if Completes(p) {
      WaitingOfLastRun(alg, p, t);
    } else {
      WaitingOfNextRun(alg, p, t);
    }
  }

  predicate AllWaiting(alg: Algorithm, s: State, t: nat) {
    forall i :: 0 <= i < |s.procs| ==> WaitingOk(alg, s.procs[i], t)
  }

  lemma FreshWaits(alg: Algorithm, p: Proc, t: nat)
    requires WaitingOk(alg, p, t) && Admit(p, Wrap(t)).status == Ready && p.cpuTime == 0
    requires p.status == Unstarted ==> t <= p.job.A
    ensures PickedWaiting(Start(alg, Admit(p, Wrap(t))), t)
  {
    ZeroQuotient(p.job.B);
  }

  lemma PickedWaits(alg: Algorithm, s: State, jobs: seq<Job>, t: nat)
    requires alg != RoundRobin && Inv(alg, s, jobs) && OnTime(s, jobs, t) && AllWaiting(alg, s, t)
    requires HasCpu(alg, s).Some?
    ensures PickedWaiting(Picked(alg, s), t)
  {
    hide Inv, Line, WaitingOk, PickedWaiting;
    InvBasics(alg, s, jobs);
    PickedOk(alg, s, jobs);
    var i := HasCpu(alg, s).value;
    assert WaitingOk(alg, s.procs[i], t);
    if s.running == None {
      FreshlyPicked(alg, s, jobs);
      WasReady(alg, s, jobs);
      FreshWaits(alg, s.procs[i], t);
    } else {
      RunningWaits(alg, s.procs[i], t);
    }
  }

  lemma WasReady(alg: Algorithm, s: State, jobs: seq<Job>)
    requires Inv(alg, s, jobs) && s.running == None && HasCpu(alg, s).Some?
    ensures Admit(s.procs[HasCpu(alg, s).value], s.cycle).status == Ready
  {
    LineIsReady(alg, s, jobs);
  }

  lemma RunningWaits(alg: Algorithm, p: Proc, t: nat)
    requires WaitingOk(alg, p, t) && HoldsCpu(p)
    ensures PickedWaiting(p, t)
  {
  }

  lemma WaitingStep(alg: Algorithm, s: State, jobs: seq<Job>, t: nat)
    requires alg != RoundRobin && |jobs| <= MAX && Inv(alg, s, jobs) && OnTime(s, jobs, t) && AllWaiting(alg, s, t)
    ensures AllWaiting(alg, Step(alg, s), t + 1)
    ensures HasCpu(alg, s).Some? && Completes(Picked(alg, s)) ==>
              EndRecord(alg, Step(alg, s).procs[HasCpu(alg, s).value], t + 1)
  {
    hide Step, Line, Charge, Run, EndRecord, WaitedAtEnd;
    forall i: nat | i < |jobs| ensures WaitingOk(alg, Step(alg, s).procs[i], t + 1) {
      if HasCpu(alg, s) == Some(i) {
        StepOfChosen(alg, s, jobs);
        PickedOk(alg, s, jobs);
        PickedWaits(alg, s, jobs, t);
        WaitingOfRun(alg, Picked(alg, s), t);
      } else {
        StepOfOther(alg, s, jobs, i);
        OthersIdle(alg, s, jobs, i);
        WaitingOfOther(alg, s.procs[i], t);
      }
    }
    if HasCpu(alg, s).Some? {
      StepOfChosen(alg, s, jobs);
      PickedOk(alg, s, jobs);
      PickedWaits(alg, s, jobs, t);
      WaitingOfRun(alg, Picked(alg, s), t);
    }
  }

  lemma OthersIdle(alg: Algorithm, s: State, jobs: seq<Job>, i: nat)
    requires Inv(alg, s, jobs) && i < |jobs| && HasCpu(alg, s) != Some(i)
    ensures !HoldsCpu(s.procs[i]) && TimeOk(s.procs[i])
  {
  }

  lemma NobodyWaitsYet(alg: Algorithm, jobs: seq<Job>)
    ensures AllWaiting(alg, Init(jobs), 0)
  {
  }

  lemma {:induction false} WaitingAlways(alg: Algorithm, jobs: seq<Job>, t: nat)
    requires alg != RoundRobin && |jobs| <= MAX
    ensures AllWaiting(alg, After(alg, jobs, t), t)
  {
    hide Step, Inv, AllWaiting, OnTime;
    if t == 0 {
      NobodyWaitsYet(alg, jobs);
    } else {
      WaitingAlways(alg, jobs, t - 1);
      Reachable(alg, jobs, t - 1);
      OnTimeAlways(alg, jobs, t - 1);
      WaitingStep(alg, After(alg, jobs, t - 1), jobs, t - 1);
    }
  }

  lemma SameTurnaround(j: Job, e: nat, blocks: int)
    requires blocks == (j.C - 1) / j.B
    ensures Wrap(AsInt32(Wrap(e)) - j.A) == Wrap(j.C + Wrap(WaitedAtEnd(j, e)) - blocks)
  {
    hide Wrap, AsInt32;
    SignedWrap(e, 0 - j.A);
    WrapInside(WaitedAtEnd(j, e), j.C - blocks);
  }

  /** SJF, every input: turnaround is CPU time plus waiting time, less one per I/O block (in uint32_t). */
  lemma {:induction false} SjfTurnaround(jobs: seq<Job>, t: nat, i: nat)
    requires |jobs| <= MAX && i < |jobs|
    requires After(Sjf, jobs, t).procs[i].status == Terminated
    ensures var p := After(Sjf, jobs, t).procs[i];
            Wrap(p.finishingTime - jobs[i].A) == Wrap(jobs[i].C + p.waitingTime - (jobs[i].C - 1) / jobs[i].B)
  {
    hide Step, Inv;
    WaitingAlways(Sjf, jobs, t);
    Reachable(Sjf, jobs, t);
    InvFacts(Sjf, After(Sjf, jobs, t), jobs);
    var p := After(Sjf, jobs, t).procs[i];
    assert WaitingOk(Sjf, p, t);
    var e: nat :| e <= t && EndRecord(Sjf, p, e);
    SameTurnaround(p.job, e, (p.job.C - 1) / p.job.B);
  }

  /** Equal modulo 2^32 and both an int32_t, or not equal at all. */
  lemma SameInt32(f: int, a: nat, x: nat)
    requires -0x8000_0000 <= f < 0x8000_0000 && Wrap(f - a) == Wrap(x)
    ensures f - a == x <==> a + x < 0x8000_0000
  {
    WrapInside(f - a, a);
    WrapInside(x, a);
  }

  /** The completion pass of a process leaves the record that its number determines. */
  lemma CompletionRecord(alg: Algorithm, jobs: seq<Job>, t: nat, i: nat)
    requires alg != RoundRobin && |jobs| <= MAX && i < |jobs|
    requires After(alg, jobs, t).procs[i].status != Terminated
    requires After(alg, jobs, t + 1).procs[i].status == Terminated
    ensures EndRecord(alg, After(alg, jobs, t + 1).procs[i], t + 1)
    ensures After(alg, jobs, t + 1).procs[i].job == jobs[i]
  {
    hide Step, Inv, Line, HasCpu, Picked, EndRecord, AllWaiting, OnTime;
    var s := After(alg, jobs, t);
    assert After(alg, jobs, t + 1) == Step(alg, s);
    Reachable(alg, jobs, t);
    Reachable(alg, jobs, t + 1);
    InvAt(alg, After(alg, jobs, t + 1), jobs, i);
    InvBasics(alg, s, jobs);
    OnTimeAlways(alg, jobs, t);
    WaitingAlways(alg, jobs, t);
    WaitingStep(alg, s, jobs, t);
    if HasCpu(alg, s) != Some(i) {
      StepOfOther(alg, s, jobs, i);
    } else {
      RunCompletes(alg, s, jobs);
    }
  }

  lemma RunCompletes(alg: Algorithm, s: State, jobs: seq<Job>)
    requires Inv(alg, s, jobs) && |jobs| <= MAX && HasCpu(alg, s).Some?
    requires Step(alg, s).procs[HasCpu(alg, s).value].status == Terminated
    ensures Completes(Picked(alg, s))
  {
    hide Step, Line, Inv;
    StepOfChosen(alg, s, jobs);
    PickedOk(alg, s, jobs);
  }

  /**
   * The same as an equation of integers. For a process that completes in cycle e after waiting w cycles
   * it holds exactly when the finishing time as an int32_t and the waiting time as a uint32_t lose the
   * same multiple of 2^32, so in particular if e fits in an int32_t.
   */
  lemma SjfTurnaroundExact(jobs: seq<Job>, t: nat, i: nat, m: nat)
    requires |jobs| <= MAX && i < |jobs|
    requires After(Sjf, jobs, t).procs[i].status != Terminated
    requires After(Sjf, jobs, t + 1).procs[i].status == Terminated
    ensures var p := After(Sjf, jobs, t + 1 + m).procs[i];
            var blocks := (jobs[i].C - 1) / jobs[i].B;
            var e, w := t + 1, t + 1 - jobs[i].A - jobs[i].C + blocks;
            && w >= 0
            && (p.finishingTime - jobs[i].A == jobs[i].C + p.waitingTime - blocks
                <==> (e + 0x8000_0000) / 0x1_0000_0000 == w / 0x1_0000_0000)
            && (p.finishingTime - jobs[i].A == jobs[i].C + p.waitingTime - blocks
                <==> jobs[i].A + jobs[i].C + p.waitingTime - blocks < 0x8000_0000)
            && (e < 0x8000_0000 ==> p.finishingTime - jobs[i].A == jobs[i].C + p.waitingTime - blocks)
  {
    hide Step, Inv, After, Wrap, AsInt32;
    CompletionRecord(Sjf, jobs, t, i);
    RecordIsFinal(Sjf, jobs, i, t + 1, m);
    var j := jobs[i];
    var blocks := (j.C - 1) / j.B;
    SmallQuotient(j.C - 1, j.B);
    LostInt32(t + 1);
    LostUInt32(WaitedAtEnd(j, t + 1));
    SjfTurnaround(jobs, t + 1, i);
    var p := After(Sjf, jobs, t + 1).procs[i];
    SameInt32(p.finishingTime, j.A, j.C + p.waitingTime - blocks);
  }

  lemma LostUInt32(w: nat)
    ensures Wrap(w) == w - 0x1_0000_0000 * (w / 0x1_0000_0000)
    ensures w < 0x1_0000_0000 ==> w / 0x1_0000_0000 == 0
  {
  }

  lemma LostInt32(e: nat)
    ensures AsInt32(Wrap(e)) == e - 0x1_0000_0000 * ((e + 0x8000_0000) / 0x1_0000_0000)
    ensures e < 0x8000_0000 ==> (e + 0x8000_0000) / 0x1_0000_0000 == 0
    ensures -0x8000_0000 <= AsInt32(Wrap(e)) < 0x8000_0000
  {
    var q, r := e / 0x1_0000_0000, e % 0x1_0000_0000;
    assert e + 0x8000_0000 == q * 0x1_0000_0000 + (r + 0x8000_0000);
    if r >= 0x8000_0000 {
      DivMod(e + 0x8000_0000, 0x1_0000_0000, q + 1, r - 0x8000_0000);
    } else {
      DivMod(e + 0x8000_0000, 0x1_0000_0000, q, r + 0x8000_0000);
    }
  }

  lemma NoSmallPeriod(x: int, gap: nat)
    requires 0 < gap <= MAX
    ensures Wrap(x + gap) != Wrap(x)
  {
  }

  lemma WaitedLess(j: Job, e: nat, e': nat)
    ensures WaitedAtEnd(j, e) - (WaitedAtEnd(j, e') - 1) == e - e' + 1
  {
  }

  lemma DifferentEnds(p: Proc, e: nat, q: Proc, e': nat)
    requires p.job == q.job && EndRecord(Sjf, p, e) && EndRecord(Fcfs, q, e') && e' <= e <= MAX
    ensures p.waitingTime != q.waitingTime
  {
    hide Wrap, WaitedAtEnd, AsInt32;
    WaitedLess(p.job, e, e');
    NoSmallPeriod(WaitedAtEnd(q.job, e') - 1, e - e' + 1);
  }

  /**
   * FCFS and SJF leave their loops together (`SameExit`), but never with the same records: the process
   * that SJF completes last reports different waiting times.
   */
  lemma SjfIsNotFcfs(jobs: seq<Job>) returns (i: nat)
    requires 0 < |jobs| <= MAX && ExitPass(Sjf, jobs) <= MAX
    ensures i < |jobs|
    ensures var e := ExitPass(Sjf, jobs);
            After(Sjf, jobs, e).procs[i].waitingTime != After(Fcfs, jobs, e).procs[i].waitingTime
  {
    hide Step, Inv, ExitPass, EndRecord;
    var e := ExitPass(Sjf, jobs);
    EveryRunEnds(Sjf, jobs);
    EveryRunEnds(Fcfs, jobs);
    SameExit(jobs);
    Reachable(Sjf, jobs, 0);
    assert After(Sjf, jobs, 0).finished == 0;
    assert Unfinished(Sjf, jobs, e - 1);
    Reachable(Sjf, jobs, e - 1);
    SomebodyLeft(Sjf, After(Sjf, jobs, e - 1), jobs);
    i :| 0 <= i < |jobs| && After(Sjf, jobs, e - 1).procs[i].status != Terminated;
    CompletionRecord(Sjf, jobs, e - 1, i);
    WaitingAlways(Fcfs, jobs, e);
    Reachable(Fcfs, jobs, e);
    InvAt(Fcfs, After(Fcfs, jobs, e), jobs, i);
    assert WaitingOk(Fcfs, After(Fcfs, jobs, e).procs[i], e);
    var e': nat :| e' <= e && EndRecord(Fcfs, After(Fcfs, jobs, e).procs[i], e');
    DifferentEnds(After(Sjf, jobs, e).procs[i], e, After(Fcfs, jobs, e).procs[i], e');
  }

  lemma SmallQuotient(x: nat, B: nat)
    requires B > 0
    ensures 0 <= x / B <= x
  {
    var q := x / B;
    assert q * B == x - x % B;
    AtLeastFactor(q, B);
  }

  lemma AtLeastFactor(q: int, B: nat)
    requires B > 0 && q * B > 0 - B
    ensures 0 <= q <= q * B
  {
    assert q < 0 ==> q * B <= 0 - B;
    assert q * (B - 1) >= 0;
  }

  lemma SignedWrap(e: int, x: int)
    ensures Wrap(AsInt32(Wrap(e)) + x) == Wrap(e + x)
  {
    WrapInside(e, x);
    if Wrap(e) >= 0x8000_0000 {
      assert Wrap(Wrap(e) - 0x1_0000_0000 + x) == Wrap(Wrap(e) + x);
    }
  }
}
