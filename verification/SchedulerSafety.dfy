// What every reachable state of the three scheduling loops satisfies, for all inputs.
module SchedulerSafety {
  import opened UInt32
  import opened Wrappers
  import opened StableSort
  import opened SchedulerModel
  import opened Totals

  function Done(p: Proc): nat {
    if p.status == Terminated then 1 else 0
  }

  predicate Distinct(q: seq<nat>) {
    forall j, k :: 0 <= j < k < |q| ==> q[j] != q[k]
  }

  predicate HoldsCpu(p: Proc) {
    p.status == Running || p.status == Blocked
  }

  predicate TimeOk(p: Proc) {
    && p.cpuTime <= p.job.C
    && (p.status == Terminated <==> p.cpuTime == p.job.C)
    && (p.status == Unstarted ==> p.cpuTime == 0)
  }

  predicate ForJobs(s: State, jobs: seq<Job>) {
    && |s.procs| == |jobs|
    && forall i :: 0 <= i < |jobs| ==> s.procs[i].job == jobs[i]
  }

  /** The ready queue is a duplicate-free list of exactly the ready processes. */
  predicate QueueOk(s: State)
    requires Indexed(s)
  {
    && Distinct(s.ready)
    && (forall k :: 0 <= k < |s.ready| ==> s.procs[s.ready[k]].status == Ready)
    && (forall i: nat :: i < |s.procs| && s.procs[i].status == Ready ==> i in s.ready)
  }

  /** `runningProcess` is exactly the process in state running or blocked, if there is one. */
  predicate RunningOk(s: State)
    requires Indexed(s)
  {
    && (forall i: nat :: i < |s.procs| ==> (HoldsCpu(s.procs[i]) <==> s.running == Some(i)))
    && (s.running.Some? && s.procs[s.running.value].status == Blocked ==> s.blocked != [])
  }

  /** Holds between any two steps of a pass as well as between passes. */
  predicate Core(s: State, jobs: seq<Job>) {
    && Indexed(s)
    && ForJobs(s, jobs)
    && QueueOk(s)
    && RunningOk(s)
    && (forall i :: 0 <= i < |s.procs| ==> TimeOk(s.procs[i]))
    && s.finished == Total(s.procs, Done)
    && s.cycle <= MAX
  }

  lemma CoreInit(jobs: seq<Job>)
    ensures Core(Init(jobs), jobs)
  {
    TotalZero(Init(jobs).procs, Done);
  }

  lemma CoreArrive(s: State, jobs: seq<Job>)
    requires Core(s, jobs)
    ensures Core(Arrive(s), jobs)
  {
    var r := Arrive(s);
    TotalSame(s.procs, r.procs, Done, Done);
    forall i: nat | i < |s.procs| && r.procs[i].status == Ready ensures i in r.ready {
      if s.procs[i].status == Ready {
        assert i in s.ready;
      }
    }
  }

  lemma CoreArrange(alg: Algorithm, s: State, jobs: seq<Job>)
    requires Core(s, jobs)
    ensures Core(Arrange(alg, s), jobs)
  {
    var B := Bursts(s);
    MembersOfSort(s.ready, B);
    SortKeepsDistinct(s.ready, B);
    forall k | 0 <= k < |Sort(s.ready, B)| ensures s.procs[Sort(s.ready, B)[k]].status == Ready {
      assert Sort(s.ready, B)[k] in s.ready;
    }
  }

  lemma {:induction false} InsertKeepsDistinct(q: seq<nat>, x: nat, B: seq<nat>)
    requires InRange(q, B) && x < |B| && Distinct(q) && x !in q
    ensures Distinct(Insert(q, x, B))
  {
    if q != [] && B[q[|q| - 1]] > B[x] {
      var front, last := q[..|q| - 1], q[|q| - 1];
      InsertKeepsDistinct(front, x, B);
      InsertIsPermutation(front, x, B);
      var r := Insert(front, x, B);
      forall k | 0 <= k < |r| ensures r[k] != last {
        assert r[k] in multiset(r);
        assert r[k] in front || r[k] == x;
      }
    }
  }

  lemma {:induction false} SortKeepsDistinct(q: seq<nat>, B: seq<nat>)
    requires InRange(q, B) && Distinct(q)
    ensures Distinct(Sort(q, B))
  {
    if q == [] {
    } else {
      SortKeepsDistinct(q[..|q| - 1], B);
      MembersOfSort(q[..|q| - 1], B);
      InsertKeepsDistinct(Sort(q[..|q| - 1], B), q[|q| - 1], B);
    }
  }

  lemma StartKeeps(alg: Algorithm, p: Proc)
    requires TimeOk(p) && p.status == Ready
    ensures TimeOk(Start(alg, p)) && Done(Start(alg, p)) == Done(p)
  {
  }

  lemma CoreDispatch(alg: Algorithm, s: State, jobs: seq<Job>)
    requires Core(s, jobs)
    ensures Core(Dispatch(alg, s), jobs)
  {
    hide TimeOk, Done;
    if s.running == None && s.ready != [] {
      var r, i := Dispatch(alg, s), s.ready[0];
      StartKeeps(alg, s.procs[i]);
      TotalSame(s.procs, r.procs, Done, Done);
      forall i: nat | i < |r.procs| && r.procs[i].status == Ready ensures i in r.ready {
        assert i in s.ready;
      }
    }
  }

  lemma ExecuteQueue(alg: Algorithm, s: State, jobs: seq<Job>)
    requires Core(s, jobs)
    ensures QueueOk(Execute(alg, s))
  {
    if s.running.Some? {
      var i, r := s.running.value, Execute(alg, s);
      var p := s.procs[i];
      assert HoldsCpu(p);
      assert i !in s.ready;
      assert r.ready == if IsPreempted(alg, p) then s.ready + [i] else s.ready;
      assert r.procs[i].status == Ready <==> IsPreempted(alg, p);
      forall j: nat | j < |r.procs| && r.procs[j].status == Ready ensures j in r.ready {
        if j != i {
          assert j in s.ready;
        }
      }
    }
  }

  lemma ExecuteFinished(alg: Algorithm, s: State, jobs: seq<Job>)
    requires Core(s, jobs) && |jobs| <= MAX
    ensures Execute(alg, s).finished == Total(Execute(alg, s).procs, Done)
  {
    if s.running.Some? {
      var i := s.running.value;
      var p, procs' := s.procs[i], s.procs[i := Run(alg, s.procs[i], s.cycle)];
      assert HoldsCpu(p);
      assert Done(Run(alg, p, s.cycle)) == if Completes(p) then 1 else 0;
      TotalChange(s.procs, procs', Done, Done, i);
      DoneAtMost(procs');
    }
  }

  lemma {:induction false} DoneAtMost(procs: seq<Proc>)
    ensures Total(procs, Done) <= |procs|
  {
    TotalAtMost(procs, Done, 1);
  }

  lemma RunTime(alg: Algorithm, p: Proc, cycle: nat)
    requires TimeOk(p) && HoldsCpu(p)
    ensures var r := Run(alg, p, cycle);
            && TimeOk(r) && r.job == p.job
            && (HoldsCpu(r) <==> !Completes(p) && !IsPreempted(alg, p))
            && (r.status == Blocked ==> Blocks(alg, p) || p.status == Blocked)
  {
  }

  lemma ExecuteProcs(alg: Algorithm, s: State, jobs: seq<Job>)
    requires Core(s, jobs)
    ensures var r := Execute(alg, s);
            ForJobs(r, jobs) && RunningOk(r) && forall i :: 0 <= i < |r.procs| ==> TimeOk(r.procs[i])
  {
    hide Run, Completes;
    if s.running.Some? {
      var p := s.procs[s.running.value];
      assert HoldsCpu(p);
      RunTime(alg, p, s.cycle);
    }
  }

  lemma CoreExecute(alg: Algorithm, s: State, jobs: seq<Job>)
    requires Core(s, jobs) && |jobs| <= MAX
    ensures Core(Execute(alg, s), jobs)
  {
    ExecuteQueue(alg, s, jobs);
    ExecuteFinished(alg, s, jobs);
    ExecuteProcs(alg, s, jobs);
  }

  // ----- I/O: the release branch never fires

  /** What the I/O fields hold. `due` is 1 between step 3 and the charge of step 4, else 0. */
  predicate IoOk(alg: Algorithm, p: Proc, due: nat) {
    match p.status
    case Unstarted => p.blockedTime == 0 && p.ioBurst == 0
    case Ready => p.blockedTime == 0 && p.ioBurst == 0 && (alg != RoundRobin ==> p.cpuTime == 0)
    case Running => p.blockedTime == 0 && p.ioBurst == 0 && (alg != RoundRobin ==> p.cpuTime < p.job.B)
    case Blocked =>
      && alg != RoundRobin
      && p.cpuTime >= p.job.B
      && p.blockedTime == p.cpuTime - p.job.B + 1 - due
      && p.ioBurst == Wrap(0 - p.blockedTime)
    case Terminated =>
      && p.blockedTime == (if alg != RoundRobin && p.job.C > p.job.B then p.job.C - p.job.B else 0)
      && p.ioBurst == Wrap(0 - p.blockedTime)
  }

  predicate AllIoOk(alg: Algorithm, s: State, due: nat) {
    forall i :: 0 <= i < |s.procs| ==> IoOk(alg, s.procs[i], due)
  }

  lemma MultipleBelowTwice(x: nat, B: nat)
    requires 0 < x <= B
    ensures x % B == 0 <==> x == B
  {
    if x < B {
      assert x % B == x;
    }
  }

  lemma IoRun(alg: Algorithm, p: Proc, cycle: nat)
    requires TimeOk(p) && HoldsCpu(p) && IoOk(alg, p, 0)
    ensures IoOk(alg, Run(alg, p, cycle), 1)
  {
    if p.status == Running && alg != RoundRobin {
      MultipleBelowTwice(p.cpuTime + 1, p.job.B);
    }
  }

  lemma IoCharge(alg: Algorithm, p: Proc)
    requires TimeOk(p) && IoOk(alg, p, 1)
    ensures !IsReleased(p) && IoOk(alg, Charge(p), 0) && TimeOk(Charge(p))
    ensures Charge(p).status == p.status && Charge(p).job == p.job
  {
    if p.status == Blocked {
      WrapSteps(0 - p.blockedTime);
    }
  }

  /** Without releases, step 4 is a change of each process record on its own. */
  lemma {:induction false} ChargeWithoutRelease(s: State, n: nat)
    requires Indexed(s) && n <= |s.procs|
    requires forall i :: 0 <= i < |s.procs| ==> !IsReleased(s.procs[i])
    ensures ChargeUpTo(s, n) == s.(procs := ChargeUpTo(s, n).procs)
    ensures forall i :: 0 <= i < |s.procs| ==>
              ChargeUpTo(s, n).procs[i] == if i < n then Charge(s.procs[i]) else s.procs[i]
  {
    if n == 0 {
    } else {
      ChargeWithoutRelease(s, n - 1);
    }
  }

  // ----- The invariant of every loop

  predicate Inv(alg: Algorithm, s: State, jobs: seq<Job>) {
    Core(s, jobs) && AllIoOk(alg, s, 0)
  }

  /** The ready queue as step 2 sees it. */
  function Line(alg: Algorithm, s: State): (q: seq<nat>)
    requires Indexed(s)
    ensures InRange(q, Bursts(s))
  {
    Arrange(alg, Arrive(s)).ready
  }

  function HasCpu(alg: Algorithm, s: State): Option<nat>
    requires Indexed(s)
  {
    if s.running.Some? then s.running else if Line(alg, s) == [] then None else Some(Line(alg, s)[0])
  }

  /** Steps 1 and 2 in one view. */
  lemma ChosenShape(alg: Algorithm, s: State)
    requires Indexed(s)
    ensures var c := Chosen(alg, s);
            && c.running == HasCpu(alg, s)
            && c.ready == (if s.running == None && Line(alg, s) != [] then Line(alg, s)[1..] else Line(alg, s))
            && c.blocked == s.blocked && c.cycle == s.cycle && c.finished == s.finished
    ensures forall i: nat :: i < |s.procs| ==>
              Chosen(alg, s).procs[i] ==
              if s.running == None && HasCpu(alg, s) == Some(i) then Start(alg, Admit(s.procs[i], s.cycle))
              else Admit(s.procs[i], s.cycle)
  {
    hide NewArrivals, Sort, Bursts;
  }

  lemma CoreChosen(alg: Algorithm, s: State, jobs: seq<Job>)
    requires Core(s, jobs)
    ensures Core(Chosen(alg, s), jobs)
  {
    CoreArrive(s, jobs);
    CoreArrange(alg, Arrive(s), jobs);
    CoreDispatch(alg, Arrange(alg, Arrive(s)), jobs);
  }

  lemma IoStart(alg: Algorithm, p: Proc, cycle: nat)
    requires IoOk(alg, p, 0) && TimeOk(p)
    ensures IoOk(alg, Admit(p, cycle), 0)
    ensures Admit(p, cycle).status == Ready ==> IoOk(alg, Start(alg, Admit(p, cycle)), 0)
  {
  }

  lemma InvAt(alg: Algorithm, s: State, jobs: seq<Job>, i: nat)
    requires Inv(alg, s, jobs) && i < |jobs|
    ensures |s.procs| == |jobs| && s.procs[i].job == jobs[i]
    ensures TimeOk(s.procs[i]) && IoOk(alg, s.procs[i], 0)
  {
  }

  lemma IoChosen(alg: Algorithm, s: State, jobs: seq<Job>)
    requires Inv(alg, s, jobs)
    ensures AllIoOk(alg, Chosen(alg, s), 0)
  {
    hide Inv, Line, Chosen, Start, Admit, IoOk, TimeOk, Indexed;
    InvBasics(alg, s, jobs);
    ChosenShape(alg, s);
    HasCpuIsReady(alg, s, jobs);
    forall i: nat | i < |jobs| ensures IoOk(alg, Chosen(alg, s).procs[i], 0) {
      InvAt(alg, s, jobs, i);
      IoStart(alg, s.procs[i], s.cycle);
    }
  }

  lemma HasCpuIsReady(alg: Algorithm, s: State, jobs: seq<Job>)
    requires Inv(alg, s, jobs)
    ensures s.running == None && HasCpu(alg, s).Some? ==>
              HasCpu(alg, s).value < |jobs| && Admit(s.procs[HasCpu(alg, s).value], s.cycle).status == Ready
  {
    LineIsReady(alg, s, jobs);
  }

  lemma InvBasics(alg: Algorithm, s: State, jobs: seq<Job>)
    requires Inv(alg, s, jobs)
    ensures Indexed(s) && ForJobs(s, jobs) && |s.procs| == |jobs|
  {
  }

  lemma LineIsReady(alg: Algorithm, s: State, jobs: seq<Job>)
    requires Core(s, jobs)
    ensures forall k :: 0 <= k < |Line(alg, s)| ==> Admit(s.procs[Line(alg, s)[k]], s.cycle).status == Ready
    ensures forall i: nat :: i < |jobs| && Admit(s.procs[i], s.cycle).status == Ready ==> i in Line(alg, s)
    ensures Distinct(Line(alg, s))
  {
    hide Sort, NewArrivals, Bursts, TimeOk, Done, RunningOk;
    CoreArrive(s, jobs);
    CoreArrange(alg, Arrive(s), jobs);
    var a := Arrange(alg, Arrive(s));
    assert forall i: nat :: i < |jobs| ==> a.procs[i] == Admit(s.procs[i], s.cycle);
  }

  lemma IoExecute(alg: Algorithm, s: State, jobs: seq<Job>)
    requires Inv(alg, s, jobs)
    ensures AllIoOk(alg, Execute(alg, s), 1)
  {
    if s.running.Some? {
      var i := s.running.value;
      assert HoldsCpu(s.procs[i]);
      IoRun(alg, s.procs[i], s.cycle);
    }
    forall j: nat | j < |s.procs| && s.running != Some(j) ensures IoOk(alg, s.procs[j], 1) {
      assert !HoldsCpu(s.procs[j]);
    }
  }

  /** Step 4 of a reachable state releases nobody and charges each process on its own. */
  lemma StepShape(alg: Algorithm, s: State, jobs: seq<Job>)
    requires Inv(alg, s, jobs) && |jobs| <= MAX
    ensures var e := Execute(alg, Chosen(alg, s));
            && Core(e, jobs)
            && (forall i :: 0 <= i < |jobs| ==>
                  !IsReleased(e.procs[i]) && Step(alg, s).procs[i] == Charge(e.procs[i]))
            && Step(alg, s) == e.(procs := Step(alg, s).procs, cycle := Inc(e.cycle))
    ensures AllIoOk(alg, Step(alg, s), 0)
    ensures forall i :: 0 <= i < |jobs| ==>
              && TimeOk(Step(alg, s).procs[i])
              && Step(alg, s).procs[i].status == Execute(alg, Chosen(alg, s)).procs[i].status
              && Step(alg, s).procs[i].job == jobs[i]
  {
    var c := Chosen(alg, s);
    CoreChosen(alg, s, jobs);
    IoChosen(alg, s, jobs);
    CoreExecute(alg, c, jobs);
    IoExecute(alg, c, jobs);
    var e := Execute(alg, c);
    forall i | 0 <= i < |jobs|
      ensures !IsReleased(e.procs[i]) && TimeOk(Charge(e.procs[i])) && IoOk(alg, Charge(e.procs[i]), 0)
      ensures Charge(e.procs[i]).status == e.procs[i].status && Charge(e.procs[i]).job == e.procs[i].job
    {
      IoCharge(alg, e.procs[i]);
    }
    ChargeWithoutRelease(e, |jobs|);
  }

  lemma CoreKept(e: State, r: State, jobs: seq<Job>)
    requires Core(e, jobs) && |r.procs| == |e.procs|
    requires r == e.(procs := r.procs, cycle := Inc(e.cycle))
    requires forall i :: 0 <= i < |jobs| ==>
               && TimeOk(r.procs[i])
               && r.procs[i].status == e.procs[i].status
               && r.procs[i].job == jobs[i]
    ensures Core(r, jobs)
  {
    TotalSame(e.procs, r.procs, Done, Done);
    assert QueueOk(r);
    forall i: nat | i < |r.procs| ensures HoldsCpu(r.procs[i]) <==> r.running == Some(i) {
      assert HoldsCpu(e.procs[i]) <==> e.running == Some(i);
    }
  }

  lemma InvStep(alg: Algorithm, s: State, jobs: seq<Job>)
    requires Inv(alg, s, jobs) && |jobs| <= MAX
    ensures Inv(alg, Step(alg, s), jobs)
  {
    StepShape(alg, s, jobs);
    CoreKept(Execute(alg, Chosen(alg, s)), Step(alg, s), jobs);
  }

  lemma InvInit(alg: Algorithm, jobs: seq<Job>)
    ensures Inv(alg, Init(jobs), jobs)
  {
    CoreInit(jobs);
  }

  /** Safety of all three loops, over whole runs and for every input. */
  lemma {:induction false} Reachable(alg: Algorithm, jobs: seq<Job>, k: nat)
    requires |jobs| <= MAX
    ensures Inv(alg, After(alg, jobs, k), jobs)
  {
    hide Step, Inv;
    if k == 0 {
      InvInit(alg, jobs);
    } else {
      Reachable(alg, jobs, k - 1);
      InvStep(alg, After(alg, jobs, k - 1), jobs);
    }
  }

  // ----- What a pass does to one process

  lemma StepOfProc(alg: Algorithm, s: State, jobs: seq<Job>, i: nat)
    requires Inv(alg, s, jobs) && |jobs| <= MAX && i < |jobs|
    ensures Step(alg, s).procs[i] == Charge(Execute(alg, Chosen(alg, s)).procs[i])
  {
    StepShape(alg, s, jobs);
  }

  lemma ExecuteOfProc(alg: Algorithm, s: State, i: nat)
    requires Indexed(s) && i < |s.procs|
    ensures Execute(alg, s).procs[i] == if s.running == Some(i) then Run(alg, s.procs[i], s.cycle) else s.procs[i]
  {
  }

  lemma StepOfOther(alg: Algorithm, s: State, jobs: seq<Job>, i: nat)
    requires Inv(alg, s, jobs) && |jobs| <= MAX && i < |jobs| && HasCpu(alg, s) != Some(i)
    ensures Step(alg, s).procs[i] == Charge(Admit(s.procs[i], s.cycle))
  {
    StepOfProc(alg, s, jobs, i);
    ExecuteOfProc(alg, Chosen(alg, s), i);
    ChosenShape(alg, s);
  }

  /** The process that uses the CPU in this pass, as it is before it runs. */
  function Picked(alg: Algorithm, s: State): Proc
    requires Indexed(s) && HasCpu(alg, s).Some?
  {
    var p := s.procs[HasCpu(alg, s).value];
    if s.running.Some? then p else Start(alg, Admit(p, s.cycle))
  }

  lemma PickedOk(alg: Algorithm, s: State, jobs: seq<Job>)
    requires Inv(alg, s, jobs) && HasCpu(alg, s).Some?
    ensures HoldsCpu(Picked(alg, s)) && TimeOk(Picked(alg, s)) && IoOk(alg, Picked(alg, s), 0)
    ensures Picked(alg, s).job == jobs[HasCpu(alg, s).value]
    ensures Chosen(alg, s).procs[HasCpu(alg, s).value] == Picked(alg, s)
  {
    ChosenShape(alg, s);
    var i := HasCpu(alg, s).value;
    if s.running.Some? {
      assert HoldsCpu(s.procs[i]);
      assert Picked(alg, s) == s.procs[i];
    } else {
      LineIsReady(alg, s, jobs);
      assert Admit(s.procs[i], s.cycle).status == Ready;
      assert TimeOk(s.procs[i]) && IoOk(alg, s.procs[i], 0);
    }
  }

  lemma StepOfChosen(alg: Algorithm, s: State, jobs: seq<Job>)
    requires Inv(alg, s, jobs) && |jobs| <= MAX && HasCpu(alg, s).Some?
    ensures Step(alg, s).procs[HasCpu(alg, s).value] == Charge(Run(alg, Picked(alg, s), s.cycle))
  {
    StepOfProc(alg, s, jobs, HasCpu(alg, s).value);
    ExecuteOfProc(alg, Chosen(alg, s), HasCpu(alg, s).value);
    PickedOk(alg, s, jobs);
    ChosenShape(alg, s);
  }

  /** The effect of running process i, seen as p, on the queues, the CPU and the counters. */
  predicate RanFields(alg: Algorithm, s: State, rest: seq<nat>, i: nat, p: Proc, r: State) {
    && r.blocked == (if Blocks(alg, p) then s.blocked + [i] else s.blocked)
    && if Completes(p) then
         && r.ready == rest && r.running == None && r.finished == Inc(s.finished)
         && r.cycle == (if alg == RoundRobin then Inc(Inc(s.cycle)) else Inc(s.cycle))
       else
         && r.finished == s.finished && r.cycle == Inc(s.cycle)
         && r.ready == (if IsPreempted(alg, p) then rest + [i] else rest)
         && r.running == (if IsPreempted(alg, p) then None else Some(i))
  }

  lemma ExecuteFields(alg: Algorithm, s: State)
    requires Indexed(s)
    ensures var r := Execute(alg, s);
            match s.running
            case None => r == s
            case Some(i) => RanFields(alg, s, s.ready, i, s.procs[i], r.(cycle := Inc(r.cycle)))
  {
  }

  function Rest(alg: Algorithm, s: State): seq<nat>
    requires Indexed(s)
  {
    if s.running == None && Line(alg, s) != [] then Line(alg, s)[1..] else Line(alg, s)
  }

  /** What a pass does to the queues, the CPU and the counters. */
  lemma StepQueues(alg: Algorithm, s: State, jobs: seq<Job>)
    requires Inv(alg, s, jobs) && |jobs| <= MAX
    ensures HasCpu(alg, s) == None ==>
              var r := Step(alg, s);
              && r.ready == [] && r.blocked == s.blocked && r.running == None
              && r.finished == s.finished && r.cycle == Inc(s.cycle)
    ensures HasCpu(alg, s).Some? ==>
              RanFields(alg, s, Rest(alg, s), HasCpu(alg, s).value, Picked(alg, s), Step(alg, s))
  {
    var c := Chosen(alg, s);
    assert Step(alg, s).ready == Execute(alg, c).ready
        && Step(alg, s).blocked == Execute(alg, c).blocked
        && Step(alg, s).running == Execute(alg, c).running
        && Step(alg, s).finished == Execute(alg, c).finished
        && Step(alg, s).cycle == Inc(Execute(alg, c).cycle) by {
      StepShape(alg, s, jobs);
    }
    ExecuteFields(alg, c);
    ChosenShape(alg, s);
    if HasCpu(alg, s).Some? {
      PickedOk(alg, s, jobs);
    }
  }

  predicate CannotRun(p: Proc, cycle: nat) {
    p.status == Terminated || (p.status == Unstarted && p.job.A != cycle)
  }

  /** A pass is idle exactly when nobody is running, nobody is ready and nobody arrives. */
  lemma IdlePass(alg: Algorithm, s: State, jobs: seq<Job>)
    requires Inv(alg, s, jobs)
    ensures HasCpu(alg, s) == None <==> forall i: nat :: i < |jobs| ==> CannotRun(s.procs[i], s.cycle)
  {
    LineIsReady(alg, s, jobs);
    if HasCpu(alg, s) == None {
      forall i: nat | i < |jobs| ensures CannotRun(s.procs[i], s.cycle) {
        assert Admit(s.procs[i], s.cycle).status != Ready;
        assert !HoldsCpu(s.procs[i]);
      }
    } else {
      var i := HasCpu(alg, s).value;
      assert i < |jobs|;
      if s.running.Some? {
        assert HoldsCpu(s.procs[i]);
      } else {
        assert Admit(s.procs[i], s.cycle).status == Ready;
      }
      assert !CannotRun(s.procs[i], s.cycle);
    }
  }

  lemma FinalStep(alg: Algorithm, s: State, jobs: seq<Job>, i: nat)
    requires Inv(alg, s, jobs) && |jobs| <= MAX && i < |jobs| && s.procs[i].status == Terminated
    ensures Step(alg, s).procs[i] == s.procs[i]
  {
    hide Step, Line;
    if HasCpu(alg, s) == Some(i) {
      PickedOk(alg, s, jobs);
      if s.running == None {
        LineIsReady(alg, s, jobs);
      }
    } else {
      StepOfOther(alg, s, jobs, i);
    }
  }

  /** Under every algorithm the record of a terminated process is final. */
  lemma {:induction false} RecordIsFinal(alg: Algorithm, jobs: seq<Job>, i: nat, k: nat, m: nat)
    requires |jobs| <= MAX && i < |jobs| && After(alg, jobs, k).procs[i].status == Terminated
    ensures After(alg, jobs, k + m).procs[i] == After(alg, jobs, k).procs[i]
  {
    hide Step, Inv;
    if m == 0 {
    } else {
      RecordIsFinal(alg, jobs, i, k, m - 1);
      Reachable(alg, jobs, k + (m - 1));
      FinalStep(alg, After(alg, jobs, k + (m - 1)), jobs, i);
      assert After(alg, jobs, k + m) == Step(alg, After(alg, jobs, k + (m - 1)));
    }
  }

  // ----- What a maintainer can rely on in every reachable state

  /**
   * I/O accounting under every algorithm and in every pass: the burst counter and the blocked time
   * cancel out, the release branch of step 4 is never taken, and a terminated process was blocked for
   * the cycles it ran beyond its burst bound (never, under round robin).
   */
  lemma {:induction false} NeverReleased(alg: Algorithm, jobs: seq<Job>, k: nat, i: nat)
    requires |jobs| <= MAX && i < |jobs|
    ensures !IsReleased(Execute(alg, Chosen(alg, After(alg, jobs, k))).procs[i])
    ensures var p := After(alg, jobs, k).procs[i];
            && Wrap(p.ioBurst + p.blockedTime) == 0
            && (p.status == Terminated ==>
                  p.blockedTime == if alg != RoundRobin && jobs[i].C > jobs[i].B then jobs[i].C - jobs[i].B else 0)
  {
    hide Step, Inv, Execute, Chosen, IsReleased;
    var s := After(alg, jobs, k);
    Reachable(alg, jobs, k);
    NotReleasedIn(alg, s, jobs, i);
    InvAt(alg, s, jobs, i);
    BlockedCancels(alg, s.procs[i]);
  }

  lemma NotReleasedIn(alg: Algorithm, s: State, jobs: seq<Job>, i: nat)
    requires Inv(alg, s, jobs) && |jobs| <= MAX && i < |jobs|
    ensures !IsReleased(Execute(alg, Chosen(alg, s)).procs[i])
  {
    StepShape(alg, s, jobs);
  }

  lemma BlockedCancels(alg: Algorithm, p: Proc)
    requires TimeOk(p) && IoOk(alg, p, 0)
    ensures Wrap(p.ioBurst + p.blockedTime) == 0
  {
    WrapInside(0 - p.blockedTime, p.blockedTime);
  }

  /**
   * The queue, the CPU and the counter agree with the process states between any two passes: the ready
   * queue is a duplicate-free list of exactly the ready processes, only `runningProcess` is running or
   * blocked, a process is terminated exactly when its CPU time is used up, and the counter counts those.
   */
  lemma {:induction false} StatesAgree(alg: Algorithm, jobs: seq<Job>, k: nat, i: nat)
    requires |jobs| <= MAX && i < |jobs|
    ensures var s := After(alg, jobs, k);
            && Distinct(s.ready)
            && (i in s.ready <==> s.procs[i].status == Ready)
            && (s.running == Some(i) <==> HoldsCpu(s.procs[i]))
            && (s.procs[i].status == Terminated <==> s.procs[i].cpuTime == jobs[i].C)
            && s.procs[i].cpuTime <= jobs[i].C
            && s.finished == Total(s.procs, Done)
  {
    hide Step;
    Reachable(alg, jobs, k);
    var s := After(alg, jobs, k);
    if i in s.ready {
      var j: nat :| j < |s.ready| && s.ready[j] == i;
    }
  }
}
