// The scheduling loops on the heap: each step of a pass refines its function in SchedulerModel.
module Simulator {
  import opened UInt32
  import opened Wrappers
  import opened SchedulerModel
  import opened SchedulerSafety
  import opened SchedulerTermination
  import opened ProcessQueue

  class Simulator {
    const processList: seq<Process>
    const readyQueue: Queue
    const blockedQueue: Queue
    var runningProcess: Process?
    var currentCycle: nat
    var totalFinishedProcesses: nat

    /** Queue nodes come from before or are new. */
    twostate predicate NodesKept()
      reads this, readyQueue, blockedQueue
    {
      && (forall k :: 0 <= k < |readyQueue.nodes| ==>
            readyQueue.nodes[k] in old(readyQueue.nodes) || fresh(readyQueue.nodes[k]))
      && (forall k :: 0 <= k < |blockedQueue.nodes| ==>
            blockedQueue.nodes[k] in old(blockedQueue.nodes) || fresh(blockedQueue.nodes[k]))
    }

    ghost predicate Listed(p: Process) {
      p.processID < |processList| && processList[p.processID] == p
    }

    ghost predicate Valid()
      reads this, processList, readyQueue, blockedQueue, readyQueue.nodes, blockedQueue.nodes
    {
      && readyQueue != blockedQueue
      && (forall i :: 0 <= i < |processList| ==> processList[i].processID == i)
      && readyQueue.Valid() && blockedQueue.Valid()
      && (forall j, k :: 0 <= j < |readyQueue.nodes| && 0 <= k < |blockedQueue.nodes| ==>
            readyQueue.nodes[j] != blockedQueue.nodes[k])
      && (forall p :: p in readyQueue.Contents() ==> Listed(p))
      && (forall p :: p in blockedQueue.Contents() ==> Listed(p))
      && (runningProcess != null ==> Listed(runningProcess))
    }

    ghost function Records(): (r: seq<Proc>)
      reads this, processList
      ensures |r| == |processList|
    {
      seq(|processList|, i requires 0 <= i < |processList| reads this, processList => processList[i].Record())
    }

    /** The state of the simulation as a value. */
    ghost function Abs(): (s: State)
      reads this, processList, readyQueue, blockedQueue, readyQueue.nodes, blockedQueue.nodes
      requires Valid()
      ensures Indexed(s) && |s.procs| == |processList|
    {
      assert forall k :: 0 <= k < |readyQueue.Contents()| ==> readyQueue.Contents()[k] in readyQueue.Contents();
      assert forall k :: 0 <= k < |blockedQueue.Contents()| ==> blockedQueue.Contents()[k] in blockedQueue.Contents();
      State(
        Records(),
        Ids(readyQueue.Contents()),
        Ids(blockedQueue.Contents()),
        if runningProcess == null then None else Some(runningProcess.processID),
        currentCycle,
        totalFinishedProcesses)
    }

    /** A freshly read process list, two empty queues, clock and counter at zero. */
    constructor (jobs: seq<Job>)
      ensures Valid() && readyQueue.nodes == [] && blockedQueue.nodes == []
      ensures fresh(readyQueue) && fresh(blockedQueue) && forall p :: p in processList ==> fresh(p)
      ensures Abs() == Init(jobs)
    {
      var list: seq<Process> := [];
      for i := 0 to |jobs|
        invariant |list| == i
        invariant forall k :: 0 <= k < i ==>
                    fresh(list[k]) && list[k].processID == k && list[k].Record() == Fresh(jobs[k])
      {
        var p := new Process(jobs[i], i);
        list := list + [p];
      }
      var ready := new Queue();
      var blocked := new Queue();
      processList := list;
      readyQueue := ready;
      blockedQueue := blocked;
      runningProcess := null;
      currentCycle, totalFinishedProcesses := 0, 0;
      new;
      assert Records() == Init(jobs).procs;
    }

    /** Changing one record changes one entry of the abstract process list and nothing else. */
    twostate lemma OneRecord(i: nat)
      requires old(Valid()) && i < |processList|
      requires unchanged(this) && unchanged(readyQueue) && unchanged(blockedQueue)
      requires unchanged(old(readyQueue.nodes)) && unchanged(old(blockedQueue.nodes))
      requires forall p: Process :: p in processList && p != processList[i] ==> p.Record() == old(p.Record())
      ensures Valid() && NodesKept()
      ensures Abs() == old(Abs()).(procs := old(Abs()).procs[i := processList[i].Record()])
    {
      forall k | 0 <= k < |processList| && k != i ensures Records()[k] == old(Records())[k] {
        var p := processList[k];
        assert p in processList && p.processID == k && processList[i].processID == i;
        assert p.Record() == old(p.Record());
        assert old(Records())[k] == old(p.Record());
      }
      assert Records() == old(Records())[i := processList[i].Record()];
      assert readyQueue.Contents() == old(readyQueue.Contents());
      assert blockedQueue.Contents() == old(blockedQueue.Contents());
    }

    /** Changing the running process, the clock or the counter changes just that. */
    twostate lemma CountersChanged()
      requires old(Valid()) && (runningProcess != null ==> Listed(runningProcess))
      requires unchanged(readyQueue) && unchanged(blockedQueue)
      requires unchanged(old(readyQueue.nodes)) && unchanged(old(blockedQueue.nodes))
      requires forall p: Process :: p in processList ==> p.Record() == old(p.Record())
      ensures Valid() && NodesKept()
      ensures Abs() == old(Abs()).(
                         running := if runningProcess == null then None else Some(runningProcess.processID),
                         cycle := currentCycle,
                         finished := totalFinishedProcesses)
    {
      forall k | 0 <= k < |processList| ensures Records()[k] == old(Records())[k] {
        var p := processList[k];
        assert p in processList && p.Record() == old(p.Record());
        assert old(Records())[k] == old(p.Record());
      }
      assert Records() == old(Records());
      assert readyQueue.Contents() == old(readyQueue.Contents());
      assert blockedQueue.Contents() == old(blockedQueue.Contents());
    }

    lemma RecordAt(i: nat)
      requires Valid() && i < |processList|
      ensures processList[i].processID == i && Listed(processList[i])
      ensures Abs().procs[i] == processList[i].Record()
      ensures Abs().cycle == currentCycle && Abs().finished == totalFinishedProcesses
      ensures runningProcess == null <==> Abs().running == None
    {
    }

    lemma RunningAt()
      requires Valid()
      ensures runningProcess == null <==> Abs().running == None
      ensures Abs().cycle == currentCycle && Abs().finished == totalFinishedProcesses
      ensures runningProcess != null ==>
                && Listed(runningProcess)
                && runningProcess.processID < |processList|
                && runningProcess == processList[runningProcess.processID]
                && Abs().running == Some(runningProcess.processID)
                && Abs().procs[runningProcess.processID] == runningProcess.Record()
    {
    }

    method EnqueueReady(p: Process)
      requires Valid() && Listed(p)
      modifies readyQueue, readyQueue.nodes
      ensures Valid() && NodesKept()
      ensures Abs() == old(Abs()).(ready := old(Abs()).ready + [p.processID])
    {
      readyQueue.Enqueue(p);
      assert Records() == old(Records());
    }

    method DequeueReady() returns (p: Process?)
      requires Valid()
      modifies readyQueue
      ensures Valid() && NodesKept()
      ensures p == null <==> old(Abs()).ready == []
      ensures p == null ==> Abs() == old(Abs())
      ensures p != null ==> Listed(p) && p.processID == old(Abs()).ready[0]
      ensures p != null ==> Abs() == old(Abs()).(ready := old(Abs()).ready[1..])
    {
      p := readyQueue.Dequeue();
      assert Records() == old(Records());
    }

    method EnqueueBlocked(p: Process)
      requires Valid() && Listed(p)
      modifies blockedQueue, blockedQueue.nodes
      ensures Valid() && NodesKept()
      ensures Abs() == old(Abs()).(blocked := old(Abs()).blocked + [p.processID])
    {
      blockedQueue.Enqueue(p);
      assert Records() == old(Records());
    }

    method DequeueBlocked() returns (p: Process?)
      requires Valid()
      modifies blockedQueue
      ensures Valid() && NodesKept()
      ensures p == null <==> old(Abs()).blocked == []
      ensures p == null ==> Abs() == old(Abs())
      ensures p != null ==> Listed(p) && p.processID == old(Abs()).blocked[0]
      ensures p != null ==> Abs() == old(Abs()).(blocked := old(Abs()).blocked[1..])
    {
      p := blockedQueue.Dequeue();
      assert Records() == old(Records());
    }

    method AdmitOne(i: nat)
      requires Valid() && i < |processList|
      modifies this, processList, readyQueue, blockedQueue, readyQueue.nodes, blockedQueue.nodes
      ensures Valid() && NodesKept()
      ensures Abs() == AdmitAt(old(Abs()), i)
    {
      hide Valid, Abs, Listed;
      RecordAt(i);
      var p := processList[i];
      if p.job.A == currentCycle && p.status == Unstarted {
        p.status := Ready;
        OneRecord(i);
        RecordAt(i);
        EnqueueReady(p);
      }
    }

    /** Step 1. */
    method AdmitArrivals()
      requires Valid()
      modifies this, processList, readyQueue, blockedQueue, readyQueue.nodes, blockedQueue.nodes
      ensures Valid() && NodesKept()
      ensures Abs() == Arrive(old(Abs()))
    {
      hide Valid, Abs;
      ghost var s := Abs();
      for i := 0 to |processList|
        invariant Valid() && NodesKept()
        invariant Abs() == ArriveUpTo(s, i)
      {
        AdmitOne(i);
        ArriveUpToStep(s, i);
      }
    }

    /** SJF sorts its ready queue in every pass. */
    method SortReady()
      requires Valid()
      modifies readyQueue
      ensures Valid() && NodesKept()
      ensures Abs() == Arrange(Sjf, old(Abs()))
    {
      ghost var B := Bursts(Abs());
      forall p | p in readyQueue.Contents() ensures p.processID < |B| && B[p.processID] == p.job.B {
        assert Listed(p);
        assert Abs().procs[p.processID] == p.Record();
      }
      readyQueue.SortQueue(B);
      assert forall k :: 0 <= k < |readyQueue.nodes| ==> readyQueue.nodes[k] in readyQueue.nodes;
      assert Records() == old(Records());
    }

    /** Step 2. */
    method DispatchNext(alg: Algorithm)
      requires Valid()
      modifies this, processList, readyQueue
      ensures Valid() && NodesKept()
      ensures Abs() == Dispatch(alg, old(Abs()))
    {
      hide Valid, Abs, Listed;
      RunningAt();
      if runningProcess == null {
        var p := DequeueReady();
        label dequeued:
        runningProcess := p;
        CountersChanged@dequeued();
        RunningAt();
        if p != null {
          label dispatched:
          p.status := Running;
          if alg == RoundRobin {
            p.quantum := 2;
          }
          OneRecord@dispatched(p.processID);
        }
      }
    }

    /** Step 3 of the FCFS loop. */
    method ExecuteFcfs()
      requires Valid()
      modifies this, processList, blockedQueue, blockedQueue.nodes
      ensures Valid() && NodesKept()
      ensures Abs() == Execute(Fcfs, old(Abs()))
    {
      hide Valid, Abs, Listed;
      RunningAt();
      if runningProcess != null {
        var p := runningProcess;
        label start:
        p.currentCPUTimeRun := Inc(p.currentCPUTimeRun);
        if p.currentCPUTimeRun == p.job.C {
          p.status := Terminated;
          p.currentWaitingTime := Dec(p.currentWaitingTime);
          p.finishingTime := AsInt32(Wrap(p.job.C + p.currentIOBlockedTime + p.currentWaitingTime));
          OneRecord@start(p.processID);
          RunningAt();
          label finished:
          totalFinishedProcesses := Inc(totalFinishedProcesses);
          runningProcess := null;
          CountersChanged@finished();
        } else if p.currentCPUTimeRun % p.job.B == 0 {
          p.status := Blocked;
          p.currentWaitingTime := Inc(p.currentWaitingTime);
          OneRecord@start(p.processID);
          EnqueueBlocked(processList[p.processID]);
        } else {
          OneRecord@start(p.processID);
        }
      }
    }

    /** Step 3 of the SJF loop. */
    method ExecuteSjf()
      requires Valid()
      modifies this, processList, blockedQueue, blockedQueue.nodes
      ensures Valid() && NodesKept()
      ensures Abs() == Execute(Sjf, old(Abs()))
    {
      hide Valid, Abs, Listed;
      RunningAt();
      if runningProcess != null {
        var p := runningProcess;
        label start:
        p.currentCPUTimeRun := Inc(p.currentCPUTimeRun);
        if p.currentCPUTimeRun == p.job.C {
          p.status := Terminated;
          p.finishingTime := AsInt32(Inc(currentCycle));
          OneRecord@start(p.processID);
          RunningAt();
          label finished:
          totalFinishedProcesses := Inc(totalFinishedProcesses);
          runningProcess := null;
          CountersChanged@finished();
        } else if p.currentCPUTimeRun % p.job.B == 0 {
          p.status := Blocked;
          p.currentWaitingTime := Inc(p.currentWaitingTime);
          OneRecord@start(p.processID);
          EnqueueBlocked(processList[p.processID]);
        } else {
          OneRecord@start(p.processID);
        }
      }
    }

    /** Step 3 of the round-robin loop. */
    method ExecuteRoundRobin()
      requires Valid()
      modifies this, processList, readyQueue, readyQueue.nodes
      ensures Valid() && NodesKept()
      ensures Abs() == Execute(RoundRobin, old(Abs()))
    {
      hide Valid, Abs, Listed;
      RunningAt();
      if runningProcess != null {
        var p := runningProcess;
        label start:
        p.currentCPUTimeRun := Inc(p.currentCPUTimeRun);
        p.quantum := p.quantum - 1;
        if p.currentCPUTimeRun == p.job.C {
          p.status := Terminated;
          p.finishingTime := AsInt32(Inc(currentCycle));
          OneRecord@start(p.processID);
          RunningAt();
          label finished:
          currentCycle := Inc(currentCycle);
          totalFinishedProcesses := Inc(totalFinishedProcesses);
          runningProcess := null;
          CountersChanged@finished();
        } else if p.quantum == 0 {
          p.status := Ready;
          OneRecord@start(p.processID);
          EnqueueReady(p);
          RunningAt();
          label preempted:
          runningProcess := null;
          CountersChanged@preempted();
        } else {
          OneRecord@start(p.processID);
        }
      }
    }

    /** Moves the front of the blocked queue to the rear of the ready queue. */
    method ReleaseFront()
      requires Valid()
      modifies readyQueue, blockedQueue, readyQueue.nodes
      ensures Valid() && NodesKept()
      ensures var s := old(Abs());
              Abs() == if s.blocked == [] then s
                       else s.(ready := s.ready + [s.blocked[0]], blocked := s.blocked[1..])
    {
      hide Valid, Abs, Listed;
      var released := DequeueBlocked();
      if released != null {
        EnqueueReady(released);
      }
    }

    /** The body of the loop of step 4. */
    method ChargeProcess(i: nat)
      requires Valid() && i < |processList|
      modifies this, processList, readyQueue, blockedQueue, readyQueue.nodes, blockedQueue.nodes
      ensures Valid() && NodesKept()
      ensures Abs() == ChargeOne(old(Abs()), i)
    {
      hide Valid, Abs, Listed;
      RecordAt(i);
      var p := processList[i];
      if p.status == Blocked {
        label blocked:
        p.IOBurst := Dec(p.IOBurst);
        p.currentIOBlockedTime := Inc(p.currentIOBlockedTime);
        if p.IOBurst == 0 {
          p.status := Ready;
          OneRecord@blocked(i);
          ReleaseFront();
        } else {
          OneRecord@blocked(i);
        }
        RecordAt(i);
      }
      if p.status == Ready {
        label waiting:
        p.currentWaitingTime := Inc(p.currentWaitingTime);
        OneRecord@waiting(i);
      }
    }

    /** Step 4. */
    method ChargeAll()
      requires Valid()
      modifies this, processList, readyQueue, blockedQueue, readyQueue.nodes, blockedQueue.nodes
      ensures Valid() && NodesKept()
      ensures Abs() == ChargeUpTo(old(Abs()), |processList|)
    {
      hide Valid, Abs, ChargeOne;
      ghost var s := Abs();
      for i := 0 to |processList|
        invariant Valid() && NodesKept()
        invariant Abs() == ChargeUpTo(s, i)
      {
        ChargeProcess(i);
      }
    }

    /** Steps 1 and 2. */
    method Choose(alg: Algorithm)
      requires Valid()
      modifies this, processList, readyQueue, blockedQueue, readyQueue.nodes, blockedQueue.nodes
      ensures Valid() && NodesKept()
      ensures Abs() == Chosen(alg, old(Abs()))
    {
      hide Valid, Abs, Arrive, Dispatch;
      AdmitArrivals();
      if alg == Sjf {
        SortReady();
      }
      DispatchNext(alg);
    }

    /** Step 3. */
    method ExecuteRunning(alg: Algorithm)
      requires Valid()
      modifies this, processList, readyQueue, blockedQueue, readyQueue.nodes, blockedQueue.nodes
      ensures Valid() && NodesKept()
      ensures Abs() == Execute(alg, old(Abs()))
    {
      hide Valid, Abs, Execute;
      match alg {
        case Fcfs => ExecuteFcfs();
        case Sjf => ExecuteSjf();
        case RoundRobin => ExecuteRoundRobin();
      }
    }

    method AdvanceClock()
      requires Valid()
      modifies this
      ensures Valid() && NodesKept()
      ensures Abs() == old(Abs()).(cycle := Inc(old(Abs()).cycle))
    {
      hide Valid, Abs, Listed;
      RunningAt();
      currentCycle := Inc(currentCycle);
      CountersChanged();
    }

    /** The body of the loop of the given algorithm. */
    method Pass(alg: Algorithm)
      requires Valid()
      modifies this, processList, readyQueue, blockedQueue, readyQueue.nodes, blockedQueue.nodes
      ensures Valid() && NodesKept()
      ensures Abs() == Step(alg, old(Abs()))
    {
      hide Valid, Abs, Chosen, Execute, ChargeUpTo;
      Choose(alg);
      ExecuteRunning(alg);
      ChargeAll();
      AdvanceClock();
    }

    /**
     * One scheduling loop. From freshly read processes it ends, for every input, in the state that
     * the model reaches after its last pass; if the counter already stands at n it does nothing.
     */
    method RunLoop(alg: Algorithm, ghost jobs: seq<Job>)
      requires Valid() && |jobs| == |processList| <= MAX
      requires Abs() == Init(jobs) || totalFinishedProcesses >= |processList|
      modifies this, processList, readyQueue, blockedQueue, readyQueue.nodes, blockedQueue.nodes
      ensures Valid() && NodesKept()
      ensures old(totalFinishedProcesses) >= |processList| ==> Abs() == old(Abs())
      ensures old(totalFinishedProcesses) < |processList| ==> Abs() == After(alg, jobs, ExitPass(alg, jobs))
    {
      hide Valid, Abs, Step, Inv, ExitPass;
      if totalFinishedProcesses >= |processList| {
        return;
      }
      ghost var k: nat := 0;
      RunningAt();
      Reachable(alg, jobs, 0);
      InvCycle(alg, Abs(), jobs);
      while totalFinishedProcesses < |processList|
        invariant Valid() && NodesKept()
        invariant Abs() == After(alg, jobs, k) && totalFinishedProcesses == Abs().finished
        invariant Inv(alg, Abs(), jobs) && Abs().cycle <= MAX
        invariant forall j: nat :: j < k ==> Unfinished(alg, jobs, j)
        decreases Work(Abs()), Idle(Abs())
      {
        Progress(alg, Abs(), jobs);
        InvCycle(alg, Step(alg, Abs()), jobs);
        Pass(alg);
        RunningAt();
        k := k + 1;
      }
      ExitIsUnique(alg, jobs, k);
    }

    /**
     * The three loops in the order of `main`. Nothing resets the counter of finished processes, so the
     * second and third loop do nothing and all three reports show the processes of the FCFS run.
     */
    method RunAll(ghost jobs: seq<Job>)
      requires Valid() && |jobs| == |processList| <= MAX && Abs() == Init(jobs)
      modifies this, processList, readyQueue, blockedQueue, readyQueue.nodes, blockedQueue.nodes
      ensures Valid() && NodesKept()
      ensures Abs() == After(Fcfs, jobs, ExitPass(Fcfs, jobs))
    {
      hide Valid, Abs, Step, Inv, ExitPass;
      RunningAt();
      EveryRunEnds(Fcfs, jobs);
      RunLoop(Fcfs, jobs);
      RunningAt();
      if |processList| == 0 {
        ExitIsUnique(Fcfs, jobs, 0);
      }
      RunLoop(Sjf, jobs);
      RunningAt();
      RunLoop(RoundRobin, jobs);
    }
  }

  lemma InvCycle(alg: Algorithm, s: State, jobs: seq<Job>)
    requires Inv(alg, s, jobs)
    ensures s.cycle <= MAX
  {
  }

  lemma ExitIsUnique(alg: Algorithm, jobs: seq<Job>, k: nat)
    requires |jobs| <= MAX && !Unfinished(alg, jobs, k)
    requires forall j: nat :: j < k ==> Unfinished(alg, jobs, j)
    ensures k == ExitPass(alg, jobs)
  {
    hide After, ExitPass;
    EveryRunEnds(alg, jobs);
    assert ExitPass(alg, jobs) < k ==> Unfinished(alg, jobs, ExitPass(alg, jobs));
  }

  // ----- Step 1 as a loop

  ghost function AdmitAt(s: State, i: nat): State
    requires i < |s.procs|
  {
    s.(procs := s.procs[i := Admit(s.procs[i], s.cycle)],
       ready := if ArrivesAt(s.procs[i], s.cycle) then s.ready + [i] else s.ready)
  }

  ghost function ArriveUpTo(s: State, n: nat): (r: State)
    requires n <= |s.procs|
    ensures n == |s.procs| && Indexed(s) ==> r == Arrive(s)
    ensures n == 0 ==> r == s
  {
    var r := s.(procs := seq(|s.procs|, i requires 0 <= i < |s.procs| =>
                               if i < n then Admit(s.procs[i], s.cycle) else s.procs[i]),
                ready := s.ready + NewArrivals(s.procs, s.cycle, n));
    assert n == |s.procs| && Indexed(s) ==> r.procs == Arrive(s).procs;
    assert n == 0 ==> r.procs == s.procs;
    r
  }

  lemma ArriveUpToStep(s: State, n: nat)
    requires n < |s.procs|
    ensures ArriveUpTo(s, n + 1) == AdmitAt(ArriveUpTo(s, n), n)
  {
    assert ArriveUpTo(s, n + 1).procs == AdmitAt(ArriveUpTo(s, n), n).procs;
  }
}
