// The scheduler simulator as a state machine on values: one `Step` is one pass through the body of a
// scheduling loop. Processes are named by their position in the process list, as `processID` does.
module SchedulerModel {
  import opened UInt32
  import opened Wrappers
  import opened StableSort

  datatype Algorithm = Fcfs | Sjf | RoundRobin

  datatype Status = Unstarted | Ready | Running | Blocked | Terminated

  /** The input of one process: arrival time, upper bound of CPU bursts, total CPU time. */
  datatype JobInput = JobInput(A: nat, B: nat, C: nat)

  /** A = 0..2^32-1; B is used as a divisor and C = 0 would never be reached, so both are positive. */
  type Job = j: JobInput | j.A <= MAX && 1 <= j.B <= MAX && 1 <= j.C <= MAX
    witness JobInput(0, 1, 1)

  datatype Proc = Proc(
    job: Job,
    status: Status,
    finishingTime: int,
    cpuTime: nat,
    blockedTime: nat,
    waitingTime: nat,
    ioBurst: nat,
    quantum: int)

  datatype State = State(
    procs: seq<Proc>,
    ready: seq<nat>,
    blocked: seq<nat>,
    running: Option<nat>,
    cycle: nat,
    finished: nat)

  /** Every process number in the state names a process. */
  predicate Indexed(s: State) {
    && (forall k :: 0 <= k < |s.ready| ==> s.ready[k] < |s.procs|)
    && (forall k :: 0 <= k < |s.blocked| ==> s.blocked[k] < |s.procs|)
    && (s.running.Some? ==> s.running.value < |s.procs|)
  }

  function Fresh(job: Job): Proc {
    Proc(job, Unstarted, -1, 0, 0, 0, 0, -1)
  }

  function Init(jobs: seq<Job>): (s: State)
    ensures Indexed(s) && |s.procs| == |jobs|
  {
    State(seq(|jobs|, i requires 0 <= i < |jobs| => Fresh(jobs[i])), [], [], None, 0, 0)
  }

  // ----- Step 1: arrivals

  predicate ArrivesAt(p: Proc, cycle: nat) {
    p.job.A == cycle && p.status == Unstarted
  }

  function Admit(p: Proc, cycle: nat): Proc {
    if ArrivesAt(p, cycle) then p.(status := Ready) else p
  }

  /** The processes among the first n that arrive in this cycle, in list order. */
  function NewArrivals(procs: seq<Proc>, cycle: nat, n: nat): (q: seq<nat>)
    requires n <= |procs|
    ensures forall k :: 0 <= k < |q| ==> q[k] < n && ArrivesAt(procs[q[k]], cycle)
    ensures forall i: nat :: i < n && ArrivesAt(procs[i], cycle) ==> i in q
    ensures forall j, k :: 0 <= j < k < |q| ==> q[j] < q[k]
  {
    if n == 0 then []
    else if ArrivesAt(procs[n - 1], cycle) then NewArrivals(procs, cycle, n - 1) + [n - 1]
    else NewArrivals(procs, cycle, n - 1)
  }

  function Arrive(s: State): (r: State)
    requires Indexed(s)
    ensures Indexed(r) && |r.procs| == |s.procs|
  {
    var arrivals := NewArrivals(s.procs, s.cycle, |s.procs|);
    s.(procs := seq(|s.procs|, i requires 0 <= i < |s.procs| => Admit(s.procs[i], s.cycle)),
       ready := s.ready + arrivals)
  }

  // ----- SJF only: sort the ready queue

  function Bursts(s: State): (B: seq<nat>)
    ensures |B| == |s.procs|
  {
    seq(|s.procs|, i requires 0 <= i < |s.procs| => s.procs[i].job.B)
  }

  function Arrange(alg: Algorithm, s: State): (r: State)
    requires Indexed(s)
    ensures Indexed(r) && |r.procs| == |s.procs|
  {
    if alg == Sjf then s.(ready := Sort(s.ready, Bursts(s))) else s
  }

  // ----- Step 2: dispatch

  function Start(alg: Algorithm, p: Proc): Proc {
    if alg == RoundRobin then p.(status := Running, quantum := 2) else p.(status := Running)
  }

  function Dispatch(alg: Algorithm, s: State): (r: State)
    requires Indexed(s)
    ensures Indexed(r) && |r.procs| == |s.procs|
  {
    if s.running.Some? || s.ready == [] then s
    else
      var i := s.ready[0];
      s.(procs := s.procs[i := Start(alg, s.procs[i])], ready := s.ready[1..], running := Some(i))
  }

  // ----- Step 3: run the process for one cycle

  predicate Completes(p: Proc) {
    Inc(p.cpuTime) == p.job.C
  }

  predicate Blocks(alg: Algorithm, p: Proc)
  {
    alg != RoundRobin && !Completes(p) && Inc(p.cpuTime) % p.job.B == 0
  }

  predicate IsPreempted(alg: Algorithm, p: Proc) {
    alg == RoundRobin && !Completes(p) && p.quantum == 1
  }

  function Finish(alg: Algorithm, p: Proc, cycle: nat): Proc {
    if alg == Fcfs then
      var waited := Dec(p.waitingTime);
      p.(status := Terminated, waitingTime := waited,
         finishingTime := AsInt32(Wrap(p.job.C + p.blockedTime + waited)))
    else
      p.(status := Terminated, finishingTime := AsInt32(Inc(cycle)))
  }

  function Run(alg: Algorithm, p: Proc, cycle: nat): Proc
  {
    var q := p.(cpuTime := Inc(p.cpuTime), quantum := if alg == RoundRobin then p.quantum - 1 else p.quantum);
    if Completes(p) then Finish(alg, q, cycle)
    else if Blocks(alg, p) then q.(status := Blocked, waitingTime := Inc(q.waitingTime))
    else if IsPreempted(alg, p) then q.(status := Ready)
    else q
  }

  function Execute(alg: Algorithm, s: State): (r: State)
    requires Indexed(s)
    ensures Indexed(r) && |r.procs| == |s.procs|
  {
    if s.running.None? then s
    else
      var i := s.running.value;
      var p := s.procs[i];
      var r := s.(procs := s.procs[i := Run(alg, p, s.cycle)]);
      if Completes(p) then
        r.(running := None, finished := Inc(s.finished),
           cycle := if alg == RoundRobin then Inc(s.cycle) else s.cycle)
      else if Blocks(alg, p) then r.(blocked := s.blocked + [i])
      else if IsPreempted(alg, p) then r.(ready := s.ready + [i], running := None)
      else r
  }

  // ----- Step 4: charge waiting and blocked time

  predicate IsReleased(p: Proc) {
    p.status == Blocked && Dec(p.ioBurst) == 0
  }

  function Charge(p: Proc): Proc {
    var q := if p.status == Blocked then
               p.(ioBurst := Dec(p.ioBurst), blockedTime := Inc(p.blockedTime),
                  status := if IsReleased(p) then Ready else Blocked)
             else p;
    if q.status == Ready then q.(waitingTime := Inc(q.waitingTime)) else q
  }

  /** The loop body for process i; a release moves the front of the blocked queue to the ready queue. */
  function ChargeOne(s: State, i: nat): (r: State)
    requires Indexed(s) && i < |s.procs|
    ensures Indexed(r) && |r.procs| == |s.procs|
  {
    var r := s.(procs := s.procs[i := Charge(s.procs[i])]);
    if IsReleased(s.procs[i]) && s.blocked != [] then
      r.(ready := s.ready + [s.blocked[0]], blocked := s.blocked[1..])
    else r
  }

  function ChargeUpTo(s: State, n: nat): (r: State)
    requires Indexed(s) && n <= |s.procs|
    ensures Indexed(r) && |r.procs| == |s.procs|
  {
    if n == 0 then s else ChargeOne(ChargeUpTo(s, n - 1), n - 1)
  }

  // ----- One pass of the loop, and runs

  /** After steps 1 and 2: arrivals admitted and, if the CPU was free, a process dispatched. */
  function Chosen(alg: Algorithm, s: State): (r: State)
    requires Indexed(s)
    ensures Indexed(r) && |r.procs| == |s.procs|
  {
    Dispatch(alg, Arrange(alg, Arrive(s)))
  }

  function Step(alg: Algorithm, s: State): (r: State)
    requires Indexed(s)
    ensures Indexed(r) && |r.procs| == |s.procs|
  {
    var charged := ChargeUpTo(Execute(alg, Chosen(alg, s)), |s.procs|);
    charged.(cycle := Inc(charged.cycle))
  }

  /** The state after k passes, starting from the freshly read process list. */
  function After(alg: Algorithm, jobs: seq<Job>, k: nat): (s: State)
    ensures Indexed(s) && |s.procs| == |jobs|
  {
    if k == 0 then Init(jobs) else Step(alg, After(alg, jobs, k - 1))
  }
}
