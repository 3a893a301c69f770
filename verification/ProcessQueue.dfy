// The process records and the linked FIFO queue of the scheduler, on the heap.
module ProcessQueue {
  import opened StableSort
  import opened SchedulerModel

  class Process {
    const job: Job
    const processID: nat
    var status: Status
    var finishingTime: int
    var currentCPUTimeRun: nat
    var currentIOBlockedTime: nat
    var currentWaitingTime: nat
    var IOBurst: nat
    var quantum: int

    /** A record as the input loop leaves it. */
    constructor (job: Job, processID: nat)
      ensures this.job == job && this.processID == processID
      ensures Record() == Fresh(job)
    {
      this.job := job;
      this.processID := processID;
      status := Unstarted;
      finishingTime := -1;
      currentCPUTimeRun, currentIOBlockedTime, currentWaitingTime := 0, 0, 0;
      IOBurst := 0;
      quantum := -1;
    }

    function Record(): Proc
      reads this
    {
      Proc(job, status, finishingTime, currentCPUTimeRun, currentIOBlockedTime, currentWaitingTime, IOBurst, quantum)
    }
  }

  class Node {
    var process: Process
    var next: Node?

    constructor (process: Process)
      ensures this.process == process && next == null
    {
      this.process := process;
      next := null;
    }
  }

  /** The process numbers of a list of processes. */
  ghost function Ids(q: seq<Process>): (r: seq<nat>)
    ensures |r| == |q|
  {
    seq(|q|, k requires 0 <= k < |q| => q[k].processID)
  }

  class Queue {
    var front: Node?
    var rear: Node?
    ghost var nodes: seq<Node>

    ghost predicate Valid()
      reads this, nodes
    {
      && (nodes == [] ==> front == null && rear == null)
      && (nodes != [] ==> front == nodes[0] && rear == nodes[|nodes| - 1] && nodes[|nodes| - 1].next == null)
      && (forall k :: 0 <= k < |nodes| - 1 ==> nodes[k].next == nodes[k + 1])
      && (forall j, k :: 0 <= j < k < |nodes| ==> nodes[j] != nodes[k])
    }

    ghost function Contents(): (q: seq<Process>)
      reads this, nodes
      ensures |q| == |nodes|
    {
      seq(|nodes|, k requires 0 <= k < |nodes| reads this, nodes => nodes[k].process)
    }

    constructor ()
      ensures Valid() && Contents() == [] && nodes == []
    {
      front, rear := null, null;
      nodes := [];
    }

    method Enqueue(process: Process)
      requires Valid()
      modifies this, nodes
      ensures Valid()
      ensures |nodes| == |old(nodes)| + 1 && nodes[..|old(nodes)|] == old(nodes) && fresh(nodes[|old(nodes)|])
      ensures Contents() == old(Contents()) + [process]
    {
      var temp := new Node(process);
      if rear == null {
        front := temp;
        rear := temp;
      } else {
        rear.next := temp;
        rear := temp;
      }
      nodes := nodes + [temp];
    }

    method Dequeue() returns (process: Process?)
      requires Valid()
      modifies this
      ensures Valid()
      ensures old(nodes) == [] ==> process == null && nodes == []
      ensures old(nodes) != [] ==> nodes == old(nodes)[1..]
      ensures old(nodes) != [] ==> process == old(Contents())[0] && Contents() == old(Contents())[1..]
    {
      if front == null {
        return null;
      }
      process := front.process;
      front := front.next;
      if front == null {
        rear := null;
      }
      nodes := nodes[1..];
    }

    /** The number of nodes, counted along the links. */
    method Size() returns (size: nat)
      requires Valid()
      ensures size == |nodes|
    {
      var node := front;
      size := 0;
      while node != null
        invariant size <= |nodes|
        invariant node == if size < |nodes| then nodes[size] else null
        decreases |nodes| - size
      {
        node := node.next;
        size := size + 1;
      }
    }

    method DequeueAll(arr: array<Process?>)
      requires Valid() && arr.Length == |nodes|
      modifies this, arr
      ensures Valid() && nodes == []
      ensures arr[..] == old(Contents())
    {
      ghost var all := Contents();
      for i := 0 to arr.Length
        invariant Valid() && nodes == old(nodes)[i..]
        invariant Contents() == all[i..]
        invariant arr[..i] == all[..i]
      {
        var process := Dequeue();
        arr[i] := process;
        assert arr[..i + 1] == all[..i] + [all[i]];
      }
      assert arr[..arr.Length] == arr[..];
    }

    method EnqueueAll(arr: array<Process?>)
      requires Valid() && nodes == []
      requires forall k :: 0 <= k < arr.Length ==> arr[k] != null
      modifies this
      ensures Valid() && Contents() == arr[..]
      ensures forall n :: n in nodes ==> fresh(n)
    {
      for i := 0 to arr.Length
        invariant Valid() && Contents() == arr[..i]
        invariant forall k :: 0 <= k < |nodes| ==> fresh(nodes[k])
      {
        ghost var before := nodes;
        Enqueue(arr[i]);
        assert nodes == before + [nodes[|before|]];
      }
      assert arr[..arr.Length] == arr[..];
    }

    /** Sorts the queue by B, keeping the order of equal processes. */
    method SortQueue(ghost B: seq<nat>)
      requires Valid()
      requires forall p :: p in Contents() ==> p.processID < |B| && B[p.processID] == p.job.B
      modifies this
      ensures Valid()
      ensures forall n :: n in nodes ==> fresh(n)
      ensures InRange(old(Ids(Contents())), B)
      ensures Ids(Contents()) == Sort(old(Ids(Contents())), B)
      ensures forall p :: p in Contents() ==> p in old(Contents())
    {
      var size := Size();
      var arr := new Process?[size];
      DequeueAll(arr);
      assert AllBurstOk(arr[..], B);
      BubbleSort(arr, B);
      EnqueueAll(arr);
      forall p | p in Contents() ensures p in old(Contents()) {
        assert p in multiset(arr[..]);
      }
    }
  }

  predicate BurstOk(p: Process, B: seq<nat>) {
    p.processID < |B| && B[p.processID] == p.job.B
  }

  ghost predicate AllBurstOk(a: seq<Process?>, B: seq<nat>) {
    forall k :: 0 <= k < |a| ==> a[k] != null && BurstOk(a[k], B)
  }

  /** a is in order from position `from` on, and nothing before `from` exceeds what follows. */
  ghost predicate SortedFrom(a: seq<Process?>, from: int, B: seq<nat>)
    requires AllBurstOk(a, B)
  {
    forall j, k :: 0 <= j < k < |a| && from <= k ==> a[j].job.B <= a[k].job.B
  }

  ghost predicate LargestUpTo(a: seq<Process?>, j: nat, B: seq<nat>)
    requires AllBurstOk(a, B) && j < |a|
  {
    forall k :: 0 <= k < j ==> a[k].job.B <= a[j].job.B
  }

  lemma RangeOfIds(a: seq<Process?>, B: seq<nat>)
    requires AllBurstOk(a, B)
    ensures InRange(Ids(a), B)
  {
  }

  /** One exchange of the bubble sort, seen on process numbers. */
  lemma {:induction false} ExchangeKeepsSort(a: seq<Process?>, b: seq<Process?>, j: nat, B: seq<nat>)
    requires AllBurstOk(a, B) && j + 1 < |a| && b == a[j := a[j + 1]][j + 1 := a[j]]
    requires a[j].job.B > a[j + 1].job.B
    ensures AllBurstOk(b, B) && InRange(Ids(a), B) && InRange(Ids(b), B)
    ensures Sort(Ids(b), B) == Sort(Ids(a), B)
    ensures multiset(b) == multiset(a)
  {
    assert Swapped(Ids(a), Ids(b), j);
    SwapKeepsSort(Ids(a), Ids(b), j, B);
  }

  lemma ExchangeKeepsOrder(a: seq<Process?>, b: seq<Process?>, j: nat, n: nat, B: seq<nat>)
    requires AllBurstOk(a, B) && AllBurstOk(b, B) && j + 1 < n <= |a|
    requires SortedFrom(a, n, B) && LargestUpTo(a, j, B)
    requires b == if a[j].job.B > a[j + 1].job.B then a[j := a[j + 1]][j + 1 := a[j]] else a
    ensures SortedFrom(b, n, B) && LargestUpTo(b, j + 1, B)
  {
  }

  lemma LargestIsInPlace(a: seq<Process?>, n: nat, B: seq<nat>)
    requires AllBurstOk(a, B) && 0 < n <= |a| && SortedFrom(a, n, B) && LargestUpTo(a, n - 1, B)
    ensures SortedFrom(a, n - 1, B)
  {
  }

  /** The comparison and exchange at position j. */
  method CompareExchange(arr: array<Process?>, j: nat, ghost B: seq<nat>)
    requires j + 1 < arr.Length && AllBurstOk(arr[..], B)
    modifies arr
    ensures AllBurstOk(arr[..], B)
    ensures var a := old(arr[..]);
            arr[..] == if a[j].job.B > a[j + 1].job.B then a[j := a[j + 1]][j + 1 := a[j]] else a
    ensures InRange(Ids(arr[..]), B) && InRange(old(Ids(arr[..])), B)
    ensures Sort(Ids(arr[..]), B) == Sort(old(Ids(arr[..])), B)
    ensures multiset(arr[..]) == multiset(old(arr[..]))
  {
    ghost var a := arr[..];
    RangeOfIds(a, B);
    if arr[j].job.B > arr[j + 1].job.B {
      var temp := arr[j];
      arr[j] := arr[j + 1];
      arr[j + 1] := temp;
      assert arr[..] == a[j := a[j + 1]][j + 1 := a[j]];
      ExchangeKeepsSort(a, arr[..], j, B);
    }
  }

  lemma {:induction false} SortedIds(a: seq<Process?>, B: seq<nat>)
    requires AllBurstOk(a, B) && SortedFrom(a, 1, B)
    ensures InRange(Ids(a), B) && Sort(Ids(a), B) == Ids(a)
  {
    assert SortedBy(Ids(a), B);
    SortOfSorted(Ids(a), B);
  }

  /** One pass: carries the largest of the first n elements to position n - 1. */
  method BubblePass(arr: array<Process?>, n: nat, ghost B: seq<nat>)
    requires 0 < n <= arr.Length
    requires AllBurstOk(arr[..], B) && SortedFrom(arr[..], n, B)
    modifies arr
    ensures AllBurstOk(arr[..], B) && SortedFrom(arr[..], n - 1, B)
    ensures InRange(Ids(arr[..]), B) && InRange(old(Ids(arr[..])), B)
    ensures Sort(Ids(arr[..]), B) == Sort(old(Ids(arr[..])), B)
    ensures multiset(arr[..]) == multiset(old(arr[..]))
  {
    hide Sort, SortedFrom, LargestUpTo;
    ghost var a0 := arr[..];
    RangeOfIds(a0, B);
    NothingBefore(a0, B);
    for j := 0 to n - 1
      invariant AllBurstOk(arr[..], B) && SortedFrom(arr[..], n, B)
      invariant LargestUpTo(arr[..], j, B)
      invariant InRange(Ids(arr[..]), B) && Sort(Ids(arr[..]), B) == Sort(Ids(a0), B)
      invariant multiset(arr[..]) == multiset(a0)
    {
      ghost var a := arr[..];
      CompareExchange(arr, j, B);
      ExchangeKeepsOrder(a, arr[..], j, n, B);
    }
    LargestIsInPlace(arr[..], n, B);
  }

  lemma NothingBefore(a: seq<Process?>, B: seq<nat>)
    requires AllBurstOk(a, B) && |a| > 0
    ensures LargestUpTo(a, 0, B)
  {
  }

  method BubbleSort(arr: array<Process?>, ghost B: seq<nat>)
    requires AllBurstOk(arr[..], B)
    modifies arr
    ensures AllBurstOk(arr[..], B) && InRange(old(Ids(arr[..])), B)
    ensures Ids(arr[..]) == Sort(old(Ids(arr[..])), B)
    ensures multiset(arr[..]) == multiset(old(arr[..]))
  {
    ghost var a0 := arr[..];
    RangeOfIds(a0, B);
    var i := 0;
    while i < arr.Length - 1
      invariant 0 <= i <= arr.Length
      invariant arr.Length > 0 ==> i < arr.Length
      invariant AllBurstOk(arr[..], B) && SortedFrom(arr[..], arr.Length - i, B)
      invariant InRange(Ids(arr[..]), B) && Sort(Ids(arr[..]), B) == Sort(Ids(a0), B)
      invariant multiset(arr[..]) == multiset(a0)
    {
      BubblePass(arr, arr.Length - i, B);
      i := i + 1;
    }
    SortedIds(arr[..], B);
  }
}
