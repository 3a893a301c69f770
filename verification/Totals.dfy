// Sums of a weight over the process list.
module Totals {
  import opened SchedulerModel

  function Total(procs: seq<Proc>, weight: Proc -> nat): nat {
    if procs == [] then 0 else Total(procs[..|procs| - 1], weight) + weight(procs[|procs| - 1])
  }

  lemma {:induction false} TotalMonotone(procs: seq<Proc>, procs': seq<Proc>, f: Proc -> nat, g: Proc -> nat)
    requires |procs| == |procs'|
    requires forall i :: 0 <= i < |procs| ==> f(procs[i]) <= g(procs'[i])
    ensures Total(procs, f) <= Total(procs', g)
  {
    if procs == [] {
    } else {
      TotalMonotone(procs[..|procs| - 1], procs'[..|procs| - 1], f, g);
    }
  }

  lemma {:induction false} TotalSame(procs: seq<Proc>, procs': seq<Proc>, f: Proc -> nat, g: Proc -> nat)
    requires |procs| == |procs'|
    requires forall i :: 0 <= i < |procs| ==> f(procs[i]) == g(procs'[i])
    ensures Total(procs, f) == Total(procs', g)
  {
    TotalMonotone(procs, procs', f, g);
    TotalMonotone(procs', procs, g, f);
  }

  /** Two lists that differ in weight only at position i. */
  lemma {:induction false} TotalChange(procs: seq<Proc>, procs': seq<Proc>, f: Proc -> nat, g: Proc -> nat, i: nat)
    requires |procs| == |procs'| && i < |procs|
    requires forall j :: 0 <= j < |procs| && j != i ==> f(procs[j]) == g(procs'[j])
    ensures Total(procs', g) - g(procs'[i]) == Total(procs, f) - f(procs[i])
  {
    var n := |procs| - 1;
    if i == n {
      TotalSame(procs[..n], procs'[..n], f, g);
    } else {
      TotalChange(procs[..n], procs'[..n], f, g, i);
    }
  }

  lemma {:induction false} TotalMember(procs: seq<Proc>, f: Proc -> nat, i: nat)
    requires i < |procs|
    ensures f(procs[i]) <= Total(procs, f)
  {
    if i == |procs| - 1 {
    } else {
      TotalMember(procs[..|procs| - 1], f, i);
    }
  }

  lemma {:induction false} TotalAtMost(procs: seq<Proc>, f: Proc -> nat, bound: nat)
    requires forall i :: 0 <= i < |procs| ==> f(procs[i]) <= bound
    ensures Total(procs, f) <= bound * |procs|
  {
    if procs == [] {
    } else {
      TotalAtMost(procs[..|procs| - 1], f, bound);
    }
  }

  lemma {:induction false} TotalZero(procs: seq<Proc>, f: Proc -> nat)
    ensures Total(procs, f) == 0 <==> forall i :: 0 <= i < |procs| ==> f(procs[i]) == 0
  {
    if Total(procs, f) == 0 {
      forall i | 0 <= i < |procs| ensures f(procs[i]) == 0 {
        TotalMember(procs, f, i);
      }
    }
    if forall i :: 0 <= i < |procs| ==> f(procs[i]) == 0 {
      TotalAtMost(procs, f, 0);
    }
  }

  lemma {:induction false} TotalStrict(procs: seq<Proc>, procs': seq<Proc>, f: Proc -> nat, g: Proc -> nat, i: nat)
    requires |procs| == |procs'| && i < |procs|
    requires forall j :: 0 <= j < |procs| ==> f(procs[j]) <= g(procs'[j])
    requires f(procs[i]) < g(procs'[i])
    ensures Total(procs, f) < Total(procs', g)
  {
    var n := |procs| - 1;
    if i == n {
      TotalMonotone(procs[..n], procs'[..n], f, g);
    } else {
      TotalStrict(procs[..n], procs'[..n], f, g, i);
    }
  }

  lemma {:induction false} TotalAtLeast(procs: seq<Proc>, f: Proc -> nat)
    requires forall i :: 0 <= i < |procs| ==> f(procs[i]) >= 1
    ensures Total(procs, f) >= |procs|
  {
    if procs == [] {
    } else {
      TotalAtLeast(procs[..|procs| - 1], f);
    }
  }
}
