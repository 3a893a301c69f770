// A stable sort of process numbers by their burst bound B, and its characterisation.
// `sortQueue` (a bubble sort on an array) is proved in ProcessQueue.dfy to compute this function.
module StableSort {

  predicate InRange(q: seq<nat>, B: seq<nat>) {
    forall k :: 0 <= k < |q| ==> q[k] < |B|
  }

  predicate SortedBy(q: seq<nat>, B: seq<nat>)
    requires InRange(q, B)
  {
    forall j, k :: 0 <= j < k < |q| ==> B[q[j]] <= B[q[k]]
  }

  /** Puts x behind the last element whose key is at most x's. */
  function Insert(q: seq<nat>, x: nat, B: seq<nat>): (r: seq<nat>)
    requires InRange(q, B) && x < |B|
    ensures InRange(r, B) && |r| == |q| + 1
  {
    if q == [] || B[q[|q| - 1]] <= B[x] then
      q + [x]
    else
      Insert(q[..|q| - 1], x, B) + [q[|q| - 1]]
  }

  function Sort(q: seq<nat>, B: seq<nat>): (r: seq<nat>)
    requires InRange(q, B)
    ensures InRange(r, B) && |r| == |q|
  {
    if q == [] then []
    else Insert(Sort(q[..|q| - 1], B), q[|q| - 1], B)
  }

  /** The elements of q whose key is v, in the order they have in q. */
  function WithKey(q: seq<nat>, v: nat, B: seq<nat>): seq<nat>
    requires InRange(q, B)
  {
    if q == [] then []
    else if B[q[|q| - 1]] == v then WithKey(q[..|q| - 1], v, B) + [q[|q| - 1]]
    else WithKey(q[..|q| - 1], v, B)
  }

  lemma {:induction false} InsertIsPermutation(q: seq<nat>, x: nat, B: seq<nat>)
    requires InRange(q, B) && x < |B|
    ensures multiset(Insert(q, x, B)) == multiset(q) + multiset{x}
  {
    if q != [] && B[q[|q| - 1]] > B[x] {
      InsertIsPermutation(q[..|q| - 1], x, B);
      assert q == q[..|q| - 1] + [q[|q| - 1]];
    }
  }

  lemma {:induction false} SortIsPermutation(q: seq<nat>, B: seq<nat>)
    requires InRange(q, B)
    ensures multiset(Sort(q, B)) == multiset(q)
  {
    if q == [] {
    } else {
      SortIsPermutation(q[..|q| - 1], B);
      InsertIsPermutation(Sort(q[..|q| - 1], B), q[|q| - 1], B);
      assert q == q[..|q| - 1] + [q[|q| - 1]];
    }
  }

  lemma {:induction false} MembersOfSort(q: seq<nat>, B: seq<nat>)
    requires InRange(q, B)
    ensures forall x :: x in Sort(q, B) <==> x in q
  {
    SortIsPermutation(q, B);
    forall x ensures x in Sort(q, B) <==> x in q {
      assert x in multiset(Sort(q, B)) <==> x in multiset(q);
    }
  }

  lemma SortedSnoc(q: seq<nat>, x: nat, B: seq<nat>)
    requires InRange(q, B) && x < |B| && SortedBy(q, B)
    requires forall y :: y in q ==> B[y] <= B[x]
    ensures SortedBy(q + [x], B)
  {
    forall k | 0 <= k < |q| ensures B[q[k]] <= B[x] {
      assert q[k] in q;
    }
  }

  lemma {:induction false} InsertKeepsSorted(q: seq<nat>, x: nat, B: seq<nat>)
    requires InRange(q, B) && x < |B| && SortedBy(q, B)
    ensures SortedBy(Insert(q, x, B), B)
  {
    if q == [] || B[q[|q| - 1]] <= B[x] {
      forall y | y in q ensures B[y] <= B[x] {
        var k :| 0 <= k < |q| && q[k] == y;
      }
      SortedSnoc(q, x, B);
    } else {
      var front, last := q[..|q| - 1], q[|q| - 1];
      InsertKeepsSorted(front, x, B);
      InsertIsPermutation(front, x, B);
      forall y | y in Insert(front, x, B) ensures B[y] <= B[last] {
        assert y in multiset(Insert(front, x, B));
        assert y in front || y == x;
      }
      SortedSnoc(Insert(front, x, B), last, B);
    }
  }

  lemma {:induction false} SortIsSorted(q: seq<nat>, B: seq<nat>)
    requires InRange(q, B)
    ensures SortedBy(Sort(q, B), B)
  {
    if q == [] {
    } else {
      SortIsSorted(q[..|q| - 1], B);
      InsertKeepsSorted(Sort(q[..|q| - 1], B), q[|q| - 1], B);
    }
  }

  lemma {:induction false} Snoc(q: seq<nat>, x: nat, v: nat, B: seq<nat>)
    requires InRange(q, B) && x < |B|
    ensures InRange(q + [x], B)
    ensures Sort(q + [x], B) == Insert(Sort(q, B), x, B)
    ensures WithKey(q + [x], v, B) == if B[x] == v then WithKey(q, v, B) + [x] else WithKey(q, v, B)
  {
    assert (q + [x])[..|q|] == q;
  }

  lemma {:induction false} InsertWithKey(q: seq<nat>, x: nat, v: nat, B: seq<nat>)
    requires InRange(q, B) && x < |B|
    ensures WithKey(Insert(q, x, B), v, B) == if B[x] == v then WithKey(q, v, B) + [x] else WithKey(q, v, B)
  {
    if q == [] || B[q[|q| - 1]] <= B[x] {
      Snoc(q, x, v, B);
    } else {
      var front, last := q[..|q| - 1], q[|q| - 1];
      InsertWithKey(front, x, v, B);
      Snoc(Insert(front, x, B), last, v, B);
    }
  }

  /** Stability: elements with equal keys keep their order. */
  lemma {:induction false} SortIsStable(q: seq<nat>, v: nat, B: seq<nat>)
    requires InRange(q, B)
    ensures WithKey(Sort(q, B), v, B) == WithKey(q, v, B)
  {
    if q == [] {
    } else {
      SortIsStable(q[..|q| - 1], v, B);
      InsertWithKey(Sort(q[..|q| - 1], B), q[|q| - 1], v, B);
    }
  }

  lemma {:induction false} SortOfSorted(q: seq<nat>, B: seq<nat>)
    requires InRange(q, B) && SortedBy(q, B)
    ensures Sort(q, B) == q
  {
    if q == [] {
    } else {
      SortOfSorted(q[..|q| - 1], B);
    }
  }

  lemma {:induction false} InsertBefore(q: seq<nat>, last: nat, x: nat, B: seq<nat>)
    requires InRange(q, B) && last < |B| && x < |B| && B[x] < B[last]
    ensures Insert(q + [last], x, B) == Insert(q, x, B) + [last]
  {
    assert (q + [last])[..|q|] == q;
  }

  lemma {:induction false} InsertsCommute(q: seq<nat>, x: nat, y: nat, B: seq<nat>)
    requires InRange(q, B) && x < |B| && y < |B| && B[x] > B[y]
    ensures Insert(Insert(q, x, B), y, B) == Insert(Insert(q, y, B), x, B)
  {
    if q == [] || B[q[|q| - 1]] <= B[x] {
      InsertBefore(q, x, y, B);
    } else {
      var front, last := q[..|q| - 1], q[|q| - 1];
      InsertsCommute(front, x, y, B);
      InsertBefore(Insert(front, x, B), last, y, B);
      InsertBefore(Insert(front, y, B), last, x, B);
    }
  }

  predicate Swapped(q: seq<nat>, r: seq<nat>, j: nat) {
    && j + 1 < |q|
    && r == q[j := q[j + 1]][j + 1 := q[j]]
  }

  /** Exchanging two neighbours that are out of order does not change what sorting gives. */
  lemma {:induction false} SwapKeepsSort(q: seq<nat>, r: seq<nat>, j: nat, B: seq<nat>)
    requires InRange(q, B) && Swapped(q, r, j) && B[q[j]] > B[q[j + 1]]
    ensures InRange(r, B) && Sort(r, B) == Sort(q, B)
    decreases |q|
  {
    hide Sort, Insert, WithKey;
    var n := |q| - 1;
    var last := q[n];
    if j + 1 == n {
      var front, x := q[..j], q[j];
      assert q == (front + [x]) + [last] && r == (front + [last]) + [x];
      Snoc(front, x, 0, B);
      Snoc(front, last, 0, B);
      Snoc(front + [x], last, 0, B);
      Snoc(front + [last], x, 0, B);
      InsertsCommute(Sort(front, B), x, last, B);
    } else {
      assert Swapped(q[..n], r[..n], j);
      SwapKeepsSort(q[..n], r[..n], j, B);
      assert q == q[..n] + [last] && r == r[..n] + [last];
      Snoc(q[..n], last, 0, B);
      Snoc(r[..n], last, 0, B);
    }
  }

  lemma {:induction false} WithKeyMembers(q: seq<nat>, v: nat, B: seq<nat>)
    requires InRange(q, B)
    ensures forall x :: x in WithKey(q, v, B) <==> x in q && B[x] == v
  {
    if q == [] {
    } else {
      WithKeyMembers(q[..|q| - 1], v, B);
      assert q == q[..|q| - 1] + [q[|q| - 1]];
    }
  }

  lemma Cancel(a: seq<nat>, b: seq<nat>, x: nat, y: nat)
    requires a + [x] == b + [y]
    ensures a == b && x == y
  {
    assert (a + [x])[..|a|] == a && (b + [y])[..|b|] == b;
    assert (a + [x])[|a|] == x && (b + [y])[|b|] == y;
  }

  /** A sorted sequence that keeps the order of equal keys is the stable sort: there is only one. */
  lemma {:induction false} StableSortUnique(q: seq<nat>, r: seq<nat>, B: seq<nat>)
    requires InRange(q, B) && InRange(r, B) && SortedBy(q, B) && SortedBy(r, B)
    requires forall v :: WithKey(r, v, B) == WithKey(q, v, B)
    ensures r == q
    decreases |r|
  {
    hide Sort, Insert, WithKey;
    if r == [] {
      if q != [] {
        LastKeyAtMost(q, r, B);
      }
    } else {
      LastKeyAtMost(r, q, B);
      LastKeyAtMost(q, r, B);
      var r0, q0, x, y := r[..|r| - 1], q[..|q| - 1], r[|r| - 1], q[|q| - 1];
      assert r == r0 + [x] && q == q0 + [y];
      Snoc(r0, x, B[x], B);
      Snoc(q0, y, B[x], B);
      assert WithKey(r, B[x], B) == WithKey(q, B[x], B);
      Cancel(WithKey(r0, B[x], B), WithKey(q0, B[x], B), x, y);
      forall v ensures WithKey(r0, v, B) == WithKey(q0, v, B) {
        Snoc(r0, x, v, B);
        Snoc(q0, y, v, B);
        assert WithKey(r, v, B) == WithKey(q, v, B);
        if B[x] == v {
          Cancel(WithKey(r0, v, B), WithKey(q0, v, B), x, y);
        }
      }
      StableSortUnique(q0, r0, B);
    }
  }

  lemma {:induction false} LastKeyAtMost(q: seq<nat>, r: seq<nat>, B: seq<nat>)
    requires InRange(q, B) && InRange(r, B) && SortedBy(r, B) && q != []
    requires forall v :: WithKey(r, v, B) == WithKey(q, v, B)
    ensures r != [] && B[q[|q| - 1]] <= B[r[|r| - 1]]
  {
    var x := q[|q| - 1];
    WithKeyMembers(q, B[x], B);
    WithKeyMembers(r, B[x], B);
    assert WithKey(r, B[x], B) == WithKey(q, B[x], B);
    assert x in q;
    assert x in r;
  }
}
