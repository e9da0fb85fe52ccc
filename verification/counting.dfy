/** Distinct and ascending sequences, and the sets they fill. */
module Counting {
  ghost predicate Distinct<T(!new)>(s: seq<T>) {
    forall i, j {:trigger s[i], s[j]} :: 0 <= i < j < |s| ==> s[i] != s[j]
  }

  function SetOf<T(!new)>(s: seq<T>): (r: set<T>)
    ensures forall x {:trigger x in r} {:trigger x in s} :: x in r <==> x in s
  {
    set x | x in s
  }

  function One(holds: bool): (n: nat)
    ensures n == 1 <==> holds
    ensures n <= 1
  {
    if holds then 1 else 0
  }

  function Below(n: nat): (r: set<nat>)
    ensures |r| == n && forall x: nat {:trigger x in r} :: x in r <==> x < n
  {
    if n == 0 then {} else Below(n - 1) + {n - 1}
  }

  lemma {:induction false} DistinctSize<T(!new)>(s: seq<T>)
    requires Distinct(s)
    ensures |SetOf(s)| == |s|
  {
    if s != [] {
      var last := |s| - 1;
      DistinctSize(s[..last]);
      assert SetOf(s) == SetOf(s[..last]) + {s[last]};
      assert s[last] !in s[..last];
    }
  }

  lemma SubsetSize<T(!new)>(a: set<T>, b: set<T>)
    requires a <= b
    ensures |a| <= |b|
  {
    assert b == a + (b - a);
  }

  // Two sets that differ in one element at most.
  lemma SetChange<T(!new)>(before: set<T>, after: set<T>, x: T)
    requires forall y {:trigger y in after} {:trigger y in before} :: y != x ==> (y in after <==> y in before)
    ensures |after| == |before| + One(x in after) - One(x in before)
  {
    if x in after {
      assert after == before + {x};
    } else {
      assert after == before - {x};
    }
  }

  // Distinct elements of a finite set are at most as many as the set has.
  lemma Pigeonhole<T(!new)>(s: seq<T>, pool: set<T>)
    requires Distinct(s) && forall x {:trigger x in s} :: x in s ==> x in pool
    ensures |s| <= |pool|
  {
    DistinctSize(s);
    SubsetSize(SetOf(s), pool);
  }

  ghost predicate Ascending(r: seq<nat>, n: nat) {
    && (forall i {:trigger r[i]} :: 0 <= i < |r| ==> r[i] < n)
    && forall i, j {:trigger r[i], r[j]} :: 0 <= i < j < |r| ==> r[i] < r[j]
  }

  lemma {:induction false} SameElementsSameOrder(a: seq<nat>, b: seq<nat>, n: nat)
    requires Ascending(a, n) && Ascending(b, n)
    requires forall i: nat {:trigger i in a} {:trigger i in b} :: i in a <==> i in b
    ensures a == b
  {
    HasMember(a);
    HasMember(b);
    if a != [] {
      LastsAgree(a, b, n);
      var front, rest := a[..|a| - 1], b[..|b| - 1];
      forall i: nat ensures i in front <==> i in rest {
        InFront(a, n, i);
        InFront(b, n, i);
      }
      hide Ascending;
      SameElementsSameOrder(front, rest, n);
      assert a == front + [a[|a| - 1]] && b == rest + [b[|b| - 1]];
    }
  }

  lemma LastsAgree(a: seq<nat>, b: seq<nat>, n: nat)
    requires Ascending(a, n) && Ascending(b, n)
    requires forall i: nat {:trigger i in a} {:trigger i in b} :: i in a <==> i in b
    requires a != [] && b != []
    ensures a[|a| - 1] == b[|b| - 1]
    ensures Ascending(a[..|a| - 1], n) && Ascending(b[..|b| - 1], n)
  {
    assert a[|a| - 1] in a && b[|b| - 1] in b;
  }

  lemma HasMember(a: seq<nat>)
    ensures a != [] ==> exists i: nat :: i in a
  {
    if a != [] {
      assert a[0] in a;
    }
  }

  lemma InFront(a: seq<nat>, n: nat, i: nat)
    requires Ascending(a, n) && a != []
    ensures i in a[..|a| - 1] <==> i in a && i != a[|a| - 1]
  {
    assert a == a[..|a| - 1] + [a[|a| - 1]];
  }
}
