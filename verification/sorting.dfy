/** The library's stable sort, by insertion, for any total order. */
module Sorting {
  ghost predicate Ordered<T(!new)>(before: (T, T) -> bool, s: seq<T>) {
    forall i, j {:trigger s[i], s[j]} :: 0 <= i < j < |s| ==> before(s[i], s[j])
  }

  ghost predicate TotalOrder<T(!new)>(before: (T, T) -> bool) {
    && (forall a, b {:trigger before(a, b)} :: before(a, b) || before(b, a))
    && forall a, b, c {:trigger before(a, b), before(b, c)} :: before(a, b) && before(b, c) ==> before(a, c)
  }

  function Insert<T>(before: (T, T) -> bool, s: seq<T>, x: T): (r: seq<T>)
    ensures multiset(r) == multiset(s) + multiset{x}
  {
    if s == [] || before(s[|s| - 1], x) then s + [x]
    else
      var last := |s| - 1;
      assert s == s[..last] + [s[last]];
      Insert(before, s[..last], x) + [s[last]]
  }

  function Sort<T>(before: (T, T) -> bool, s: seq<T>): (r: seq<T>)
    ensures multiset(r) == multiset(s)
  {
    if s == [] then []
    else
      assert s == s[..|s| - 1] + [s[|s| - 1]];
      Insert(before, Sort(before, s[..|s| - 1]), s[|s| - 1])
  }

  lemma OrderedSnoc<T(!new)>(before: (T, T) -> bool, s: seq<T>, x: T)
    requires Ordered(before, s) && forall y {:trigger y in s} :: y in s ==> before(y, x)
    ensures Ordered(before, s + [x])
  {
    var after := s + [x];
    forall i, j {:trigger after[i], after[j]} | 0 <= i < j < |after| ensures before(after[i], after[j]) {
      assert after[i] in s;
    }
  }

  lemma OrderedLast<T(!new)>(before: (T, T) -> bool, s: seq<T>)
    requires Ordered(before, s) && s != []
    ensures Ordered(before, s[..|s| - 1])
    ensures forall y {:trigger y in s[..|s| - 1]} :: y in s[..|s| - 1] ==> before(y, s[|s| - 1])
  {
  }

  lemma InsertMembers<T(!new)>(before: (T, T) -> bool, s: seq<T>, x: T)
    ensures forall y {:trigger y in Insert(before, s, x)} :: y in Insert(before, s, x) ==> y == x || y in s
  {
    hide Insert;
    forall y | y in Insert(before, s, x) ensures y == x || y in s {
      assert y in multiset(Insert(before, s, x));
    }
  }

  lemma SortMembers<T(!new)>(before: (T, T) -> bool, s: seq<T>)
    ensures forall y {:trigger y in Sort(before, s)} {:trigger y in s} :: y in Sort(before, s) <==> y in s
  {
    hide Sort;
    forall y ensures y in Sort(before, s) <==> y in s {
      assert y in multiset(Sort(before, s)) <==> y in multiset(s);
    }
  }

  lemma {:induction false} InsertOrdered<T(!new)>(before: (T, T) -> bool, s: seq<T>, x: T)
    requires TotalOrder(before) && Ordered(before, s)
    ensures Ordered(before, Insert(before, s, x))
  {
    hide Ordered;
    if s == [] {
      OrderedSnoc(before, s, x);
    } else {
      var front, last := s[..|s| - 1], s[|s| - 1];
      OrderedLast(before, s);
      if before(last, x) {
        assert s == front + [last];
        OrderedSnoc(before, s, x);
      } else {
        InsertOrdered(before, front, x);
        InsertMembers(before, front, x);
        OrderedSnoc(before, Insert(before, front, x), last);
      }
    }
  }

  lemma {:induction false} SortIsOrdered<T(!new)>(before: (T, T) -> bool, s: seq<T>)
    requires TotalOrder(before)
    ensures Ordered(before, Sort(before, s))
  {
    if s != [] {
      SortIsOrdered(before, s[..|s| - 1]);
      InsertOrdered(before, Sort(before, s[..|s| - 1]), s[|s| - 1]);
    } else {
      assert Sort(before, s) == [];
    }
  }

  // The elements that the order puts level with one, in sequence.
  function Level<T>(before: (T, T) -> bool, s: seq<T>, x: T): seq<T> {
    if s == [] then []
    else
      var last := s[|s| - 1];
      Level(before, s[..|s| - 1], x) + if before(last, x) && before(x, last) then [last] else []
  }

  lemma LevelSnoc<T(!new)>(before: (T, T) -> bool, s: seq<T>, y: T, x: T)
    ensures Level(before, s + [y], x) == Level(before, s, x) + if before(y, x) && before(x, y) then [y] else []
  {
    assert (s + [y])[..|s|] == s;
  }

  lemma {:induction false} InsertLevel<T(!new)>(before: (T, T) -> bool, s: seq<T>, y: T, x: T)
    requires TotalOrder(before)
    ensures Level(before, Insert(before, s, y), x) ==
      Level(before, s, x) + if before(y, x) && before(x, y) then [y] else []
  {
    hide Level;
    if s == [] || before(s[|s| - 1], y) {
      LevelSnoc(before, s, y, x);
    } else {
      var front, last := s[..|s| - 1], s[|s| - 1];
      assert s == front + [last];
      InsertLevel(before, front, y, x);
      LevelSnoc(before, Insert(before, front, y), last, x);
      LevelSnoc(before, front, last, x);
      NotBothLevel(before, last, y, x);
    }
  }

  lemma NotBothLevel<T(!new)>(before: (T, T) -> bool, a: T, b: T, x: T)
    requires TotalOrder(before) && !before(a, b)
    ensures !(before(a, x) && before(x, a) && before(b, x) && before(x, b))
  {
    assert before(a, x) && before(x, b) ==> before(a, b);
  }

  // Elements on one level keep the order they came in.
  lemma {:induction false} SortIsStable<T(!new)>(before: (T, T) -> bool, s: seq<T>, x: T)
    requires TotalOrder(before)
    ensures Level(before, Sort(before, s), x) == Level(before, s, x)
  {
    if s != [] {
      SortIsStable(before, s[..|s| - 1], x);
      InsertLevel(before, Sort(before, s[..|s| - 1]), s[|s| - 1], x);
    }
  }
}
