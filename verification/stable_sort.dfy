/** `Array.prototype.sort` with a comparator, as a stable insertion sort.
    The language requires the sort to be stable; with a consistent comparator
    (a total preorder on the elements) every stable sort yields the same
    order, so insertion sort stands for the engine's algorithm. A comparator
    result `<= 0` means "may stay before". */
module StableSort {

  /** `cmp` is a total preorder on the elements of `elems`: any two can be
      compared, and "may stay before" is transitive. */
  ghost predicate TotalPreorderOn<T>(cmp: (T, T) -> int, elems: set<T>) {
    && (forall a, b | a in elems && b in elems :: cmp(a, b) <= 0 || cmp(b, a) <= 0)
    && (forall a, b, c | a in elems && b in elems && c in elems ::
          cmp(a, b) <= 0 && cmp(b, c) <= 0 ==> cmp(a, c) <= 0)
  }

  /** Every element may stay before every later one. */
  ghost predicate SortedBy<T>(s: seq<T>, cmp: (T, T) -> int) {
    forall i, j | 0 <= i < j < |s| :: cmp(s[i], s[j]) <= 0
  }

  /** Inserts `x` after the last element of `sorted` that may stay before it. */
  function Insert<T>(sorted: seq<T>, x: T, cmp: (T, T) -> int): (r: seq<T>)
    ensures multiset(r) == multiset(sorted) + multiset{x}
    ensures |r| == |sorted| + 1
  {
    if |sorted| == 0 then [x]
    else if cmp(sorted[|sorted| - 1], x) <= 0 then sorted + [x]
    else
      var last := sorted[|sorted| - 1];
      assert sorted == sorted[..|sorted| - 1] + [last];
      Insert(sorted[..|sorted| - 1], x, cmp) + [last]
  }

  /** Sorts `s` by inserting its elements one by one, left to right. */
  function Sort<T>(s: seq<T>, cmp: (T, T) -> int): (r: seq<T>)
    ensures multiset(r) == multiset(s)
    ensures |r| == |s|
  {
    if |s| == 0 then []
    else
      assert s == s[..|s| - 1] + [s[|s| - 1]];
      Insert(Sort(s[..|s| - 1], cmp), s[|s| - 1], cmp)
  }

  lemma Transitive<T>(cmp: (T, T) -> int, elems: set<T>, a: T, b: T, c: T)
    requires TotalPreorderOn(cmp, elems)
    requires a in elems && b in elems && c in elems
    requires cmp(a, b) <= 0 && cmp(b, c) <= 0
    ensures cmp(a, c) <= 0
  {
  }

  /** Appending an element that every element may stay before keeps order. */
  lemma AppendSorted<T>(s: seq<T>, x: T, cmp: (T, T) -> int)
    requires SortedBy(s, cmp)
    requires forall i | 0 <= i < |s| :: cmp(s[i], x) <= 0
    ensures SortedBy(s + [x], cmp)
  {
    var r := s + [x];
    forall i, j | 0 <= i < j < |r| ensures cmp(r[i], r[j]) <= 0 {
      if j < |s| {
        assert r[i] == s[i] && r[j] == s[j];
      }
    }
  }

  lemma {:induction false} InsertSorted<T>(sorted: seq<T>, x: T, cmp: (T, T) -> int, elems: set<T>)
    requires TotalPreorderOn(cmp, elems)
    requires forall y | y in sorted :: y in elems
    requires x in elems
    requires SortedBy(sorted, cmp)
    ensures SortedBy(Insert(sorted, x, cmp), cmp)
  {
    if |sorted| > 0 {
      var n := |sorted| - 1;
      var last := sorted[n];
      if cmp(last, x) <= 0 {
        forall i | 0 <= i < |sorted| ensures cmp(sorted[i], x) <= 0 {
          if i < n {
            Transitive(cmp, elems, sorted[i], last, x);
          }
        }
        AppendSorted(sorted, x, cmp);
      } else {
        var prefix := sorted[..n];
        assert SortedBy(prefix, cmp);
        InsertSorted(prefix, x, cmp, elems);
        var front := Insert(prefix, x, cmp);
        assert cmp(x, last) <= 0;
        forall i | 0 <= i < |front| ensures cmp(front[i], last) <= 0 {
          assert front[i] in multiset(prefix) + multiset{x};
          if front[i] != x {
            assert front[i] in multiset(prefix);
            var k :| 0 <= k < n && prefix[k] == front[i];
            assert cmp(sorted[k], sorted[n]) <= 0;
          }
        }
        AppendSorted(front, last, cmp);
      }
    }
  }

  /** With a total preorder on its elements, the result is sorted. */
  lemma {:induction false} SortSorted<T>(s: seq<T>, cmp: (T, T) -> int)
    requires TotalPreorderOn(cmp, set x | x in s)
    ensures SortedBy(Sort(s, cmp), cmp)
  {
    if |s| > 0 {
      var prefix := s[..|s| - 1];
      var elems := set x | x in s;
      assert (set x | x in prefix) <= elems;
      assert TotalPreorderOn(cmp, set x | x in prefix);
      SortSorted(prefix, cmp);
      var sp := Sort(prefix, cmp);
      forall y | y in sp ensures y in elems {
        assert y in multiset(sp);
        assert y in multiset(prefix);
      }
      InsertSorted(sp, s[|s| - 1], cmp, elems);
    }
  }

  /** `y` and `x` compare equal: each may stay before the other. */
  predicate Tied<T>(cmp: (T, T) -> int, y: T, x: T) {
    cmp(y, x) <= 0 && cmp(x, y) <= 0
  }

  /** The elements of `s` that compare equal to `x`, in their order in `s`. */
  function Ties<T>(s: seq<T>, x: T, cmp: (T, T) -> int): (r: seq<T>)
    ensures |r| <= |s|
    ensures forall y | y in r :: y in s && Tied(cmp, y, x)
  {
    if |s| == 0 then []
    else (if Tied(cmp, s[0], x) then [s[0]] else []) + Ties(s[1..], x, cmp)
  }

  lemma {:induction false} TiesAppend<T>(a: seq<T>, b: seq<T>, x: T, cmp: (T, T) -> int)
    ensures Ties(a + b, x, cmp) == Ties(a, x, cmp) + Ties(b, x, cmp)
  {
    if |a| == 0 {
      assert a + b == b;
    } else {
      assert (a + b)[0] == a[0];
      assert (a + b)[1..] == a[1..] + b;
      TiesAppend(a[1..], b, x, cmp);
    }
  }

  /** Inserting `e` adds it at the end of the elements tied with `x`: it
      never passes an element it compares equal to. The requirement says
      that an element `e` must pass is never tied with `x` together with
      `e`, which a total preorder guarantees (`PassedNotTied`). */
  lemma {:induction false} InsertKeepsTies<T>(sorted: seq<T>, e: T, x: T, cmp: (T, T) -> int)
    requires forall y | y in sorted && !(cmp(y, e) <= 0) :: !(Tied(cmp, e, x) && Tied(cmp, y, x))
    ensures Ties(Insert(sorted, e, cmp), x, cmp) == Ties(sorted, x, cmp) + Ties([e], x, cmp)
  {
    if |sorted| == 0 {
      assert Insert(sorted, e, cmp) == [e];
      assert Ties(sorted, x, cmp) == [];
    } else if cmp(sorted[|sorted| - 1], e) <= 0 {
      assert Insert(sorted, e, cmp) == sorted + [e];
      TiesAppend(sorted, [e], x, cmp);
    } else {
      var n := |sorted| - 1;
      var prefix, last := sorted[..n], sorted[n];
      assert sorted == prefix + [last];
      var ins := Insert(prefix, e, cmp);
      assert Insert(sorted, e, cmp) == ins + [last];
      InsertKeepsTies(prefix, e, x, cmp);
      TiesAppend(ins, [last], x, cmp);
      TiesAppend(prefix, [last], x, cmp);
      assert Ties([e], x, cmp) == [] || Ties([last], x, cmp) == [];
      SwapEmpty(Ties(prefix, x, cmp), Ties([e], x, cmp), Ties([last], x, cmp));
    }
  }

  lemma SwapEmpty<T>(p: seq<T>, a: seq<T>, b: seq<T>)
    requires a == [] || b == []
    ensures p + a + b == p + b + a
  {
    if a == [] {
      assert p + a == p;
      assert p + b + a == p + b;
    } else {
      assert p + b == p;
      assert p + a + b == p + a;
    }
  }

  /** Under a total preorder, an element that `e` must not pass is never
      tied with `x` together with `e`. */
  lemma PassedNotTied<T>(sorted: seq<T>, e: T, x: T, cmp: (T, T) -> int, elems: set<T>)
    requires TotalPreorderOn(cmp, elems)
    requires forall y | y in sorted :: y in elems
    requires e in elems && x in elems
    ensures forall y | y in sorted && !(cmp(y, e) <= 0) :: !(Tied(cmp, e, x) && Tied(cmp, y, x))
  {
    forall y | y in sorted && !(cmp(y, e) <= 0)
      ensures !(Tied(cmp, e, x) && Tied(cmp, y, x))
    {
      if Tied(cmp, e, x) && Tied(cmp, y, x) {
        Transitive(cmp, elems, y, x, e);
      }
    }
  }

  /** Stability: the elements that compare equal to any `x` come out in
      the order they went in. */
  lemma {:induction false} SortIsStable<T>(s: seq<T>, x: T, cmp: (T, T) -> int)
    requires TotalPreorderOn(cmp, (set y | y in s) + {x})
    ensures Ties(Sort(s, cmp), x, cmp) == Ties(s, x, cmp)
  {
    if |s| > 0 {
      var n := |s| - 1;
      var prefix, e := s[..n], s[n];
      var elems := (set y | y in s) + {x};
      assert s == prefix + [e];
      assert (set y | y in prefix) + {x} <= elems;
      SortIsStable(prefix, x, cmp);
      var sp := Sort(prefix, cmp);
      forall y | y in sp ensures y in elems {
        assert y in multiset(sp);
        assert y in multiset(prefix);
      }
      PassedNotTied(sp, e, x, cmp, elems);
      InsertKeepsTies(sp, e, x, cmp);
      TiesAppend(prefix, [e], x, cmp);
    }
  }

  /** Stability on input that is already in order: nothing moves. */
  lemma {:induction false} SortKeepsSortedInput<T>(s: seq<T>, cmp: (T, T) -> int)
    requires SortedBy(s, cmp)
    ensures Sort(s, cmp) == s
  {
    if |s| > 0 {
      var n := |s| - 1;
      SortedPrefix(s, cmp);
      SortKeepsSortedInput(s[..n], cmp);
      InsertAfterLast(s[..n], s[n], cmp);
      assert s[..n] + [s[n]] == s;
    }
  }

  /** Dropping the last element keeps order, and the last element may stay
      after the one before it. */
  lemma SortedPrefix<T>(s: seq<T>, cmp: (T, T) -> int)
    requires SortedBy(s, cmp) && |s| > 0
    ensures SortedBy(s[..|s| - 1], cmp)
    ensures |s| > 1 ==> cmp(s[..|s| - 1][|s| - 2], s[|s| - 1]) <= 0
  {
    var prefix := s[..|s| - 1];
    forall i, j | 0 <= i < j < |prefix| ensures cmp(prefix[i], prefix[j]) <= 0 {
      assert prefix[i] == s[i] && prefix[j] == s[j];
    }
  }

  /** An element that may stay after the last one is appended. */
  lemma InsertAfterLast<T>(sorted: seq<T>, x: T, cmp: (T, T) -> int)
    requires |sorted| > 0 ==> cmp(sorted[|sorted| - 1], x) <= 0
    ensures Insert(sorted, x, cmp) == sorted + [x]
  {
  }
}
