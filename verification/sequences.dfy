/** Removing one element from a list, as `splice(index, 1)` does, and what
    that keeps. */
module Sequences {

  /** No element occurs twice. */
  predicate Distinct<T(==)>(xs: seq<T>) {
    forall i, j | 0 <= i < j < |xs| :: xs[i] != xs[j]
  }

  /** `xs.splice(i, 1)`: the list without its element at `i`. */
  function RemoveAt<T>(xs: seq<T>, i: nat): (r: seq<T>)
    requires i < |xs|
    ensures |r| == |xs| - 1
    ensures forall k | 0 <= k < i :: r[k] == xs[k]
    ensures forall k | i <= k < |r| :: r[k] == xs[k + 1]
  {
    xs[..i] + xs[i + 1..]
  }

  /** Removal loses the removed element's occurrence and nothing else. */
  lemma RemoveAtMembers<T>(xs: seq<T>, i: nat)
    requires i < |xs|
    ensures forall x | x in RemoveAt(xs, i) :: x in xs
    ensures forall x | x in xs && x != xs[i] :: x in RemoveAt(xs, i)
  {
    var r := RemoveAt(xs, i);
    forall x | x in r ensures x in xs {
      var k :| 0 <= k < |r| && r[k] == x;
      if k < i { assert xs[k] == x; } else { assert xs[k + 1] == x; }
    }
    forall x | x in xs && x != xs[i] ensures x in r {
      var k :| 0 <= k < |xs| && xs[k] == x;
      if k < i { assert r[k] == x; } else { assert r[k - 1] == x; }
    }
  }

  /** From a list without repeats, removal removes the element for good and
      leaves a list without repeats. */
  lemma RemoveAtDistinct<T>(xs: seq<T>, i: nat)
    requires i < |xs| && Distinct(xs)
    ensures Distinct(RemoveAt(xs, i))
    ensures xs[i] !in RemoveAt(xs, i)
  {
    var r := RemoveAt(xs, i);
    forall a, b | 0 <= a < b < |r| ensures r[a] != r[b] {
      var a' := if a < i then a else a + 1;
      var b' := if b < i then b else b + 1;
      assert r[a] == xs[a'] && r[b] == xs[b'];
    }
  }

  /** Appending an element and removing it from the end gives back the list. */
  lemma RemoveLastAppended<T>(xs: seq<T>, x: T)
    ensures RemoveAt(xs + [x], |xs|) == xs
  {
  }
}
