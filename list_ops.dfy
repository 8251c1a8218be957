/** The Python list operations the graph code relies on: `list.remove(x)`,
    which deletes the first element equal to `x`, and the filtering list
    comprehension `[e for e in s if keep(e)]`. */
module ListOps {

  /** No element occurs twice (for lists of objects: no object is listed twice). */
  ghost predicate Distinct<T>(s: seq<T>) {
    forall i, j | 0 <= i < j < |s| :: s[i] != s[j]
  }

  /** Position of the first element equal to `x`. */
  function FirstIndex<T(==)>(s: seq<T>, x: T): (k: nat)
    requires x in s
    ensures k < |s| && s[k] == x && x !in s[..k]
  {
    if s[0] == x then 0 else 1 + FirstIndex(s[1..], x)
  }

  /** `s.remove(x)`; Python raises an error when `x` is absent, so callers
      must know that it is present. */
  function RemoveFirst<T(==)>(s: seq<T>, x: T): (r: seq<T>)
    requires x in s
    ensures |r| == |s| - 1
    ensures forall i | 0 <= i < FirstIndex(s, x) :: r[i] == s[i]
    ensures forall i | FirstIndex(s, x) <= i < |r| :: r[i] == s[i + 1]
  {
    if s[0] == x then s[1..] else [s[0]] + RemoveFirst(s[1..], x)
  }

  /** `remove` takes exactly one occurrence of `x` out of the list. */
  lemma {:induction false} RemoveFirstMultiset<T>(s: seq<T>, x: T)
    requires x in s
    ensures multiset(RemoveFirst(s, x)) == multiset(s) - multiset{x}
  {
    assert s == [s[0]] + s[1..];
    if s[0] != x {
      RemoveFirstMultiset(s[1..], x);
    }
  }

  /** `remove` cuts out exactly the position of the first occurrence. */
  lemma RemoveFirstAt<T>(s: seq<T>, x: T)
    requires x in s
    ensures RemoveFirst(s, x) == s[..FirstIndex(s, x)] + s[FirstIndex(s, x) + 1..]
  {
    var k := FirstIndex(s, x);
    var r := RemoveFirst(s, x);
    var u, v := s[..k], s[k + 1..];
    assert |r| == |u| + |v|;
    forall i | 0 <= i < |r| ensures r[i] == (u + v)[i] {
      if i < k {
        assert (u + v)[i] == u[i] == s[i];
      } else {
        assert (u + v)[i] == v[i - k] == s[i + 1];
      }
    }
    assert r == u + v;
  }



  /** An element that differs from the one removed stays in front. */
  lemma RemoveFirstCons<T>(x: T, s: seq<T>, y: T)
    requires y in s && x != y
    ensures RemoveFirst([x] + s, y) == [x] + RemoveFirst(s, y)
  {
    assert ([x] + s)[1..] == s;
  }

  /** In a list without repetitions, `remove` takes the element out entirely
      and keeps every other element, still without repetitions. */
  lemma RemoveFirstDistinct<T>(s: seq<T>, x: T)
    requires x in s && Distinct(s)
    ensures x !in RemoveFirst(s, x)
    ensures Distinct(RemoveFirst(s, x))
    ensures forall i | 0 <= i < |s| && s[i] != x :: s[i] in RemoveFirst(s, x)
    ensures forall i | 0 <= i < |RemoveFirst(s, x)| :: RemoveFirst(s, x)[i] in s
  {
    var k := FirstIndex(s, x);
    var r := RemoveFirst(s, x);
    assert |r| == |s| - 1;
    forall i | 0 <= i < |r| ensures r[i] != x {
      if i < k { assert s[i] != s[k]; } else { assert s[i + 1] != s[k]; }
    }
    forall i | 0 <= i < |s| && s[i] != x ensures s[i] in r {
      if i < k { assert r[i] == s[i]; } else { assert r[i - 1] == s[i]; }
    }
  }

  /** In a list without repetitions, whatever is left after removing `x`
      was in the list and is not `x`. */
  lemma RemoveFirstLeaves<T>(s: seq<T>, x: T)
    requires x in s && Distinct(s)
    ensures forall y | y in RemoveFirst(s, x) :: y in s && y != x
  {
    RemoveFirstDistinct(s, x);
    forall y | y in RemoveFirst(s, x) ensures y in s && y != x {
      var i :| 0 <= i < |RemoveFirst(s, x)| && RemoveFirst(s, x)[i] == y;
    }
  }

  /** Removing an element that was just appended, and was not yet in the
      list, gives back the old list. */
  lemma RemoveFirstUndoesAppend<T>(s: seq<T>, x: T)
    requires x !in s
    ensures RemoveFirst(s + [x], x) == s
  {
    var t := s + [x];
    assert t[|s|] == x;
    var k := FirstIndex(t, x);
    assert t[..k] == s[..k];
    assert k == |s|;
  }

  /** When `x` was already in the list, removing it after appending it once
      more takes out the earlier occurrence, and the new one stays at the end. */
  lemma RemoveFirstAfterAppend<T>(s: seq<T>, x: T)
    requires x in s
    ensures RemoveFirst(s + [x], x) == RemoveFirst(s, x) + [x]
  {
    var t := s + [x];
    var k := FirstIndex(t, x);
    var j := FirstIndex(s, x);
    assert t[j] == x && t[..j] == s[..j];
    assert k == j;
  }

  /** The list comprehension `[e for e in s if keep(e)]`. */
  function Filter<T>(s: seq<T>, keep: T -> bool): (r: seq<T>)
    ensures |r| <= |s|
    ensures forall x | x in r :: x in s && keep(x)
    ensures forall x | x in s && keep(x) :: x in r
  {
    if s == [] then []
    else
      assert s == [s[0]] + s[1..];
      (if keep(s[0]) then [s[0]] else []) + Filter(s[1..], keep)
  }

  /** Filtering works element by element in list order: the survivors of a
      concatenation are the survivors of each part, in the same order. */
  lemma {:induction false} FilterConcat<T>(a: seq<T>, b: seq<T>, keep: T -> bool)
    ensures Filter(a + b, keep) == Filter(a, keep) + Filter(b, keep)
  {
    if a == [] {
      assert a + b == b;
    } else {
      assert (a + b)[0] == a[0];
      assert (a + b)[1..] == a[1..] + b;
      FilterConcat(a[1..], b, keep);
      var head := if keep(a[0]) then [a[0]] else [];
      assert Filter(a + b, keep) == head + Filter(a[1..] + b, keep);
      assert Filter(a, keep) == head + Filter(a[1..], keep);
    }
  }

  /** Every element that passes the test survives as many times as it occurred. */
  lemma {:induction false} FilterCount<T>(s: seq<T>, keep: T -> bool, y: T)
    ensures multiset(Filter(s, keep))[y] == if keep(y) then multiset(s)[y] else 0
  {
    if s != [] {
      assert s == [s[0]] + s[1..];
      FilterCount(s[1..], keep, y);
    }
  }

  /** A list whose elements all pass the test is kept as it is. */
  lemma {:induction false} FilterKeepsAll<T>(s: seq<T>, keep: T -> bool)
    requires forall i | 0 <= i < |s| :: keep(s[i])
    ensures Filter(s, keep) == s
  {
    if s != [] {
      assert s == [s[0]] + s[1..];
      FilterKeepsAll(s[1..], keep);
    }
  }
}
