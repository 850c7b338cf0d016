/** Reference notions about sequences, stated independently of any JavaScript
    built-in, against which the models of the built-ins are proved. */
module SeqSpec {

  /** No value occurs twice in xs. */
  predicate NoDuplicates<T(==)>(xs: seq<T>) {
    forall i, j | 0 <= i < j < |xs| :: xs[i] != xs[j]
  }

  /** a can be obtained from b by deleting elements, so a keeps b's order. */
  predicate IsSubsequence<T(==)>(a: seq<T>, b: seq<T>)
    decreases |b|
  {
    || a == []
    || (&& b != []
        && ((a[0] == b[0] && IsSubsequence(a[1..], b[1..])) || IsSubsequence(a, b[1..])))
  }

  /** xs with its first occurrence of v deleted, or xs itself when v does not occur. */
  function RemoveFirst<T(==)>(xs: seq<T>, v: T): (r: seq<T>)
    ensures v in xs ==> |r| == |xs| - 1
    ensures v !in xs ==> r == xs
    ensures multiset(r) == multiset(xs) - multiset{v}
  {
    if xs == [] then []
    else
      assert xs == [xs[0]] + xs[1..];
      if xs[0] == v then xs[1..] else [xs[0]] + RemoveFirst(xs[1..], v)
  }

  /** In a duplicate-free sequence RemoveFirst deletes the only occurrence of
      v, keeps the sequence duplicate-free, and adds no value. */
  lemma {:induction false} RemoveFirstDistinct<T>(xs: seq<T>, v: T)
    requires NoDuplicates(xs)
    ensures NoDuplicates(RemoveFirst(xs, v))
    ensures v !in RemoveFirst(xs, v)
    ensures forall x | x in RemoveFirst(xs, v) :: x in xs
    decreases |xs|
  {
    if xs != [] && xs[0] != v {
      var tail := xs[1..];
      RemoveFirstDistinct(tail, v);
      var rest := RemoveFirst(tail, v);
      assert RemoveFirst(xs, v) == [xs[0]] + rest;
      assert xs[0] !in tail;
      DistinctCons(xs[0], rest);
    }
  }

  /** Putting a new value in front of a duplicate-free sequence keeps it
      duplicate-free. */
  lemma DistinctCons<T>(x: T, s: seq<T>)
    requires NoDuplicates(s) && x !in s
    ensures NoDuplicates([x] + s)
  {
    var r := [x] + s;
    forall i, j | 0 <= i < j < |r|
      ensures r[i] != r[j]
    {
      assert r[j] == s[j - 1];
    }
  }

  /** Deleting the first occurrence of a value that xs lacks, after appending
      it, gives xs back. */
  lemma {:induction false} RemoveFirstAppended<T>(xs: seq<T>, v: T)
    requires v !in xs
    ensures RemoveFirst(xs + [v], v) == xs
    decreases |xs|
  {
    if xs != [] {
      assert (xs + [v])[1..] == xs[1..] + [v];
      RemoveFirstAppended(xs[1..], v);
    }
  }
}
