/** A model of the JavaScript Set as far as `Array.from(new Set(xs))` needs
    it: a Set remembers the order in which values were first added, and
    Array.from lists them in that order. */
module JsSet {
  import opened SeqSpec
  import opened JsArray

  /** Set.prototype.add on a set listed in insertion order: a value already
      present keeps its place, a new value goes last. */
  function Add<T(==,!new)>(s: seq<T>, v: T): (r: seq<T>)
    ensures NoDuplicates(s) ==> NoDuplicates(r)
    ensures forall x :: x in r <==> x in s || x == v
    ensures |r| <= |s| + 1
    ensures |s| <= |r| && r[..|s|] == s
    ensures |r| == |s| <==> v in s
  {
    if v in s then s else s + [v]
  }

  /** The values of xs are listed in order of their first occurrence in xs. */
  ghost predicate InFirstOccurrenceOrder<T>(xs: seq<T>, r: seq<T>) {
    forall i, j | 0 <= i < j < |r| :: IndexOf(xs, r[i]) < IndexOf(xs, r[j])
  }

  /** Array.from(new Set(xs)): the distinct values of xs, each once, in the
      order in which they first occur in xs. */
  function FromArray<T(==,!new)>(xs: seq<T>): (r: seq<T>)
    ensures NoDuplicates(r)
    ensures forall x :: x in r <==> x in xs
    ensures InFirstOccurrenceOrder(xs, r)
    ensures |r| <= |xs|
    decreases |xs|
  {
    if xs == [] then []
    else
      var n := |xs| - 1;
      var prev := FromArray(xs[..n]);
      assert xs == xs[..n] + [xs[n]];
      AddKeepsOrder(xs, prev);
      Add(prev, xs[n])
  }

  /** Adding the last value of xs to the listing of the rest keeps the
      listing in first-occurrence order for the whole of xs. */
  lemma AddKeepsOrder<T(!new)>(xs: seq<T>, prev: seq<T>)
    requires |xs| > 0
    requires forall x :: x in prev <==> x in xs[..|xs| - 1]
    requires InFirstOccurrenceOrder(xs[..|xs| - 1], prev)
    ensures InFirstOccurrenceOrder(xs, Add(prev, xs[|xs| - 1]))
  {
    var n := |xs| - 1;
    var last := xs[n];
    var r := Add(prev, last);
    forall i | 0 <= i < |prev|
      ensures IndexOf(xs, prev[i]) == IndexOf(xs[..n], prev[i]) < n
    {
      assert prev[i] in prev;
      IndexOfPrefix(xs, n, prev[i]);
    }
    if last !in prev {
      assert forall m | 0 <= m < n :: xs[..n][m] != last;
      assert forall m | 0 <= m < n :: xs[m] != last;
    }
    forall i, j | 0 <= i < j < |r|
      ensures IndexOf(xs, r[i]) < IndexOf(xs, r[j])
    {
      if j < |prev| {
        assert r[i] == prev[i] && r[j] == prev[j];
      } else {
        assert r[i] == prev[i] && r[j] == last;
      }
    }
  }

  /** The three properties of FromArray determine its result: any duplicate-free
      listing of exactly the values of xs in first-occurrence order is it. */
  lemma {:induction false} FirstOccurrenceListingUnique<T(!new)>(xs: seq<T>, a: seq<T>, b: seq<T>)
    requires NoDuplicates(a) && NoDuplicates(b)
    requires forall x :: x in a <==> x in b
    requires InFirstOccurrenceOrder(xs, a) && InFirstOccurrenceOrder(xs, b)
    ensures a == b
    decreases |a|
  {
    assert |b| > 0 ==> b[0] in b;
    if a != [] {
      assert a[0] in a;
      SameFirst(xs, a, b);
      SameTail(a, b);
      var a', b' := a[1..], b[1..];
      assert InFirstOccurrenceOrder(xs, a') by {
        forall i, j | 0 <= i < j < |a'| ensures IndexOf(xs, a'[i]) < IndexOf(xs, a'[j]) {
          assert a'[i] == a[i + 1] && a'[j] == a[j + 1];
        }
      }
      assert InFirstOccurrenceOrder(xs, b') by {
        forall i, j | 0 <= i < j < |b'| ensures IndexOf(xs, b'[i]) < IndexOf(xs, b'[j]) {
          assert b'[i] == b[i + 1] && b'[j] == b[j + 1];
        }
      }
      FirstOccurrenceListingUnique(xs, a', b');
      assert a == [a[0]] + a' && b == [b[0]] + b';
    }
  }

  /** Two non-empty listings of the same values in first-occurrence order
      start with the same value: each head occurs first in xs. */
  lemma SameFirst<T(!new)>(xs: seq<T>, a: seq<T>, b: seq<T>)
    requires a != [] && b != []
    requires forall x :: x in a <==> x in b
    requires InFirstOccurrenceOrder(xs, a) && InFirstOccurrenceOrder(xs, b)
    ensures a[0] == b[0]
  {
    var a0, b0 := a[0], b[0];
    assert a0 in a && b0 in b;
    var i :| 0 <= i < |a| && a[i] == b0;
    var j :| 0 <= j < |b| && b[j] == a0;
    assert i == 0 || IndexOf(xs, a0) < IndexOf(xs, b0);
    assert j == 0 || IndexOf(xs, b0) < IndexOf(xs, a0);
  }

  /** Dropping a shared head from two duplicate-free listings of the same
      values leaves two duplicate-free listings of the same values. */
  lemma SameTail<T(!new)>(a: seq<T>, b: seq<T>)
    requires a != [] && b != [] && a[0] == b[0]
    requires NoDuplicates(a) && NoDuplicates(b)
    requires forall x :: x in a <==> x in b
    ensures NoDuplicates(a[1..]) && NoDuplicates(b[1..])
    ensures forall x :: x in a[1..] <==> x in b[1..]
  {
    forall x
      ensures x in a[1..] <==> x in b[1..]
    {
      assert a == [a[0]] + a[1..] && b == [b[0]] + b[1..];
      assert x in a <==> x == a[0] || x in a[1..];
      assert x in b <==> x == b[0] || x in b[1..];
    }
  }

  /** A duplicate-free array comes back unchanged. */
  lemma FromArrayOfDistinct<T(!new)>(xs: seq<T>)
    requires NoDuplicates(xs)
    ensures FromArray(xs) == xs
  {
    forall i | 0 <= i < |xs|
      ensures IndexOf(xs, xs[i]) == i
    {
      IndexOfDistinct(xs, i);
    }
    FirstOccurrenceListingUnique(xs, FromArray(xs), xs);
  }

  /** Deduplicating twice is deduplicating once. */
  lemma FromArrayIdempotent<T(!new)>(xs: seq<T>)
    ensures FromArray(FromArray(xs)) == FromArray(xs)
  {
    FromArrayOfDistinct(FromArray(xs));
  }
}
