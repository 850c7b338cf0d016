/** Models of the JavaScript Array built-ins the friend list uses: indexOf,
    push on a spread copy, splice with a delete count of one, map and filter.
    Arrays are immutable sequences here, so a spread copy is the value itself. */
module JsArray {
  import opened SeqSpec

  /** Array.prototype.indexOf: the position of the first element equal to v,
      or -1 when there is none. */
  function IndexOf<T(==)>(xs: seq<T>, v: T): (r: int)
    ensures r == -1 <==> v !in xs
    ensures r != -1 ==> 0 <= r < |xs| && xs[r] == v && v !in xs[..r]
  {
    if xs == [] then -1
    else if xs[0] == v then 0
    else
      var k := IndexOf(xs[1..], v);
      assert k != -1 ==> xs[..k + 1] == [xs[0]] + xs[1..][..k];
      if k == -1 then -1 else k + 1
  }

  /** Array.prototype.push on a copy: v becomes the new last element and
      everything before it is the old array. */
  function Push<T>(xs: seq<T>, v: T): (r: seq<T>)
    ensures |r| == |xs| + 1 && r[|xs|] == v && r[..|xs|] == xs
  {
    xs + [v]
  }

  /** The position where splice(start, ...) begins: a negative start counts
      back from the end and is clamped at 0, a start past the end is clamped
      to the length. */
  function SpliceStart(len: nat, start: int): (k: nat)
    ensures k <= len
    ensures start < 0 && 0 <= len + start ==> k == len + start
    ensures start < 0 && len + start < 0 ==> k == 0
    ensures 0 <= start <= len ==> k == start
    ensures len < start ==> k == len
  {
    if start < 0 then (if len + start < 0 then 0 else len + start)
    else if start > len then len
    else start
  }

  /** Array.prototype.splice(start, 1) applied to a copy: the array that
      remains. At most one element is deleted, at SpliceStart(|xs|, start). */
  function SpliceOne<T>(xs: seq<T>, start: int): (r: seq<T>)
    ensures var k := SpliceStart(|xs|, start);
      && |r| == (if k < |xs| then |xs| - 1 else |xs|)
      && (forall i | 0 <= i < k && i < |r| :: r[i] == xs[i])
      && (forall i | k <= i < |r| :: r[i] == xs[i + 1])
  {
    var k := SpliceStart(|xs|, start);
    if k < |xs| then xs[..k] + xs[k + 1..] else xs
  }

  /** Array.prototype.map. */
  function Map<T, U>(xs: seq<T>, f: T -> U): (r: seq<U>)
    ensures |r| == |xs|
    ensures forall i | 0 <= i < |xs| :: r[i] == f(xs[i])
  {
    seq(|xs|, i requires 0 <= i < |xs| => f(xs[i]))
  }

  /** Array.prototype.filter: the elements satisfying p, each as often as it
      occurs in xs. */
  function Filter<T(==,!new)>(xs: seq<T>, p: T -> bool): (r: seq<T>)
    ensures |r| <= |xs|
    ensures forall x :: x in r <==> x in xs && p(x)
  {
    if xs == [] then []
    else
      assert xs == [xs[0]] + xs[1..];
      (if p(xs[0]) then [xs[0]] else []) + Filter(xs[1..], p)
  }

  /** Filter keeps every passing element as often as it occurs and drops
      every other one entirely. */
  lemma {:induction false} FilterCounts<T(!new)>(xs: seq<T>, p: T -> bool, x: T)
    ensures multiset(Filter(xs, p))[x] == if p(x) then multiset(xs)[x] else 0
    decreases |xs|
  {
    if xs != [] {
      assert xs == [xs[0]] + xs[1..];
      FilterCounts(xs[1..], p, x);
    }
  }

  /** Filter keeps the elements it returns in their original order. */
  lemma {:induction false} FilterIsSubsequence<T(!new)>(xs: seq<T>, p: T -> bool)
    ensures IsSubsequence(Filter(xs, p), xs)
    decreases |xs|
  {
    if xs != [] {
      FilterIsSubsequence(xs[1..], p);
      var rest := Filter(xs[1..], p);
      if p(xs[0]) {
        assert Filter(xs, p) == [xs[0]] + rest;
      } else {
        assert Filter(xs, p) == rest;
        if rest != [] {
          assert rest[0] in rest;
        }
      }
    }
  }

  /** When every element passes, Filter returns the whole array. */
  lemma {:induction false} FilterAll<T(!new)>(xs: seq<T>, p: T -> bool)
    requires forall i | 0 <= i < |xs| :: p(xs[i])
    ensures Filter(xs, p) == xs
    decreases |xs|
  {
    if xs != [] {
      FilterAll(xs[1..], p);
    }
  }

  /** When no element passes, Filter returns the empty array. */
  lemma {:induction false} FilterNone<T(!new)>(xs: seq<T>, p: T -> bool)
    requires forall i | 0 <= i < |xs| :: !p(xs[i])
    ensures Filter(xs, p) == []
    decreases |xs|
  {
    if xs != [] {
      FilterNone(xs[1..], p);
    }
  }

  /** The first position of v is the same in xs and in any prefix of xs
      that contains v. */
  lemma IndexOfPrefix<T>(xs: seq<T>, k: nat, v: T)
    requires k <= |xs| && v in xs[..k]
    ensures IndexOf(xs[..k], v) == IndexOf(xs, v)
  {
    var a := IndexOf(xs[..k], v);
    var b := IndexOf(xs, v);
    forall m | 0 <= m < a
      ensures xs[m] != v
    {
      assert xs[m] == xs[..k][..a][m];
    }
    forall m | 0 <= m < b
      ensures xs[m] != v
    {
      assert xs[m] == xs[..b][m];
    }
    assert xs[a] == v && xs[b] == v;
  }

  /** In an array without duplicates the first position of xs[i] is i. */
  lemma IndexOfDistinct<T>(xs: seq<T>, i: nat)
    requires NoDuplicates(xs) && i < |xs|
    ensures IndexOf(xs, xs[i]) == i
  {
  }

  /** Unchecking through splice(indexOf(v), 1) deletes exactly the first
      occurrence of v when v is present. */
  lemma {:induction false} SpliceIndexOfRemovesFirst<T>(xs: seq<T>, v: T)
    requires v in xs
    ensures SpliceOne(xs, IndexOf(xs, v)) == RemoveFirst(xs, v)
    decreases |xs|
  {
    if xs[0] != v {
      var k := IndexOf(xs[1..], v);
      SpliceIndexOfRemovesFirst(xs[1..], v);
      SpliceOneCons(xs, k);
    }
  }

  /** Splicing one element out of a non-empty array past its head keeps the
      head and splices the tail. */
  lemma SpliceOneCons<T>(xs: seq<T>, k: int)
    requires 0 <= k < |xs| - 1
    ensures SpliceOne(xs, k + 1) == [xs[0]] + SpliceOne(xs[1..], k)
  {
    var tail := xs[1..];
    assert xs[..k + 1] == [xs[0]] + tail[..k];
    assert xs[k + 2..] == tail[k + 1..];
  }

  /** The quirk of splice(indexOf(v), 1) when v is absent: indexOf gives -1,
      and splice(-1, 1) deletes the last element of a non-empty array. */
  lemma SpliceIndexOfAbsent<T>(xs: seq<T>, v: T)
    requires v !in xs
    ensures xs == [] ==> SpliceOne(xs, IndexOf(xs, v)) == []
    ensures xs != [] ==> SpliceOne(xs, IndexOf(xs, v)) == xs[..|xs| - 1]
  {
  }

  /** splice(indexOf(v), 1) in both cases: the first occurrence of a present
      value is deleted; for an absent value the last element goes, if any. */
  lemma SpliceIndexOf<T>(xs: seq<T>, v: T)
    ensures v in xs ==> SpliceOne(xs, IndexOf(xs, v)) == RemoveFirst(xs, v)
    ensures v !in xs ==>
      SpliceOne(xs, IndexOf(xs, v)) == if xs == [] then [] else xs[..|xs| - 1]
  {
    if v in xs {
      SpliceIndexOfRemovesFirst(xs, v);
    } else {
      SpliceIndexOfAbsent(xs, v);
    }
  }
}
