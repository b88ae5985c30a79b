/** Sequence operations shared by the server's array updates (`$addToSet`, `$pull`,
    `deleteMany`, `sort`) and the client's list transforms (`filter`, `sort`). */
module Seqs {
  import opened Wrappers

  /** `r` is obtained from `s` by leaving elements out; the remaining ones keep their order. */
  predicate Subseq<T(==,!new)>(r: seq<T>, s: seq<T>)
  {
    r == [] || (s != [] && ((r[0] == s[0] && Subseq(r[1..], s[1..])) || Subseq(r, s[1..])))
  }

  /** Array.prototype.filter, and a query that deletes or selects by a condition. */
  function Filter<T(==,!new)>(s: seq<T>, keep: T -> bool): (r: seq<T>)
    ensures |r| <= |s|
    ensures forall x :: x in r <==> x in s && keep(x)
    ensures Subseq(r, s)
  {
    if s == [] then []
    else
      var rest := Filter(s[1..], keep);
      if keep(s[0]) then [s[0]] + rest else rest
  }

  lemma {:induction false} FilterMultiset<T(!new)>(s: seq<T>, keep: T -> bool, x: T)
    ensures multiset(Filter(s, keep))[x] == if keep(x) then multiset(s)[x] else 0
  {
    if s != [] {
      assert s == [s[0]] + s[1..];
      FilterMultiset(s[1..], keep, x);
    }
  }

  lemma {:induction false} FilterAppend<T(!new)>(s: seq<T>, x: T, keep: T -> bool)
    ensures Filter(s + [x], keep) == Filter(s, keep) + (if keep(x) then [x] else [])
  {
    if s == [] {
      assert [x][1..] == [];
    } else {
      assert (s + [x])[1..] == s[1..] + [x];
      FilterAppend(s[1..], x, keep);
    }
  }

  lemma {:induction false} FilterAll<T(!new)>(s: seq<T>, keep: T -> bool)
    requires forall x :: x in s ==> keep(x)
    ensures Filter(s, keep) == s
  {
    if s != [] {
      FilterAll(s[1..], keep);
    }
  }

  /** Two sequences that agree wherever either one keeps an element filter to the same result. */
  lemma {:induction false} FilterPointwise<T(!new)>(a: seq<T>, b: seq<T>, keep: T -> bool)
    requires |a| == |b|
    requires forall i :: 0 <= i < |a| ==> (keep(a[i]) <==> keep(b[i]))
    requires forall i :: 0 <= i < |a| && keep(a[i]) ==> a[i] == b[i]
    ensures Filter(a, keep) == Filter(b, keep)
  {
    if a != [] {
      assert keep(a[0]) <==> keep(b[0]);
      FilterPointwise(a[1..], b[1..], keep);
    }
  }

  /** Nothing survives a filter that keeps none of the elements. */
  lemma {:induction false} FilterNone<T(!new)>(s: seq<T>, keep: T -> bool)
    requires forall x :: x in s ==> !keep(x)
    ensures Filter(s, keep) == []
  {
    if s != [] {
      FilterNone(s[1..], keep);
    }
  }

  /** `$addToSet` on an array: appends `x` unless an equal element is present. */
  function AddToSet<T(==,!new)>(s: seq<T>, x: T): (r: seq<T>)
    ensures s <= r && |r| <= |s| + 1
    ensures forall y :: y in r <==> y in s || y == x
    ensures x in s ==> r == s
    ensures multiset(r)[x] == if x in s then multiset(s)[x] else 1
  {
    if x in s then s else s + [x]
  }

  /** `$pull` on an array: removes every element equal to `x`. */
  /** Keeps the elements other than `x`. */
  function Other<T(==)>(x: T): T -> bool
  {
    y => y != x
  }

  function Pull<T(==,!new)>(s: seq<T>, x: T): (r: seq<T>)
    ensures x !in r
    ensures forall y :: y != x ==> (y in r <==> y in s)
    ensures Subseq(r, s)
  {
    Filter(s, Other(x))
  }

  /** Pulling what was just appended to a list that did not hold it gives the list back. */
  lemma PullAppended<T(!new)>(s: seq<T>, x: T)
    requires x !in s
    ensures Pull(s + [x], x) == s
  {
    FilterAppend(s, x, Other(x));
    FilterAll(s, Other(x));
  }

  /** No element occurs twice. */
  predicate NoDup<T(==,!new)>(s: seq<T>)
  {
    forall i, j :: 0 <= i < j < |s| ==> s[i] != s[j]
  }

  function Reverse<T>(s: seq<T>): (r: seq<T>)
    ensures |r| == |s|
    ensures forall i :: 0 <= i < |s| ==> r[i] == s[|s| - 1 - i]
  {
    seq(|s|, i requires 0 <= i < |s| => s[|s| - 1 - i])
  }

  /** Dropping the first `k` of a reversed sequence reverses what is left of the sequence. */
  lemma ReverseDrop<T>(v: seq<T>, k: nat)
    requires k <= |v|
    ensures Reverse(v)[k..] == Reverse(v[..|v| - k])
  {
    var l, r := Reverse(v)[k..], Reverse(v[..|v| - k]);
    forall i | 0 <= i < |l| ensures l[i] == r[i] {
      assert l[i] == v[|v| - 1 - k - i];
    }
  }

  /** Taking the first `n` of a reversed sequence and reversing back gives its last `n`. */
  lemma ReverseTakeBack<T>(u: seq<T>, n: nat)
    requires n <= |u|
    ensures Reverse(Reverse(u)[..n]) == u[|u| - n..]
  {
    var l, r := Reverse(Reverse(u)[..n]), u[|u| - n..];
    forall i | 0 <= i < n ensures l[i] == r[i] {
      assert l[i] == Reverse(u)[n - 1 - i];
    }
  }

  /** Sorted from the largest key to the smallest. */
  predicate SortedDesc<T>(s: seq<T>, key: T -> int)
  {
    forall i, j :: 0 <= i < j < |s| ==> key(s[i]) >= key(s[j])
  }

  /** Insert `x` before the first element with a strictly smaller key, so that
      elements with equal keys keep their order. */
  function InsertDesc<T(==,!new)>(x: T, s: seq<T>, key: T -> int): (r: seq<T>)
    requires SortedDesc(s, key)
    ensures SortedDesc(r, key)
    ensures multiset(r) == multiset(s) + multiset{x}
    ensures forall y :: y in r <==> y in s || y == x
  {
    if s == [] || key(x) > key(s[0]) then
      HeadMax(s, key);
      ConsSortedDesc(x, s, key);
      [x] + s
    else
      var rest := InsertDesc(x, s[1..], key);
      assert s == [s[0]] + s[1..];
      HeadMax(s, key);
      ConsSortedDesc(s[0], rest, key);
      [s[0]] + rest
  }

  /** The first element of a descending sequence has the largest key. */
  lemma HeadMax<T>(s: seq<T>, key: T -> int)
    requires SortedDesc(s, key)
    ensures s != [] ==> forall y :: y in s ==> key(s[0]) >= key(y)
  {
  }

  /** Putting in front an element whose key is at least every other key keeps the order. */
  lemma ConsSortedDesc<T>(h: T, rest: seq<T>, key: T -> int)
    requires SortedDesc(rest, key) && forall y :: y in rest ==> key(h) >= key(y)
    ensures SortedDesc([h] + rest, key)
  {
    var r := [h] + rest;
    forall i, j | 0 <= i < j < |r| ensures key(r[i]) >= key(r[j]) {
      assert r[j] == rest[j - 1];
      if i > 0 { assert r[i] == rest[i - 1]; }
    }
  }

  /** A sort by a descending key: Array.prototype.sort with comparator `(a, b) => key(b) - key(a)`,
      and a MongoDB `.sort('-field')`. */
  function SortDesc<T(==,!new)>(s: seq<T>, key: T -> int): (r: seq<T>)
    ensures SortedDesc(r, key)
    ensures multiset(r) == multiset(s)
  {
    if s == [] then []
    else
      assert s == s[..|s| - 1] + [s[|s| - 1]];
      InsertDesc(s[|s| - 1], SortDesc(s[..|s| - 1], key), key)
  }

  /** Array.prototype.findIndex, and a `findOne`/`findById` over a collection in insertion order. */
  function FirstIndex<T>(s: seq<T>, p: T -> bool): (r: Option<nat>)
    ensures r.Some? ==> r.value < |s| && p(s[r.value]) && forall j :: 0 <= j < r.value ==> !p(s[j])
    ensures r.None? ==> forall j :: 0 <= j < |s| ==> !p(s[j])
  {
    if s == [] then None
    else if p(s[0]) then Some(0)
    else match FirstIndex(s[1..], p)
      case None => None
      case Some(i) => Some(i + 1)
  }
}
