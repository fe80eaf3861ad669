/** The two list operations every store mutator is built from:
    `Array.prototype.filter` and an `Array.prototype.map` whose callback
    rewrites only the entries a predicate selects. */
module SeqOps {

  /** `r` can be obtained from `s` by deleting entries: it keeps the order of `s`. */
  ghost predicate IsSubsequence<T>(r: seq<T>, s: seq<T>)
    decreases |s|
  {
    if r == [] then true
    else if s == [] then false
    else if r[0] == s[0] then IsSubsequence(r[1..], s[1..])
    else IsSubsequence(r, s[1..])
  }

  /** `s.filter(keep)`: the entries satisfying `keep` (see `FilterExactly`
      for their order and number). */
  function Filter<T(!new)>(s: seq<T>, keep: T -> bool): (r: seq<T>)
    ensures |r| <= |s|
    ensures forall x :: x in r <==> x in s && keep(x)
    decreases |s|
  {
    if s == [] then []
    else
      var rest := Filter(s[1..], keep);
      assert s == [s[0]] + s[1..];
      if keep(s[0]) then [s[0]] + rest else rest
  }

  /** A filter keeps exactly the entries satisfying `keep`, each as often as
      in `s`, in their original order. */
  lemma {:induction false} FilterExactly<T(!new)>(s: seq<T>, keep: T -> bool)
    ensures IsSubsequence(Filter(s, keep), s)
    ensures forall x :: multiset(Filter(s, keep))[x] == if keep(x) then multiset(s)[x] else 0
    decreases |s|
  {
    if s != [] {
      FilterExactly(s[1..], keep);
      assert s == [s[0]] + s[1..];
    }
  }

  /** `s.map(x => hit(x) ? f(x) : x)`: same length, every selected entry
      rewritten by `f`, every other entry untouched. */
  function MapWhere<T>(s: seq<T>, hit: T -> bool, f: T -> T): (r: seq<T>)
    ensures |r| == |s|
    ensures forall i :: 0 <= i < |s| ==> r[i] == if hit(s[i]) then f(s[i]) else s[i]
    decreases |s|
  {
    if s == [] then []
    else [if hit(s[0]) then f(s[0]) else s[0]] + MapWhere(s[1..], hit, f)
  }

  /** Filtering with a predicate that keeps every entry gives the list back. */
  lemma {:induction false} FilterKeepsAll<T(!new)>(s: seq<T>, keep: T -> bool)
    requires forall x :: x in s ==> keep(x)
    ensures Filter(s, keep) == s
    decreases |s|
  {
    if s != [] {
      FilterKeepsAll(s[1..], keep);
      assert s == [s[0]] + s[1..];
    }
  }

  /** Filtering out an entry that occurs makes the list strictly shorter. */
  lemma {:induction false} FilterDropShortens<T(!new)>(s: seq<T>, keep: T -> bool, x: T)
    requires x in s && !keep(x)
    ensures |Filter(s, keep)| < |s|
    decreases |s|
  {
    assert s == [s[0]] + s[1..];
    var rest := Filter(s[1..], keep);
    if s[0] == x {
      assert Filter(s, keep) == rest;
    } else {
      assert x in s[1..];
      FilterDropShortens(s[1..], keep, x);
      assert |Filter(s, keep)| <= 1 + |rest|;
    }
  }

  /** Filtering distributes over concatenation. */
  lemma {:induction false} FilterAppend<T(!new)>(a: seq<T>, b: seq<T>, keep: T -> bool)
    ensures Filter(a + b, keep) == Filter(a, keep) + Filter(b, keep)
    decreases |a|
  {
    if a != [] {
      assert (a + b)[0] == a[0] && (a + b)[1..] == a[1..] + b;
      FilterAppend(a[1..], b, keep);
      var head := if keep(a[0]) then [a[0]] else [];
      assert Filter(a + b, keep) == head + Filter(a[1..] + b, keep);
      assert Filter(a, keep) == head + Filter(a[1..], keep);
    } else {
      assert a + b == b;
    }
  }

  /** A rewrite that selects no entry gives the list back. */
  lemma {:induction false} MapWhereMissesAll<T>(s: seq<T>, hit: T -> bool, f: T -> T)
    requires forall x :: x in s ==> !hit(x)
    ensures MapWhere(s, hit, f) == s
  {
  }
}
