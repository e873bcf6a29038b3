/** Small value-level helpers shared by the three detector models: an Option
    for Java's null and Python's missing keys, counting over sequences, the
    in-order filter behind Java's `removeIf`, and the set of distinct images
    behind `new HashSet<>()` / Python's `set(...)`. */
module Common {

  datatype Option<T> = None | Some(value: T) {
    function GetOr(default: T): T {
      match this
      case Some(v) => v
      case None => default
    }
  }

  function Min(a: int, b: int): int {
    if a <= b then a else b
  }

  /** Number of elements of `s` that satisfy `p`. */
  function CountWhere<T>(s: seq<T>, p: T -> bool): (n: nat)
    ensures n <= |s|
  {
    if s == [] then 0 else (if p(s[0]) then 1 else 0) + CountWhere(s[1..], p)
  }

  /** A weaker predicate counts at least as many elements. */
  lemma {:induction false} CountWhereMonotone<T>(s: seq<T>, p: T -> bool, q: T -> bool)
    requires forall x :: p(x) ==> q(x)
    ensures CountWhere(s, p) <= CountWhere(s, q)
  {
    if s != [] {
      CountWhereMonotone(s[1..], p, q);
    }
  }

  /** Two predicates that never hold together count at most |s| between them. */
  lemma {:induction false} CountWhereDisjoint<T>(s: seq<T>, p: T -> bool, q: T -> bool)
    requires forall x :: !(p(x) && q(x))
    ensures CountWhere(s, p) + CountWhere(s, q) <= |s|
  {
    if s != [] {
      CountWhereDisjoint(s[1..], p, q);
    }
  }

  /** The elements of `s` satisfying `keep`, in their original order. */
  function Filter<T(!new)>(s: seq<T>, keep: T -> bool): (r: seq<T>)
    ensures |r| == CountWhere(s, keep) <= |s|
    ensures forall x :: x in r <==> x in s && keep(x)
  {
    if s == [] then []
    else if keep(s[0]) then [s[0]] + Filter(s[1..], keep)
    else Filter(s[1..], keep)
  }

  /** Filtering keeps every copy of a kept element and no copy of another. */
  lemma {:induction false} FilterMultiset<T(!new)>(s: seq<T>, keep: T -> bool)
    ensures forall x :: multiset(Filter(s, keep))[x] == if keep(x) then multiset(s)[x] else 0
  {
    if s != [] {
      FilterMultiset(s[1..], keep);
      assert s == [s[0]] + s[1..];
      assert multiset(s) == multiset([s[0]]) + multiset(s[1..]);
      if keep(s[0]) {
        assert multiset(Filter(s, keep)) == multiset([s[0]]) + multiset(Filter(s[1..], keep));
      }
    }
  }

  /** `r` can be obtained from `s` by deleting elements (order is kept). */
  predicate IsSubsequence<T(==)>(r: seq<T>, s: seq<T>)
    decreases |s|
  {
    if r == [] then true
    else if s == [] then false
    else (r[0] == s[0] && IsSubsequence(r[1..], s[1..])) || IsSubsequence(r, s[1..])
  }

  /** Filtering never reorders: what is kept is a subsequence of the input. */
  lemma {:induction false} FilterIsSubsequence<T(!new)>(s: seq<T>, keep: T -> bool)
    ensures IsSubsequence(Filter(s, keep), s)
  {
    if s != [] {
      FilterIsSubsequence(s[1..], keep);
    }
  }

  /** When every element is kept, filtering is the identity. */
  lemma {:induction false} FilterAllKept<T(!new)>(s: seq<T>, keep: T -> bool)
    requires forall i :: 0 <= i < |s| ==> keep(s[i])
    ensures Filter(s, keep) == s
  {
    if s != [] {
      FilterAllKept(s[1..], keep);
    }
  }

  /** Filtering a concatenation filters each part. */
  lemma {:induction false} FilterAppend<T(!new)>(s: seq<T>, t: seq<T>, keep: T -> bool)
    ensures Filter(s + t, keep) == Filter(s, keep) + Filter(t, keep)
  {
    if s != [] {
      assert (s + t)[1..] == s[1..] + t;
      FilterAppend(s[1..], t, keep);
    } else {
      assert s + t == t;
    }
  }

  /** The set of values `f` takes on the elements of `s`. */
  function Image<T, U>(s: seq<T>, f: T -> U): set<U> {
    if s == [] then {} else {f(s[0])} + Image(s[1..], f)
  }

  /** The image holds the value of every element. */
  lemma {:induction false} ImageCovers<T, U>(s: seq<T>, f: T -> U)
    ensures forall x :: x in s ==> f(x) in Image(s, f)
  {
    if s != [] {
      ImageCovers(s[1..], f);
      forall x | x in s
        ensures f(x) in Image(s, f)
      {
        if x != s[0] {
          assert x in s[1..];
        }
      }
    }
  }

  /** A non-empty sequence has at least one and at most |s| distinct images. */
  lemma {:induction false} ImageBounds<T, U>(s: seq<T>, f: T -> U)
    ensures |Image(s, f)| <= |s|
    ensures |s| > 0 ==> |Image(s, f)| >= 1
  {
    if s != [] {
      ImageBounds(s[1..], f);
      var rest := Image(s[1..], f);
      assert Image(s, f) == {f(s[0])} + rest;
      assert |{f(s[0])} + rest| <= 1 + |rest|;
      assert f(s[0]) in Image(s, f);
    }
  }
}
