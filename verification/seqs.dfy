/** Sequence vocabulary shared by the model: JavaScript's `Array.prototype.filter`
    and `includes`-based subtraction, first-occurrence positions, relative order,
    and the flattening of per-application lists. */
module Seqs {

  /** No element occurs twice: each element is absent from the part before it. Stated
      by recursion on the last element; NoDupIndices gives the pairwise reading. */
  predicate NoDup<T(==)>(s: seq<T>)
    decreases |s|
  {
    s == [] || (NoDup(s[..|s| - 1]) && s[|s| - 1] !in s[..|s| - 1])
  }

  lemma NoDupSnoc<T>(s: seq<T>, x: T)
    ensures NoDup(s + [x]) <==> NoDup(s) && x !in s
  {
    assert (s + [x])[..|s|] == s;
  }

  /** The recursive definition agrees with the pairwise one. */
  lemma {:induction false} NoDupIndices<T>(s: seq<T>)
    ensures NoDup(s) <==> forall i, j :: 0 <= i < j < |s| ==> s[i] != s[j]
    decreases |s|
  {
    if s != [] {
      var init, last := s[..|s| - 1], s[|s| - 1];
      assert s == init + [last];
      NoDupIndices(init);
      NoDupSnoc(init, last);
      if forall i, j :: 0 <= i < j < |s| ==> s[i] != s[j] {
        assert forall i, j :: 0 <= i < j < |init| ==> init[i] != init[j] by {
          forall i, j | 0 <= i < j < |init| ensures init[i] != init[j] {
            assert init[i] == s[i] && init[j] == s[j];
          }
        }
      }
    }
  }

  /** `s.filter(p)`: the elements of `s` satisfying `p`, in their original order. */
  function Filter<T(!new)>(s: seq<T>, p: T -> bool): (r: seq<T>)
    ensures |r| <= |s|
    ensures forall x :: x in r <==> x in s && p(x)
    ensures forall i :: 0 <= i < |r| ==> p(r[i])
    decreases |s|
  {
    if s == [] then []
    else
      var init, last := s[..|s| - 1], s[|s| - 1];
      assert s == init + [last];
      Filter(init, p) + (if p(last) then [last] else [])
  }

  /** Filtering a duplicate-free sequence leaves it duplicate-free. */
  lemma {:induction false} FilterNoDup<T(!new)>(s: seq<T>, p: T -> bool)
    requires NoDup(s)
    ensures NoDup(Filter(s, p))
    decreases |s|
  {
    if s != [] {
      var init, last := s[..|s| - 1], s[|s| - 1];
      assert s == init + [last];
      NoDupSnoc(init, last);
      FilterNoDup(init, p);
      if p(last) {
        assert Filter(s, p) == Filter(init, p) + [last];
        NoDupSnoc(Filter(init, p), last);
      } else {
        assert Filter(s, p) == Filter(init, p);
      }
    }
  }

  /** `s.filter(x => !seen.includes(x))`: the elements of `s` not in `seen`, in order. */
  function Unseen<T(==,!new)>(s: seq<T>, seen: seq<T>): (r: seq<T>)
    ensures forall x :: x in r <==> x in s && x !in seen
  {
    Filter(s, x => x !in seen)
  }

  /** One step of `Unseen` on a sequence extended at the end. */
  lemma UnseenSnoc<T(!new)>(s: seq<T>, x: T, seen: seq<T>)
    ensures Unseen(s + [x], seen) == Unseen(s, seen) + (if x in seen then [] else [x])
  {
    assert (s + [x])[..|s + [x]| - 1] == s;
  }

  /** Nothing is subtracted when nothing has been seen. */
  lemma {:induction false} UnseenNothing<T(!new)>(s: seq<T>)
    ensures Unseen(s, []) == s
    decreases |s|
  {
    if s != [] {
      var init, last := s[..|s| - 1], s[|s| - 1];
      assert s == init + [last];
      UnseenNothing(init);
      UnseenSnoc(init, last, []);
    }
  }

  lemma UnseenNoDup<T(!new)>(s: seq<T>, seen: seq<T>)
    requires NoDup(s)
    ensures NoDup(Unseen(s, seen))
  {
    FilterNoDup(s, x => x !in seen);
  }

  /** Position of the first occurrence of `x` in `s`. */
  function IndexOf<T(==,!new)>(s: seq<T>, x: T): (i: nat)
    requires x in s
    ensures i < |s| && s[i] == x
    ensures forall j :: 0 <= j < i ==> s[j] != x
  {
    if s[0] == x then 0 else 1 + IndexOf(s[1..], x)
  }

  /** `x` first occurs in `s` strictly before `y` first occurs. */
  predicate Before<T(==,!new)>(s: seq<T>, x: T, y: T) {
    x in s && y in s && IndexOf(s, x) < IndexOf(s, y)
  }

  /** First occurrences in a concatenation: in the left part if there, else shifted from the right part. */
  lemma IndexOfConcat<T(!new)>(a: seq<T>, b: seq<T>, x: T)
    requires x in a + b
    ensures x in a ==> IndexOf(a + b, x) == IndexOf(a, x)
    ensures x !in a ==> x in b && IndexOf(a + b, x) == |a| + IndexOf(b, x)
  {
    var i := IndexOf(a + b, x);
    if x in a {
      var k := IndexOf(a, x);
      assert (a + b)[k] == x;
    } else {
      assert forall j :: 0 <= j < |a| ==> (a + b)[j] == a[j];
      assert b[i - |a|] == x;
      var k := IndexOf(b, x);
      assert (a + b)[|a| + k] == x;
    }
  }

  /** Filtering keeps the relative order of the elements it keeps. */
  lemma {:induction false} FilterKeepsOrder<T(!new)>(s: seq<T>, p: T -> bool, x: T, y: T)
    requires x in s && y in s && p(x) && p(y)
    ensures Before(Filter(s, p), x, y) <==> Before(s, x, y)
    decreases |s|
  {
    var init, last := s[..|s| - 1], s[|s| - 1];
    assert s == init + [last];
    var f := Filter(init, p);
    var tail := if p(last) then [last] else [];
    assert Filter(s, p) == f + tail;
    if x in init && y in init {
      FilterKeepsOrder(init, p, x, y);
      IndexOfConcat(init, [last], x);
      IndexOfConcat(init, [last], y);
      IndexOfConcat(f, tail, x);
      IndexOfConcat(f, tail, y);
    } else if x in init {
      IndexOfConcat(init, [last], x);
      IndexOfConcat(init, [last], y);
      IndexOfConcat(f, tail, x);
      IndexOfConcat(f, tail, y);
    } else if y in init {
      IndexOfConcat(init, [last], x);
      IndexOfConcat(init, [last], y);
      IndexOfConcat(f, tail, x);
      IndexOfConcat(f, tail, y);
    } else {
      assert x == last && y == last;
    }
  }

  /** Subtracting the same set of elements, however listed, gives the same result. */
  lemma {:induction false} UnseenSameSeen<T(!new)>(s: seq<T>, seen1: seq<T>, seen2: seq<T>)
    requires forall x :: x in s ==> (x in seen1 <==> x in seen2)
    ensures Unseen(s, seen1) == Unseen(s, seen2)
    decreases |s|
  {
    if s != [] {
      var init, last := s[..|s| - 1], s[|s| - 1];
      assert s == init + [last];
      UnseenSameSeen(init, seen1, seen2);
      UnseenSnoc(init, last, seen1);
      UnseenSnoc(init, last, seen2);
    }
  }

  /** Nothing is left when every element has been seen. */
  lemma {:induction false} UnseenAllSeen<T(!new)>(s: seq<T>, seen: seq<T>)
    requires forall x :: x in s ==> x in seen
    ensures Unseen(s, seen) == []
    decreases |s|
  {
    if s != [] {
      var init, last := s[..|s| - 1], s[|s| - 1];
      assert s == init + [last];
      UnseenAllSeen(init, seen);
      UnseenSnoc(init, last, seen);
    }
  }

  /** The first occurrence of each element, in order of first occurrence. */
  function Dedup<T(==,!new)>(s: seq<T>): (r: seq<T>)
    ensures forall x :: x in r <==> x in s
    decreases |s|
  {
    if s == [] then []
    else
      var init, last := s[..|s| - 1], s[|s| - 1];
      assert s == init + [last];
      Dedup(init) + (if last in init then [] else [last])
  }

  /** Each element is kept once. */
  lemma {:induction false} DedupNoDup<T(!new)>(s: seq<T>)
    ensures NoDup(Dedup(s))
    decreases |s|
  {
    if s != [] {
      var init, last := s[..|s| - 1], s[|s| - 1];
      assert s == init + [last];
      DedupNoDup(init);
      if last in init {
        assert Dedup(s) == Dedup(init) + [] == Dedup(init);
      } else {
        NoDupSnoc(Dedup(init), last);
      }
    }
  }

  lemma DedupSnoc<T(!new)>(s: seq<T>, x: T)
    ensures Dedup(s + [x]) == Dedup(s) + (if x in s then [] else [x])
  {
    assert (s + [x])[..|s + [x]| - 1] == s;
  }

  /** Appending a duplicate-free list adds exactly its elements not seen before. */
  lemma {:induction false} DedupAppend<T(!new)>(prefix: seq<T>, l: seq<T>)
    requires NoDup(l)
    ensures Dedup(prefix + l) == Dedup(prefix) + Unseen(l, prefix)
    decreases |l|
  {
    if l == [] {
      assert prefix + l == prefix;
    } else {
      var init, last := l[..|l| - 1], l[|l| - 1];
      assert l == init + [last];
      NoDupSnoc(init, last);
      DedupAppend(prefix, init);
      DedupAppendStep(prefix, init, last);
    }
  }

  lemma DedupAppendStep<T(!new)>(prefix: seq<T>, init: seq<T>, last: T)
    requires last !in init
    requires Dedup(prefix + init) == Dedup(prefix) + Unseen(init, prefix)
    ensures Dedup(prefix + (init + [last])) == Dedup(prefix) + Unseen(init + [last], prefix)
  {
    var tail := if last in prefix then [] else [last];
    calc {
      Dedup(prefix + (init + [last]));
      { ConcatAssoc(prefix, init, [last]); }
      Dedup((prefix + init) + [last]);
      { DedupSnoc(prefix + init, last); }
      Dedup(prefix + init) + tail;
      (Dedup(prefix) + Unseen(init, prefix)) + tail;
      { ConcatAssoc(Dedup(prefix), Unseen(init, prefix), tail); }
      Dedup(prefix) + (Unseen(init, prefix) + tail);
      { UnseenSnoc(init, last, prefix); }
      Dedup(prefix) + Unseen(init + [last], prefix);
    }
  }

  /** Concatenation is associative. Stated apart so that the extensionality argument is
      made without `Dedup`'s definition in scope; inside DedupAppendStep it is much costlier. */
  lemma ConcatAssoc<T>(a: seq<T>, b: seq<T>, c: seq<T>)
    ensures (a + b) + c == a + (b + c)
  {
  }

  /** Deduplication keeps the order of first occurrences. */
  lemma {:induction false} DedupKeepsOrder<T(!new)>(s: seq<T>, x: T, y: T)
    requires x in s && y in s
    ensures Before(Dedup(s), x, y) <==> Before(s, x, y)
    decreases |s|
  {
    var init, last := s[..|s| - 1], s[|s| - 1];
    assert s == init + [last];
    var d := Dedup(init);
    var tail := if last in init then [] else [last];
    assert Dedup(s) == d + tail;
    if x in init && y in init {
      DedupKeepsOrder(init, x, y);
      IndexOfConcat(init, [last], x);
      IndexOfConcat(init, [last], y);
      IndexOfConcat(d, tail, x);
      IndexOfConcat(d, tail, y);
    } else if x in init {
      IndexOfConcat(init, [last], x);
      IndexOfConcat(init, [last], y);
      IndexOfConcat(d, tail, x);
      IndexOfConcat(d, tail, y);
    } else if y in init {
      IndexOfConcat(init, [last], x);
      IndexOfConcat(init, [last], y);
      IndexOfConcat(d, tail, x);
      IndexOfConcat(d, tail, y);
    } else {
      assert x == last && y == last;
    }
  }

  /** `xs.flatMap(f)`: the lists of the elements, concatenated in order. */
  function FlatMap<T, U>(xs: seq<T>, f: T -> seq<U>): seq<U>
    decreases |xs|
  {
    if xs == [] then [] else FlatMap(xs[..|xs| - 1], f) + f(xs[|xs| - 1])
  }

  /** The first element of `xs` whose list contains `y`. */
  function FirstWith<T(!new), U(==,!new)>(xs: seq<T>, f: T -> seq<U>, y: U): (x: T)
    requires y in FlatMap(xs, f)
    ensures x in xs && y in f(x)
    decreases |xs|
  {
    var init, last := xs[..|xs| - 1], xs[|xs| - 1];
    assert xs == init + [last];
    if y in FlatMap(init, f) then FirstWith(init, f, y) else last
  }

  /** Element `i` of `xs` is the first whose list contains `y`. */
  predicate FirstIndexWith<T, U(==,!new)>(xs: seq<T>, f: T -> seq<U>, y: U, i: int) {
    && 0 <= i < |xs|
    && y in f(xs[i])
    && forall j :: 0 <= j < i ==> y !in f(xs[j])
  }

  /** Each element's list is part of the concatenation. */
  lemma {:induction false} FlatMapIncludes<T(!new), U(!new)>(xs: seq<T>, f: T -> seq<U>, i: int)
    requires 0 <= i < |xs|
    ensures forall y :: y in f(xs[i]) ==> y in FlatMap(xs, f)
    decreases |xs|
  {
    var init := xs[..|xs| - 1];
    if i < |init| {
      FlatMapIncludes(init, f, i);
      assert init[i] == xs[i];
    }
  }

  /** The first element with `y` in its list is where `FirstWith` points. */
  lemma {:induction false} FirstWithIsFirst<T(!new), U(!new)>(xs: seq<T>, f: T -> seq<U>, y: U)
    requires y in FlatMap(xs, f)
    ensures exists i :: FirstIndexWith(xs, f, y, i) && xs[i] == FirstWith(xs, f, y)
    decreases |xs|
  {
    var init := xs[..|xs| - 1];
    if y in FlatMap(init, f) {
      FirstWithIsFirst(init, f, y);
      var i :| FirstIndexWith(init, f, y, i) && init[i] == FirstWith(init, f, y);
      assert forall j :: 0 <= j <= i ==> xs[j] == init[j];
      assert FirstIndexWith(xs, f, y, i);
    } else {
      forall j | 0 <= j < |init|
        ensures y !in f(xs[j])
      {
        FlatMapIncludes(init, f, j);
        assert init[j] == xs[j];
      }
      assert FirstIndexWith(xs, f, y, |init|);
    }
  }

  /** Membership in the concatenation is membership in some element's list. */
  lemma FlatMapMembers<T(!new), U(!new)>(xs: seq<T>, f: T -> seq<U>, y: U)
    ensures y in FlatMap(xs, f) <==> exists i :: 0 <= i < |xs| && y in f(xs[i])
  {
    if y in FlatMap(xs, f) {
      FirstWithIsFirst(xs, f, y);
    } else {
      forall i | 0 <= i < |xs|
        ensures y !in f(xs[i])
      {
        FlatMapIncludes(xs, f, i);
      }
    }
  }
}
