/** Sequence helpers standing in for Python list comprehensions with an
    `if` clause and for JavaScript's `Array.prototype.filter`. */
module Lists {

  /** The elements of `xs` that satisfy `p`, in their original order. */
  function Filter<T>(xs: seq<T>, p: T -> bool): seq<T>
  {
    if xs == [] then []
    else (if p(xs[0]) then [xs[0]] else []) + Filter(xs[1..], p)
  }

  /** An element survives the filter exactly when it is in the sequence and
      passes the test. */
  lemma {:induction false} FilterMember<T>(xs: seq<T>, p: T -> bool, x: T)
    ensures x in Filter(xs, p) <==> x in xs && p(x)
  {
    if xs != [] {
      FilterMember(xs[1..], p, x);
      assert xs == [xs[0]] + xs[1..];
    }
  }

  /** The filter keeps every copy of an element that passes the test and
      no copy of one that fails it. */
  lemma {:induction false} FilterCount<T>(xs: seq<T>, p: T -> bool, x: T)
    ensures multiset(Filter(xs, p))[x] == if p(x) then multiset(xs)[x] else 0
  {
    if xs != [] {
      assert xs == [xs[0]] + xs[1..];
      FilterCount(xs[1..], p, x);
    }
  }

  /** `sub` can be obtained from `xs` by deleting elements (order kept). */
  ghost predicate IsSubsequence<T>(sub: seq<T>, xs: seq<T>)
    decreases |xs|
  {
    if sub == [] then true
    else if xs == [] then false
    else if sub[0] == xs[0] then IsSubsequence(sub[1..], xs[1..])
    else IsSubsequence(sub, xs[1..])
  }

  /** A subsequence of the tail is a subsequence of the whole. */
  lemma {:induction false} SubsequenceOfTail<T>(sub: seq<T>, xs: seq<T>)
    requires xs != [] && IsSubsequence(sub, xs[1..])
    ensures IsSubsequence(sub, xs)
    decreases |xs|, 0
  {
    if sub != [] && sub[0] == xs[0] {
      DropHead(sub, xs[1..]);
    }
  }

  /** Dropping the first element of a subsequence keeps it a subsequence. */
  lemma {:induction false} DropHead<T>(sub: seq<T>, ys: seq<T>)
    requires sub != [] && IsSubsequence(sub, ys)
    ensures IsSubsequence(sub[1..], ys)
    decreases |ys|, 1
  {
    if sub[0] == ys[0] {
      SubsequenceOfTail(sub[1..], ys);
    } else {
      DropHead(sub, ys[1..]);
      SubsequenceOfTail(sub[1..], ys);
    }
  }

  /** A sequence that agrees with `g` position by position still does once
      `g`'s next value is appended. */
  lemma AppendPointwise<X>(xs: seq<X>, x: X, g: nat -> X)
    requires forall k :: 0 <= k < |xs| ==> xs[k] == g(k)
    requires x == g(|xs|)
    ensures forall k :: 0 <= k < |xs + [x]| ==> (xs + [x])[k] == g(k)
  {
  }

  /** Filtering a sequence with one more element at the end. */
  lemma {:induction false} FilterAppendOne<T>(xs: seq<T>, x: T, p: T -> bool)
    ensures Filter(xs + [x], p) == Filter(xs, p) + (if p(x) then [x] else [])
  {
    var tail := if p(x) then [x] else [];
    if xs == [] {
      assert xs + [x] == [x];
      assert [x][1..] == [];
      assert Filter([x], p) == tail + [];
    } else {
      var head := if p(xs[0]) then [xs[0]] else [];
      assert (xs + [x])[0] == xs[0];
      assert (xs + [x])[1..] == xs[1..] + [x];
      FilterAppendOne(xs[1..], x, p);
      assert Filter(xs + [x], p) == head + (Filter(xs[1..], p) + tail);
      assert head + (Filter(xs[1..], p) + tail) == (head + Filter(xs[1..], p)) + tail;
    }
  }

  /** Filtering keeps the survivors in their original order. */
  lemma {:induction false} FilterIsSubsequence<T>(xs: seq<T>, p: T -> bool)
    ensures IsSubsequence(Filter(xs, p), xs)
  {
    if xs != [] {
      FilterIsSubsequence(xs[1..], p);
      if p(xs[0]) {
        assert Filter(xs, p) == [xs[0]] + Filter(xs[1..], p);
        assert Filter(xs, p)[1..] == Filter(xs[1..], p);
      } else {
        assert Filter(xs, p) == [] + Filter(xs[1..], p) == Filter(xs[1..], p);
        SubsequenceOfTail(Filter(xs, p), xs);
      }
    }
  }

  /** A filter that every element passes changes nothing. */
  lemma {:induction false} FilterAll<T>(xs: seq<T>, p: T -> bool)
    requires forall i :: 0 <= i < |xs| ==> p(xs[i])
    ensures Filter(xs, p) == xs
  {
    if xs != [] {
      FilterAll(xs[1..], p);
    }
  }

  /** Two tests that agree on every element filter alike. */
  lemma {:induction false} FilterCongruent<T>(xs: seq<T>, p: T -> bool, q: T -> bool)
    requires forall i :: 0 <= i < |xs| ==> p(xs[i]) == q(xs[i])
    ensures Filter(xs, p) == Filter(xs, q)
  {
    if xs != [] {
      FilterCongruent(xs[1..], p, q);
    }
  }

  /** Each element of the sequence is smaller than the next. */
  predicate StrictlyIncreasing(s: seq<int>)
  {
    forall i, j :: 0 <= i < j < |s| ==> s[i] < s[j]
  }
}
