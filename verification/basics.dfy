/** Small, source-independent building blocks: an optional value and the
    order-preserving list filters that the application writes as
    `list.filter(...)` throughout. */
module Basics {

  /** A JavaScript value that may be `undefined`. */
  datatype Option<+T> = None | Some(value: T)

  /** The outcome of an operation that either returns a value or throws. */
  datatype Result<+T, +E> = Success(value: T) | Failure(error: E)

  /** `a` can be obtained from `b` by deleting elements (greedy matching). */
  predicate Subseq<T(==)>(a: seq<T>, b: seq<T>)
    decreases |b|
  {
    if |a| == 0 then true
    else if |b| == 0 then false
    else if a[0] == b[0] then Subseq(a[1..], b[1..])
    else Subseq(a, b[1..])
  }

  /** Number of occurrences of `x` in `xs`. */
  function Count<T(==)>(xs: seq<T>, x: T): nat
  {
    if |xs| == 0 then 0
    else (if xs[0] == x then 1 else 0) + Count(xs[1..], x)
  }

  lemma {:induction false} SubseqRefl<T>(a: seq<T>)
    ensures Subseq(a, a)
    decreases |a|
  {
    if |a| > 0 {
      SubseqRefl(a[1..]);
    }
  }

  /** Dropping the first element of the smaller sequence keeps it a subsequence. */
  lemma {:induction false} SubseqDropHead<T>(a: seq<T>, b: seq<T>)
    requires |a| > 0 && Subseq(a, b)
    ensures Subseq(a[1..], b)
    decreases |b|, 0
  {
    if a[0] == b[0] {
      SubseqSkip(a[1..], b[1..], b[0]);
      assert [b[0]] + b[1..] == b;
    } else {
      SubseqDropHead(a, b[1..]);
      SubseqSkip(a[1..], b[1..], b[0]);
      assert [b[0]] + b[1..] == b;
    }
  }

  /** Prepending an element to the larger sequence keeps a subsequence. */
  lemma {:induction false} SubseqSkip<T>(a: seq<T>, b: seq<T>, x: T)
    requires Subseq(a, b)
    ensures Subseq(a, [x] + b)
    decreases |b|, 1
  {
    if |a| > 0 {
      assert ([x] + b)[1..] == b;
      if a[0] == x {
        SubseqDropHead(a, b);
      }
    }
  }

  /** `xs` with every occurrence of `x` dropped: the `filter(c => c !== x)`
      idiom of the source. */
  function Without<T(==,!new)>(xs: seq<T>, x: T): (r: seq<T>)
    ensures x !in r
    ensures forall y :: y != x ==> (y in r <==> y in xs)
    ensures forall y :: y != x ==> Count(r, y) == Count(xs, y)
    ensures |r| + Count(xs, x) == |xs|
    ensures Subseq(r, xs)
    decreases |xs|
  {
    if |xs| == 0 then []
    else
      var rest := Without(xs[1..], x);
      assert xs == [xs[0]] + xs[1..];
      if xs[0] == x then
        SubseqSkip(rest, xs[1..], x);
        rest
      else
        assert ([xs[0]] + rest)[1..] == rest;
        [xs[0]] + rest
  }

  /** Removing an element twice is the same as removing it once. */
  lemma WithoutIdempotent<T(!new)>(xs: seq<T>, x: T)
    ensures Without(Without(xs, x), x) == Without(xs, x)
  {
    WithoutAbsent(Without(xs, x), x);
  }

  lemma {:induction false} WithoutAbsent<T(!new)>(xs: seq<T>, x: T)
    requires x !in xs
    ensures Without(xs, x) == xs
    decreases |xs|
  {
    if |xs| > 0 {
      WithoutAbsent(xs[1..], x);
      assert xs == [xs[0]] + xs[1..];
    }
  }

  lemma {:induction false} WithoutAppend<T(!new)>(xs: seq<T>, ys: seq<T>, x: T)
    ensures Without(xs + ys, x) == Without(xs, x) + Without(ys, x)
    decreases |xs|
  {
    if |xs| > 0 {
      assert (xs + ys)[1..] == xs[1..] + ys;
      WithoutAppend(xs[1..], ys, x);
    } else {
      assert xs + ys == ys;
    }
  }

  lemma {:induction false} CountAppend<T>(xs: seq<T>, ys: seq<T>, x: T)
    ensures Count(xs + ys, x) == Count(xs, x) + Count(ys, x)
    decreases |xs|
  {
    if |xs| > 0 {
      assert (xs + ys)[1..] == xs[1..] + ys;
      CountAppend(xs[1..], ys, x);
    } else {
      assert xs + ys == ys;
    }
  }

  lemma {:induction false} CountZero<T>(xs: seq<T>, x: T)
    ensures Count(xs, x) == 0 <==> x !in xs
    decreases |xs|
  {
    if |xs| > 0 {
      CountZero(xs[1..], x);
      assert xs == [xs[0]] + xs[1..];
    }
  }

  /** The elements of `xs` that `keep` accepts, in their original order. */
  function Filter<T(==,!new)>(keep: T -> bool, xs: seq<T>): (r: seq<T>)
    ensures forall y :: y in r <==> y in xs && keep(y)
    ensures forall y :: Count(r, y) == (if keep(y) then Count(xs, y) else 0)
    ensures Subseq(r, xs)
    decreases |xs|
  {
    if |xs| == 0 then []
    else
      var rest := Filter(keep, xs[1..]);
      assert xs == [xs[0]] + xs[1..];
      if keep(xs[0]) then
        assert ([xs[0]] + rest)[1..] == rest;
        [xs[0]] + rest
      else
        SubseqSkip(rest, xs[1..], xs[0]);
        rest
  }

  /** Filtering a sequence with one more element at the end. */
  lemma {:induction false} FilterSnoc<T(!new)>(keep: T -> bool, xs: seq<T>, x: T)
    ensures Filter(keep, xs + [x]) == Filter(keep, xs) + (if keep(x) then [x] else [])
    decreases |xs|
  {
    if |xs| == 0 {
      assert xs + [x] == [x];
      assert [x][1..] == [];
    } else {
      assert (xs + [x])[1..] == xs[1..] + [x];
      FilterSnoc(keep, xs[1..], x);
    }
  }

  /** The concatenation of `f` applied to each element of `xs`, in order. */
  function FlatMap<T, U>(f: T -> seq<U>, xs: seq<T>): seq<U>
    decreases |xs|
  {
    if |xs| == 0 then [] else f(xs[0]) + FlatMap(f, xs[1..])
  }

  /** Mapping a concatenation gives the concatenation of the two maps. */
  lemma {:induction false} FlatMapAppend<T, U>(f: T -> seq<U>, a: seq<T>, b: seq<T>)
    ensures FlatMap(f, a + b) == FlatMap(f, a) + FlatMap(f, b)
    decreases |a|
  {
    if |a| == 0 {
      assert a + b == b;
    } else {
      assert (a + b)[1..] == a[1..] + b;
      assert (a + b)[0] == a[0];
      FlatMapAppend(f, a[1..], b);
    }
  }

  /** Every element that `f` gives for some element of `xs` is in the map. */
  lemma {:induction false} FlatMapContains<T, U>(f: T -> seq<U>, xs: seq<T>, i: nat)
    requires i < |xs|
    ensures forall e :: e in f(xs[i]) ==> e in FlatMap(f, xs)
    decreases i
  {
    if i > 0 {
      FlatMapContains(f, xs[1..], i - 1);
      assert xs[1..][i - 1] == xs[i];
    }
  }
}
