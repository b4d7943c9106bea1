/** Sequence operations behind `Array.prototype.filter` and the `Set` used to
    remove duplicates, with the facts about them that the list handlers need. */
module Seqs {

  /** `r` is what is left of `xs` after deleting some of its elements: the
      survivors keep their relative order. */
  predicate IsSubsequence<T(==)>(r: seq<T>, xs: seq<T>)
    decreases |xs|
  {
    r == [] ||
    (xs != [] && ((r[0] == xs[0] && IsSubsequence(r[1..], xs[1..])) || IsSubsequence(r, xs[1..])))
  }

  lemma {:induction false} SubsequenceReflexive<T>(xs: seq<T>)
    ensures IsSubsequence(xs, xs)
    decreases |xs|
  {
    if xs != [] {
      SubsequenceReflexive(xs[1..]);
    }
  }

  lemma NoMembersEmpty<T>(xs: seq<T>)
    ensures (forall x :: x !in xs) ==> xs == []
  {
    if xs != [] {
      assert xs[0] in xs;
    }
  }

  /** The number of elements of `xs` that satisfy `p`. */
  function Count<T>(p: T -> bool, xs: seq<T>): nat
  {
    if xs == [] then 0 else (if p(xs[0]) then 1 else 0) + Count(p, xs[1..])
  }

  /** `Array.prototype.filter`: the elements of `xs` that satisfy `p`, every
      copy of them, in their original order. */
  function Filter<T(==,!new)>(p: T -> bool, xs: seq<T>): (r: seq<T>)
    ensures |r| == Count(p, xs)
    ensures forall x :: x in r <==> x in xs && p(x)
    ensures forall x :: multiset(r)[x] == if p(x) then multiset(xs)[x] else 0
    ensures IsSubsequence(r, xs)
  {
    if xs == [] then []
    else
      var rest := Filter(p, xs[1..]);
      assert xs == [xs[0]] + xs[1..];
      if p(xs[0]) then
        assert ([xs[0]] + rest)[1..] == rest;
        [xs[0]] + rest
      else
        rest
  }

  /** A subsequence holds no more copies of anything than its source. */
  lemma {:induction false} SubsequenceCounts<T>(r: seq<T>, xs: seq<T>)
    requires IsSubsequence(r, xs)
    ensures forall x :: multiset(r)[x] <= multiset(xs)[x]
    decreases |xs|
  {
    if r != [] {
      assert xs == [xs[0]] + xs[1..];
      if r[0] == xs[0] && IsSubsequence(r[1..], xs[1..]) {
        SubsequenceCounts(r[1..], xs[1..]);
        assert r == [r[0]] + r[1..];
      } else {
        SubsequenceCounts(r, xs[1..]);
      }
    }
  }

  /** Order and multiplicities pin the filter down: a subsequence of `xs` that
      keeps every copy of each element satisfying `p` and none of the others
      IS `Filter(p, xs)`. */
  lemma {:induction false} FilterUnique<T(!new)>(p: T -> bool, xs: seq<T>, r: seq<T>)
    requires IsSubsequence(r, xs)
    requires forall x :: multiset(r)[x] == if p(x) then multiset(xs)[x] else 0
    ensures r == Filter(p, xs)
    decreases |xs|
  {
    if xs == [] {
      assert r == [];
    } else {
      var a := xs[0];
      assert xs == [a] + xs[1..];
      if p(a) {
        if !(r != [] && r[0] == a && IsSubsequence(r[1..], xs[1..])) {
          assert IsSubsequence(r, xs[1..]);
          SubsequenceCounts(r, xs[1..]);
          assert false;
        }
        assert r == [a] + r[1..];
        FilterUnique(p, xs[1..], r[1..]);
      } else {
        assert multiset(r)[a] == 0;
        if r != [] && r[0] == a {
          assert false;
        }
        FilterUnique(p, xs[1..], r);
      }
    }
  }

  /** Filtering an already filtered sequence changes nothing. */
  lemma {:induction false} FilterIdempotent<T(!new)>(p: T -> bool, xs: seq<T>)
    ensures Filter(p, Filter(p, xs)) == Filter(p, xs)
  {
    if xs != [] {
      FilterIdempotent(p, xs[1..]);
      if p(xs[0]) {
        assert ([xs[0]] + Filter(p, xs[1..]))[1..] == Filter(p, xs[1..]);
      }
    }
  }

  /** An element the test rejects, appended at the end, is filtered away. */
  lemma FilterAppendRejected<T(!new)>(p: T -> bool, xs: seq<T>, x: T)
    requires !p(x)
    ensures Filter(p, xs + [x]) == Filter(p, xs)
  {
    var r := Filter(p, xs);
    SubsequenceAppend(r, xs, x);
    FilterUnique(p, xs + [x], r);
  }

  /** A subsequence of `xs` is also one of `xs` with something appended. */
  lemma {:induction false} SubsequenceAppend<T>(r: seq<T>, xs: seq<T>, x: T)
    requires IsSubsequence(r, xs)
    ensures IsSubsequence(r, xs + [x])
    decreases |xs|
  {
    if r != [] {
      assert (xs + [x])[1..] == xs[1..] + [x];
      if r[0] == xs[0] && IsSubsequence(r[1..], xs[1..]) {
        SubsequenceAppend(r[1..], xs[1..], x);
      } else {
        SubsequenceAppend(r, xs[1..], x);
      }
    }
  }

  /** Two filters can be applied in either order. */
  lemma {:induction false} FilterCommute<T(!new)>(p: T -> bool, q: T -> bool, xs: seq<T>)
    ensures Filter(p, Filter(q, xs)) == Filter(q, Filter(p, xs))
  {
    if xs != [] {
      FilterCommute(p, q, xs[1..]);
      var a, rest := xs[0], xs[1..];
      if q(a) {
        assert ([a] + Filter(q, rest))[1..] == Filter(q, rest);
      }
      if p(a) {
        assert ([a] + Filter(p, rest))[1..] == Filter(p, rest);
      }
      if p(a) && q(a) {
        assert ([a] + Filter(p, Filter(q, rest)))[1..] == Filter(p, Filter(q, rest));
        assert ([a] + Filter(q, Filter(p, rest)))[1..] == Filter(q, Filter(p, rest));
      }
    }
  }

  /** Every element is counted by exactly one of two complementary tests. */
  lemma {:induction false} CountComplement<T>(p: T -> bool, q: T -> bool, xs: seq<T>)
    requires forall x :: q(x) == !p(x)
    ensures Count(p, xs) + Count(q, xs) == |xs|
  {
    if xs != [] {
      CountComplement(p, q, xs[1..]);
    }
  }

  /** No element occurs twice. */
  predicate Distinct<T(==)>(xs: seq<T>) {
    forall i, j :: 0 <= i < j < |xs| ==> xs[i] != xs[j]
  }

  /** Without repeats, a sequence has as many elements as its set. */
  lemma {:induction false} DistinctCardinality<T>(xs: seq<T>)
    requires Distinct(xs)
    ensures |set y | y in xs| == |xs|
  {
    if xs != [] {
      var rest := xs[1..];
      assert Distinct(rest) by {
        forall i, j | 0 <= i < j < |rest| ensures rest[i] != rest[j] {
          assert rest[i] == xs[i + 1] && rest[j] == xs[j + 1];
        }
      }
      DistinctCardinality(rest);
      assert xs[0] !in rest by {
        forall k | 0 <= k < |rest| ensures rest[k] != xs[0] {
          assert rest[k] == xs[k + 1];
        }
      }
      assert (set y | y in xs) == {xs[0]} + (set y | y in rest) by {
        assert xs == [xs[0]] + rest;
      }
    }
  }

  /** Without repeats, a sequence of copies of one value has at most one. */
  lemma DistinctOfOneValue<T>(xs: seq<T>, x: T)
    requires Distinct(xs)
    requires forall y :: y in xs ==> y == x
    ensures xs == [] || xs == [x]
  {
    DistinctCardinality(xs);
    if xs != [] {
      assert xs[0] in xs;
      assert (set y | y in xs) == {x};
      assert xs == [xs[0]];
    }
  }

  /** `Array.from(new Set(xs))`: the elements of `xs` in order of first
      occurrence, each once. */
  function Dedup<T(==,!new)>(xs: seq<T>): (r: seq<T>)
    ensures forall x :: x in r <==> x in xs
    ensures Distinct(r)
    ensures |r| <= |xs|
  {
    if xs == [] then []
    else
      var last := xs[|xs| - 1];
      var d := Dedup(xs[..|xs| - 1]);
      assert xs == xs[..|xs| - 1] + [last];
      if last in d then d else d + [last]
  }
}
