/**
 * The few pieces of JavaScript semantics the stores rely on: `null`-able
 * values, the TypeError thrown when a property of `undefined` is read or
 * written, and how `Array.from({length: n})` and `slice(0, n)` treat sizes
 * that are negative or larger than the array.
 */
module Js {

  /** A value that may be `null`. */
  datatype Option<+T> = None | Some(value: T) {
    function GetOr(default: T): T {
      match this
      case Some(v) => v
      case None => default
    }
  }

  /** The outcome of a computation that either returns a value or throws a TypeError. */
  datatype Result<+T> = Ok(value: T) | TypeError {
    /** The value, or `default` when the computation threw. */
    function GetOr(default: T): T {
      match this
      case Ok(v) => v
      case TypeError => default
    }
  }

  /** Length of `Array.from({length: n})`: a negative length yields an empty array. */
  function Length(n: int): (k: nat)
    ensures n <= 0 ==> k == 0
    ensures 0 <= n ==> k == n
  {
    if n < 0 then 0 else n
  }

  /** Index at which `slice(0, n)` stops on an array of length `len`. */
  function SliceEnd(len: nat, n: int): (k: nat)
    ensures k <= len
  {
    if n < 0 then (if len + n < 0 then 0 else len + n)
    else if n < len then n
    else len
  }

  /** `s.slice(0, n)`: a prefix of `s`; a negative `n` counts from the end. */
  function Slice<T>(s: seq<T>, n: int): (r: seq<T>)
    ensures |r| <= |s|
    ensures r == s[..|r|]
  {
    s[..SliceEnd(|s|, n)]
  }

  /** `Math.abs` on integers. */
  function Abs(x: int): nat {
    if x < 0 then -x else x
  }

  function Min(a: int, b: int): int {
    if a < b then a else b
  }

  /** `slice(0, n)` with `0 <= n` keeps exactly the first `min(n, |s|)` elements. */
  lemma SliceNonNegative<T>(s: seq<T>, n: int)
    requires 0 <= n
    ensures Slice(s, n) == s[..Min(n, |s|)]
  {
  }

  /** The elements of `xs` that differ from `x`, in order: `xs.filter(e => e !== x)`. */
  function Remove<T(==)>(xs: seq<T>, x: T): (r: seq<T>)
    ensures x !in r
    ensures forall i :: 0 <= i < |r| ==> r[i] in xs
    ensures forall i :: 0 <= i < |xs| && xs[i] != x ==> xs[i] in r
    ensures |r| <= |xs|
    ensures forall i :: 0 <= i < |xs| && xs[i] != x ==> multiset(r)[xs[i]] == multiset(xs)[xs[i]]
  {
    if |xs| == 0 then []
    else
      assert xs == [xs[0]] + xs[1..];
      if xs[0] == x then Remove(xs[1..], x)
      else [xs[0]] + Remove(xs[1..], x)
  }

  /**
   * Filtering distributes over concatenation and keeps exactly the single
   * elements that differ from `x`: together, the kept elements stay in
   * their original order.
   */
  lemma {:induction false} RemoveAppend<T>(xs: seq<T>, ys: seq<T>, x: T)
    ensures Remove(xs + ys, x) == Remove(xs, x) + Remove(ys, x)
    ensures forall y :: Remove([y], x) == (if y == x then [] else [y])
  {
    if |xs| == 0 {
      assert xs + ys == ys;
    } else {
      assert (xs + ys)[1..] == xs[1..] + ys;
      RemoveAppend(xs[1..], ys, x);
    }
    forall y
      ensures Remove([y], x) == (if y == x then [] else [y])
    {
      assert [y][1..] == [];
    }
  }

  /** No element occurs twice. */
  ghost predicate NoDuplicates<T>(xs: seq<T>) {
    forall i, j :: 0 <= i < j < |xs| ==> xs[i] != xs[j]
  }

  /** Number of occurrences of `x` in `xs`. */
  function Count<T(==)>(xs: seq<T>, x: T): nat {
    if |xs| == 0 then 0
    else (if xs[0] == x then 1 else 0) + Count(xs[1..], x)
  }

  lemma {:induction false} CountZero<T>(xs: seq<T>, x: T)
    ensures Count(xs, x) == 0 <==> x !in xs
  {
    if |xs| > 0 {
      CountZero(xs[1..], x);
      assert x in xs <==> xs[0] == x || x in xs[1..];
    }
  }

  lemma {:induction false} CountAppend<T>(xs: seq<T>, ys: seq<T>, x: T)
    ensures Count(xs + ys, x) == Count(xs, x) + Count(ys, x)
  {
    if |xs| == 0 {
      assert xs + ys == ys;
    } else {
      assert (xs + ys)[1..] == xs[1..] + ys;
      CountAppend(xs[1..], ys, x);
    }
  }

  /** Removing an element keeps the rest free of duplicates. */
  lemma {:induction false} RemoveKeepsNoDuplicates<T>(xs: seq<T>, x: T)
    requires NoDuplicates(xs)
    ensures NoDuplicates(Remove(xs, x))
  {
    if |xs| > 0 {
      assert NoDuplicates(xs[1..]);
      RemoveKeepsNoDuplicates(xs[1..], x);
      if xs[0] != x {
        var r := Remove(xs[1..], x);
        assert xs[0] !in r by {
          assert xs[0] !in xs[1..];
          assert forall i :: 0 <= i < |r| ==> r[i] in xs[1..];
        }
        ConsNoDuplicates(xs[0], r);
      }
    }
  }

  lemma ConsNoDuplicates<T>(a: T, r: seq<T>)
    requires NoDuplicates(r) && a !in r
    ensures NoDuplicates([a] + r)
  {
    forall i, j | 0 <= i < j < |[a] + r|
      ensures ([a] + r)[i] != ([a] + r)[j]
    {
      if i == 0 {
        assert ([a] + r)[j] == r[j - 1];
      } else {
        assert ([a] + r)[i] == r[i - 1];
        assert ([a] + r)[j] == r[j - 1];
      }
    }
  }
}
