/**
 Finite sums over sequences of keys, and counting facts about sequences
 without repeats. The rankers' scores are exact reals, so a sum does not
 depend on the order in which it is taken; the sums here go left to right.
 */
module Sums {

  /** No element occurs twice in `s`. */
  ghost predicate Distinct<T>(s: seq<T>) {
    forall x | x in multiset(s) :: multiset(s)[x] == 1
  }

  /** Dropping the last element of a sequence without repeats leaves one without repeats that lacks it. */
  lemma DistinctSplit<T>(s: seq<T>)
    requires Distinct(s) && s != []
    ensures Distinct(s[..|s| - 1]) && s[|s| - 1] !in s[..|s| - 1]
  {
    var init, last := s[..|s| - 1], s[|s| - 1];
    assert s == init + [last];
    assert multiset(s) == multiset(init) + multiset{last};
    assert multiset(s)[last] == 1;
    assert multiset(init)[last] == 0;
    forall x | x in multiset(init)
      ensures multiset(init)[x] == 1
    {
      assert x in multiset(s);
    }
  }

  /** An element of a sequence without repeats does not occur before its position. */
  lemma DistinctPrefix<T>(s: seq<T>, i: nat)
    requires Distinct(s) && i < |s|
    ensures s[i] !in s[..i]
  {
    assert s == s[..i] + [s[i]] + s[i + 1..];
    assert multiset(s) == multiset(s[..i]) + multiset{s[i]} + multiset(s[i + 1..]);
    assert multiset(s)[s[i]] == 1;
    assert multiset(s[..i])[s[i]] == 0;
  }

  /** The sum of `m[k]` over the keys `keys`. */
  ghost function Total<K>(keys: seq<K>, m: map<K, real>): real
    requires forall k :: k in keys ==> k in m
  {
    if keys == [] then 0.0 else Total(keys[..|keys| - 1], m) + m[keys[|keys| - 1]]
  }

  /** The sum of the multiplicities in `ms` of the elements of `keys`. */
  ghost function Multiplicities<T>(keys: seq<T>, ms: multiset<T>): nat {
    if keys == [] then 0 else Multiplicities(keys[..|keys| - 1], ms) + ms[keys[|keys| - 1]]
  }

  /** A sequence without repeats holds each of its elements exactly once. */
  lemma DistinctMultiplicity<T>(s: seq<T>, x: T)
    requires Distinct(s)
    ensures multiset(s)[x] == if x in s then 1 else 0
  {
  }

  /** A sequence without repeats has as many elements as its set. */
  lemma {:induction false} DistinctCardinality<T>(s: seq<T>)
    requires Distinct(s)
    ensures |set x | x in s| == |s|
  {
    if s != [] {
      var init, last := s[..|s| - 1], s[|s| - 1];
      assert s == init + [last];
      DistinctSplit(s);
      DistinctCardinality(init);
      assert (set x | x in s) == (set x | x in init) + {last};
    }
  }

  /** Over distinct keys, one more occurrence of `x` adds one exactly when `x` is a key. */
  lemma {:induction false} MultiplicitiesAdd<T>(keys: seq<T>, ms: multiset<T>, x: T)
    requires Distinct(keys)
    ensures Multiplicities(keys, ms + multiset{x}) == Multiplicities(keys, ms) + (if x in keys then 1 else 0)
  {
    if keys != [] {
      var init, last := keys[..|keys| - 1], keys[|keys| - 1];
      DistinctSplit(keys);
      MultiplicitiesAdd(init, ms, x);
    }
  }

  /** Over distinct keys that include every element of `xs`, the multiplicities add up to `|xs|`. */
  lemma {:induction false} MultiplicitiesCover<T>(keys: seq<T>, xs: seq<T>)
    requires Distinct(keys)
    requires forall x :: x in xs ==> x in keys
    ensures Multiplicities(keys, multiset(xs)) == |xs|
  {
    if xs == [] {
      MultiplicitiesOfNone(keys);
    } else {
      var init, last := xs[..|xs| - 1], xs[|xs| - 1];
      assert xs == init + [last];
      assert multiset(xs) == multiset(init) + multiset{last};
      MultiplicitiesCover(keys, init);
      MultiplicitiesAdd(keys, multiset(init), last);
    }
  }

  /** Nothing occurs in the empty multiset. */
  lemma {:induction false} MultiplicitiesOfNone<T>(keys: seq<T>)
    ensures Multiplicities(keys, multiset{}) == 0
  {
    if keys != [] {
      MultiplicitiesOfNone(keys[..|keys| - 1]);
    }
  }

  /** A sum of equal values is their count times the value. */
  lemma {:induction false} TotalOfConstant<K>(keys: seq<K>, m: map<K, real>, c: real)
    requires forall k :: k in keys ==> k in m && m[k] == c
    ensures Total(keys, m) == Times(|keys|, c)
  {
    if keys != [] {
      TotalOfConstant(keys[..|keys| - 1], m, c);
    }
  }

  /** Fractions over the same positive denominator add by their numerators. */
  lemma SumOfFractions(a: real, b: real, n: real)
    requires n > 0.0
    ensures a / n + b / n == (a + b) / n
  {
  }

  /** A positive number divided by itself is one. */
  lemma DivideSelf(n: real)
    requires n > 0.0
    ensures n / n == 1.0
  {
  }

  /** `k` copies of `c` added up: a product written as repeated addition, so that sums of shares stay linear. */
  ghost function Times(k: nat, c: real): real {
    if k == 0 then 0.0 else Times(k - 1, c) + c
  }

  /** Repeated addition is multiplication. */
  lemma {:induction false} TimesIsProduct(k: nat, c: real)
    ensures Times(k, c) == (k as real) * c
  {
    if k > 0 {
      TimesIsProduct(k - 1, c);
    }
  }

  /** Splitting `a` into `n` equal shares and adding the shares back gives `a`. */
  lemma SharesMakeWhole(n: nat, a: real)
    requires n > 0
    ensures Times(n, a / (n as real)) == a
  {
    TimesIsProduct(n, a / (n as real));
  }

  /** A share of a non-negative amount is non-negative. */
  lemma ShareNonNegative(a: real, n: real)
    requires a >= 0.0 && n > 0.0
    ensures a / n >= 0.0
  {
  }
}
