/** `average_value`: the probability-weighted expectation of a score over an
    outcome distribution. A Python dict is modelled as its items in insertion
    order, which is the order `average_value` sums them in. */
module Expectation {
  /** Every key of `probs` is in the domain of `f`. */
  ghost predicate DefinedOn(probs: seq<(string, real)>, f: string --> real)
  {
    forall i :: 0 <= i < |probs| ==> f.requires(probs[i].0)
  }

  /** `sum(values * probs)`: each key's score times its probability, added
      left to right from 0. */
  function AverageValue(probs: seq<(string, real)>, f: string --> real): real
    requires DefinedOn(probs, f)
  {
    if probs == [] then 0.0
    else
      var last := probs[|probs| - 1];
      AverageValue(probs[..|probs| - 1], f) + f(last.0) * last.1
  }

  /** Total probability mass of a distribution. */
  function Mass(probs: seq<(string, real)>): real
  {
    if probs == [] then 0.0 else Mass(probs[..|probs| - 1]) + probs[|probs| - 1].1
  }

  predicate NonNegative(probs: seq<(string, real)>)
  {
    forall i :: 0 <= i < |probs| ==> probs[i].1 >= 0.0
  }

  /** Appending an entry adds its weighted score. */
  lemma AverageValueSnoc(init: seq<(string, real)>, e: (string, real), f: string --> real)
    requires DefinedOn(init, f) && f.requires(e.0)
    ensures DefinedOn(init + [e], f)
    ensures AverageValue(init + [e], f) == AverageValue(init, f) + f(e.0) * e.1
  {
    assert (init + [e])[..|init|] == init;
  }

  /** Appending entries with the same weighted score to two lists with the
      same expectation keeps the expectations equal. */
  lemma AverageValueSnocEqual(d1: seq<(string, real)>, e1: (string, real), d2: seq<(string, real)>, e2: (string, real), f: string --> real)
    requires DefinedOn(d1, f) && DefinedOn(d2, f) && f.requires(e1.0) && f.requires(e2.0)
    requires AverageValue(d1, f) == AverageValue(d2, f) && f(e1.0) == f(e2.0) && e1.1 == e2.1
    ensures DefinedOn(d1 + [e1], f) && DefinedOn(d2 + [e2], f)
    ensures AverageValue(d1 + [e1], f) == AverageValue(d2 + [e2], f)
  {
    AverageValueSnoc(d1, e1, f);
    AverageValueSnoc(d2, e2, f);
  }

  /** Taking one entry out of the sum leaves the sum of the rest. */
  lemma {:induction false} AverageValueRemove(probs: seq<(string, real)>, f: string --> real, j: nat)
    requires DefinedOn(probs, f) && j < |probs|
    ensures DefinedOn(probs[..j] + probs[j + 1..], f)
    ensures AverageValue(probs, f)
         == AverageValue(probs[..j] + probs[j + 1..], f) + f(probs[j].0) * probs[j].1
  {
    var rest := probs[..j] + probs[j + 1..];
    var n := |probs| - 1;
    assert DefinedOn(rest, f) by {
      forall i | 0 <= i < |rest|
        ensures f.requires(rest[i].0)
      {
        if i < j {
          assert rest[i] == probs[i];
        } else {
          assert rest[i] == probs[i + 1];
        }
      }
    }
    var init := probs[..n];
    assert DefinedOn(init, f) by {
      forall i | 0 <= i < n
        ensures f.requires(init[i].0)
      {
        assert init[i] == probs[i];
      }
    }
    if j < n {
      AverageValueRemove(init, f, j);
      assert rest[..|rest| - 1] == init[..j] + init[j + 1..];
      assert rest[|rest| - 1] == probs[n];
    } else {
      assert rest == init;
    }
  }

  /** The expectation does not depend on the order of the dict's items: any
      rearrangement of the same entries gives the same sum. */
  lemma {:induction false} AverageValuePermutation(p1: seq<(string, real)>, p2: seq<(string, real)>, f: string --> real)
    requires DefinedOn(p1, f) && DefinedOn(p2, f)
    requires multiset(p1) == multiset(p2)
    ensures AverageValue(p1, f) == AverageValue(p2, f)
    decreases |p1|, 1
  {
    if p1 == [] {
      assert |multiset(p2)| == 0;
    } else {
      PermutationOfNonEmpty(p1, p2, f);
    }
  }

  /** The last entry of `p1` occurs somewhere in `p2`: take it out of both
      and compare the rest. */
  lemma {:induction false} PermutationOfNonEmpty(p1: seq<(string, real)>, p2: seq<(string, real)>, f: string --> real)
    requires p1 != [] && DefinedOn(p1, f) && DefinedOn(p2, f)
    requires multiset(p1) == multiset(p2)
    ensures AverageValue(p1, f) == AverageValue(p2, f)
    decreases |p1|, 0
  {
    var n := |p1| - 1;
    var j := MatchLast(p1, p2);
    AverageValueRemove(p2, f, j);
    DefinedOnPrefix(p1, f, n);
    AverageValuePermutation(p1[..n], p2[..j] + p2[j + 1..], f);
  }

  /** Where the last entry of `p1` sits in its rearrangement `p2`, and what
      the two have left without it. */
  lemma MatchLast<T>(p1: seq<T>, p2: seq<T>) returns (j: nat)
    requires p1 != [] && multiset(p1) == multiset(p2)
    ensures j < |p2| && p2[j] == p1[|p1| - 1]
    ensures multiset(p1[..|p1| - 1]) == multiset(p2[..j] + p2[j + 1..])
  {
    var n := |p1| - 1;
    assert p1[n] in multiset(p2) by {
      assert p1[n] in p1;
    }
    j :| 0 <= j < |p2| && p2[j] == p1[n];
    MultisetRemove(p2, j);
    MultisetRemove(p1, n);
    assert p1[..n] + p1[n + 1..] == p1[..n];
  }

  lemma DefinedOnPrefix(probs: seq<(string, real)>, f: string --> real, n: nat)
    requires DefinedOn(probs, f) && n <= |probs|
    ensures DefinedOn(probs[..n], f)
  {
    assert forall i :: 0 <= i < n ==> probs[..n][i] == probs[i];
  }

  lemma MultisetRemove<T>(s: seq<T>, j: nat)
    requires j < |s|
    ensures multiset(s[..j] + s[j + 1..]) == multiset(s) - multiset{s[j]}
  {
    assert s == s[..j] + [s[j]] + s[j + 1..];
  }

  /** With non-negative probabilities and every score in `[lo, hi]`, the
      expectation lies between `lo` and `hi` times the total mass. */
  lemma {:induction false} AverageValueBounds(probs: seq<(string, real)>, f: string --> real, lo: real, hi: real)
    requires DefinedOn(probs, f) && NonNegative(probs)
    requires forall i :: 0 <= i < |probs| ==> lo <= f(probs[i].0) <= hi
    ensures lo * Mass(probs) <= AverageValue(probs, f) <= hi * Mass(probs)
  {
    if probs != [] {
      var init, last := probs[..|probs| - 1], probs[|probs| - 1];
      assert forall i :: 0 <= i < |init| ==> init[i] == probs[i];
      AverageValueBounds(init, f, lo, hi);
      assert lo * Mass(init) <= AverageValue(init, f) <= hi * Mass(init);
      BoundsStep(lo, hi, AverageValue(init, f), Mass(init), f(last.0), last.1,
                 AverageValue(probs, f), Mass(probs));
    }
  }

  /** Scores in `[0, hi]` give an expectation in `[0, hi * mass]`. */
  lemma NonNegativeScoresBounds(probs: seq<(string, real)>, f: string --> real, hi: real)
    requires DefinedOn(probs, f) && NonNegative(probs)
    requires forall i :: 0 <= i < |probs| ==> 0.0 <= f(probs[i].0) <= hi
    ensures 0.0 <= AverageValue(probs, f) <= hi * Mass(probs)
  {
    AverageValueBounds(probs, f, 0.0, hi);
  }

  /** One step of `AverageValueBounds`: from bounds on the sum so far and on
      the next score, bounds on the sum with the next term added. */
  lemma BoundsStep(lo: real, hi: real, a: real, m: real, v: real, p: real, a': real, m': real)
    requires lo * m <= a <= hi * m
    requires lo <= v <= hi && p >= 0.0
    requires a' == a + v * p && m' == m + p
    ensures lo * m' <= a' <= hi * m'
  {
    assert lo * p <= v * p <= hi * p;
    Distribute(lo, m, p);
    Distribute(hi, m, p);
  }

  lemma Distribute(a: real, b: real, c: real)
    ensures a * (b + c) == a * b + a * c
  {
  }

  /** The empty distribution scores 0, and a point distribution with
      probability 1 gives the key's own score. */
  lemma AverageValuePoint(k: string, f: string --> real)
    requires f.requires(k)
    ensures AverageValue([], f) == 0.0
    ensures AverageValue([(k, 1.0)], f) == f(k)
  {
    assert [(k, 1.0)][..0] == [];
  }
}
