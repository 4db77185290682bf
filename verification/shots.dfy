/** The aggregation step of `approximation_ratio_on_real_device`: raw shot
    counts are divided by the shot number and summed per key prefix
    `key[:number_of_evs]`, into a dict kept in insertion order. */
module ShotAggregation {
  import opened Seqs
  import opened Expectation

  /** The number of shots the device runs and the counts are divided by. */
  const Shots: nat := 2048

  /** Which `n` characters of a key the aggregation keeps. The code keeps
      `key[:n]`, the leftmost ones; the rightmost ones are the EV qubits. */
  datatype KeyRule = Leftmost | Rightmost

  /** A count as a share of all shots. */
  function Frequency(count: nat): real
  {
    count as real / Shots as real
  }

  /** `key[:n]` for `Leftmost`, `key[-n:]` for `Rightmost` (the whole key
      when it is shorter than `n`). */
  function Keep(rule: KeyRule, key: string, n: nat): (p: string)
    ensures |p| == Min(n, |key|)
    ensures rule.Leftmost? ==> p == key[..|p|]
    ensures rule.Rightmost? ==> p == key[|key| - |p|..]
  {
    match rule
    case Leftmost => key[..Min(n, |key|)]
    case Rightmost => key[|key| - Min(n, |key|)..]
  }

  /** Position of the first entry with key `k`, or `|d|` if there is none. */
  function IndexOf(d: seq<(string, real)>, k: string): (j: nat)
    ensures j <= |d|
    ensures j < |d| ==> d[j].0 == k
    ensures forall i :: 0 <= i < j ==> d[i].0 != k
  {
    if d == [] then 0
    else if d[0].0 == k then 0
    else 1 + IndexOf(d[1..], k)
  }

  /** `d[k]` if present, 0 otherwise. */
  function Lookup(d: seq<(string, real)>, k: string): real
  {
    var j := IndexOf(d, k);
    if j < |d| then d[j].1 else 0.0
  }

  function KeySet(d: seq<(string, real)>): set<string>
  {
    set i | 0 <= i < |d| :: d[i].0
  }

  predicate DistinctKeys(d: seq<(string, real)>)
  {
    forall i, j :: 0 <= i < j < |d| ==> d[i].0 != d[j].0
  }

  /** `if k not in d: d[k] = 0` followed by `d[k] += x`: a new key goes at
      the end, an existing one keeps its place. */
  function Accumulate(d: seq<(string, real)>, k: string, x: real): seq<(string, real)>
  {
    var j := IndexOf(d, k);
    if j == |d| then d + [(k, 0.0 + x)] else d[j := (k, d[j].1 + x)]
  }

  /** Each raw count as its share of all shots, keys untouched. */
  function Scaled(counts: seq<(string, nat)>): (d: seq<(string, real)>)
    ensures |d| == |counts|
  {
    seq(|counts|, i requires 0 <= i < |counts| => (counts[i].0, Frequency(counts[i].1)))
  }

  /** Shares summed per kept part of the key, in first-seen order. */
  function Merged(d: seq<(string, real)>, n: nat, rule: KeyRule): seq<(string, real)>
  {
    if d == [] then []
    else
      var last := d[|d| - 1];
      Accumulate(Merged(d[..|d| - 1], n, rule), Keep(rule, last.0, n), last.1)
  }

  /** `prob_dist` after the loop over the raw counts: every count divided by
      the shot number and added to the entry of its kept key part. */
  function Aggregated(counts: seq<(string, nat)>, n: nat, rule: KeyRule): (r: seq<(string, real)>)
    ensures |r| <= |counts|
    ensures forall i :: 0 <= i < |r| ==> |r[i].0| <= n
  {
    MergedShape(Scaled(counts), n, rule);
    Merged(Scaled(counts), n, rule)
  }

  /** Merging never adds entries, and every merged key is a kept part, at
      most `n` characters long. */
  lemma {:induction false} MergedShape(d: seq<(string, real)>, n: nat, rule: KeyRule)
    ensures |Merged(d, n, rule)| <= |d|
    ensures forall i :: 0 <= i < |Merged(d, n, rule)| ==> |Merged(d, n, rule)[i].0| <= n
  {
    if d != [] {
      var init := d[..|d| - 1];
      MergedShape(init, n, rule);
      var m := Merged(init, n, rule);
      var k := Keep(rule, d[|d| - 1].0, n);
      var j := IndexOf(m, k);
      if j < |m| {
        assert forall i :: 0 <= i < |m| ==> Accumulate(m, k, d[|d| - 1].1)[i].0 == m[i].0;
      }
    }
  }

  /** The shares whose key keeps to `p`, summed. */
  function ShareWithPrefix(d: seq<(string, real)>, n: nat, rule: KeyRule, p: string): real
  {
    if d == [] then 0.0
    else
      var last := d[|d| - 1];
      ShareWithPrefix(d[..|d| - 1], n, rule, p) + if Keep(rule, last.0, n) == p then last.1 else 0.0
  }

  /** The raw counts whose key keeps to `p`, summed. */
  function CountWithPrefix(counts: seq<(string, nat)>, n: nat, rule: KeyRule, p: string): nat
  {
    if counts == [] then 0
    else
      var last := counts[|counts| - 1];
      CountWithPrefix(counts[..|counts| - 1], n, rule, p) + if Keep(rule, last.0, n) == p then last.1 else 0
  }

  /** All raw counts, summed. */
  function TotalCount(counts: seq<(string, nat)>): nat
  {
    if counts == [] then 0 else TotalCount(counts[..|counts| - 1]) + counts[|counts| - 1].1
  }

  /** The loop of `approximation_ratio_on_real_device` that builds
      `prob_dist`. */
  method AggregateShots(counts: seq<(string, nat)>, n: nat) returns (probDist: seq<(string, real)>)
    ensures probDist == Aggregated(counts, n, Leftmost)
  {
    probDist := [];
    var i := 0;
    while i < |counts|
      invariant 0 <= i <= |counts|
      invariant probDist == Merged(Scaled(counts[..i]), n, Leftmost)
    {
      var (key, v) := counts[i];
      var prefix := key[..Min(n, |key|)];
      MergedExtend(counts, i, n);
      probDist := AddShare(probDist, prefix, Frequency(v));
      i := i + 1;
    }
    assert counts[..|counts|] == counts;
  }

  /** The body of that loop: the entry of `prefix` is created at 0 when
      missing, then increased by `x`. */
  method AddShare(d: seq<(string, real)>, prefix: string, x: real) returns (r: seq<(string, real)>)
    ensures r == Accumulate(d, prefix, x)
  {
    r := d;
    var j := IndexOf(r, prefix);
    if j == |r| {
      r := r + [(prefix, 0.0)];
    }
    r := r[j := (prefix, r[j].1 + x)];
  }

  /** One more count merged under the code's rule. */
  lemma MergedExtend(counts: seq<(string, nat)>, i: nat, n: nat)
    requires i < |counts|
    ensures Merged(Scaled(counts[..i + 1]), n, Leftmost)
      == Accumulate(Merged(Scaled(counts[..i]), n, Leftmost), counts[i].0[..Min(n, |counts[i].0|)], Frequency(counts[i].1))
  {
    ScaledExtend(counts, i);
  }

  lemma ScaledExtend(counts: seq<(string, nat)>, i: nat)
    requires i < |counts|
    ensures Scaled(counts[..i + 1]) == Scaled(counts[..i]) + [(counts[i].0, Frequency(counts[i].1))]
    ensures Scaled(counts[..i + 1])[..i] == Scaled(counts[..i])
  {
  }

  lemma AccumulateKeys(d: seq<(string, real)>, k: string, x: real)
    requires DistinctKeys(d)
    ensures DistinctKeys(Accumulate(d, k, x))
    ensures KeySet(Accumulate(d, k, x)) == KeySet(d) + {k}
    ensures forall k' :: Lookup(Accumulate(d, k, x), k') == Lookup(d, k') + if k' == k then x else 0.0
    ensures Mass(Accumulate(d, k, x)) == Mass(d) + x
  {
    AccumulateKeySet(d, k, x);
    forall k'
      ensures Lookup(Accumulate(d, k, x), k') == Lookup(d, k') + if k' == k then x else 0.0
    {
      AccumulateLookup(d, k, x, k');
    }
    AccumulateMass(d, k, x);
  }

  lemma AccumulateKeySet(d: seq<(string, real)>, k: string, x: real)
    requires DistinctKeys(d)
    ensures DistinctKeys(Accumulate(d, k, x))
    ensures KeySet(Accumulate(d, k, x)) == KeySet(d) + {k}
  {
    var j := IndexOf(d, k);
    var r := Accumulate(d, k, x);
    if j == |d| {
      assert forall i :: 0 <= i < |d| ==> r[i] == d[i];
      assert r[|d|].0 == k;
    } else {
      assert forall i :: 0 <= i < |d| ==> r[i].0 == d[i].0;
    }
  }

  lemma AccumulateLookup(d: seq<(string, real)>, k: string, x: real, k': string)
    ensures Lookup(Accumulate(d, k, x), k') == Lookup(d, k') + if k' == k then x else 0.0
  {
    var j := IndexOf(d, k);
    if j == |d| {
      IndexOfAppend(d, (k, 0.0 + x), k');
    } else {
      IndexOfSameKeys(d[j := (k, d[j].1 + x)], d, k');
    }
  }

  lemma AccumulateMass(d: seq<(string, real)>, k: string, x: real)
    ensures Mass(Accumulate(d, k, x)) == Mass(d) + x
  {
    var j := IndexOf(d, k);
    if j == |d| {
      MassAppend(d, (k, 0.0 + x));
    } else {
      MassUpdate(d, j, (k, d[j].1 + x));
    }
  }

  /** Two dicts listing the same keys in the same order find a key at the
      same place. */
  lemma {:induction false} IndexOfSameKeys(a: seq<(string, real)>, b: seq<(string, real)>, k: string)
    requires |a| == |b| && forall i :: 0 <= i < |a| ==> a[i].0 == b[i].0
    ensures IndexOf(a, k) == IndexOf(b, k)
  {
    if a != [] && a[0].0 != k {
      IndexOfSameKeys(a[1..], b[1..], k);
    }
  }

  /** Appending an entry leaves the position of a key already present, and
      otherwise finds the new entry if it carries the key. */
  lemma IndexOfAppend(d: seq<(string, real)>, e: (string, real), k: string)
    ensures IndexOf(d + [e], k)
         == if IndexOf(d, k) < |d| then IndexOf(d, k) else if e.0 == k then |d| else |d| + 1
  {
    var d' := d + [e];
    var j := IndexOf(d, k);
    if j < |d| {
      IndexOfAt(d', k, j);
    } else if e.0 == k {
      IndexOfAt(d', k, |d|);
    } else {
      IndexOfMissing(d', k);
    }
  }

  lemma IndexOfAt(d: seq<(string, real)>, k: string, j: nat)
    requires j < |d| && d[j].0 == k && forall i :: 0 <= i < j ==> d[i].0 != k
    ensures IndexOf(d, k) == j
  {
  }

  lemma IndexOfMissing(d: seq<(string, real)>, k: string)
    requires forall i :: 0 <= i < |d| ==> d[i].0 != k
    ensures IndexOf(d, k) == |d|
  {
  }

  lemma MassAppend(d: seq<(string, real)>, e: (string, real))
    ensures Mass(d + [e]) == Mass(d) + e.1
  {
    assert (d + [e])[..|d|] == d;
  }

  lemma {:induction false} MassUpdate(d: seq<(string, real)>, j: nat, e: (string, real))
    requires j < |d|
    ensures Mass(d[j := e]) == Mass(d) - d[j].1 + e.1
  {
    var n := |d| - 1;
    if j < n {
      MassUpdate(d[..n], j, e);
      assert d[j := e][..n] == d[..n][j := e];
    } else {
      assert d[j := e][..n] == d[..n];
    }
  }

  /** The kept parts of the keys of `d`. */
  function Prefixes(d: seq<(string, real)>, n: nat, rule: KeyRule): set<string>
  {
    if d == [] then {}
    else Prefixes(d[..|d| - 1], n, rule) + {Keep(rule, d[|d| - 1].0, n)}
  }

  lemma {:induction false} PrefixesMembers(d: seq<(string, real)>, n: nat, rule: KeyRule, p: string)
    ensures p in Prefixes(d, n, rule) <==> exists i :: 0 <= i < |d| && Keep(rule, d[i].0, n) == p
  {
    if d != [] {
      var init := d[..|d| - 1];
      PrefixesMembers(init, n, rule, p);
      if exists i :: 0 <= i < |d| && Keep(rule, d[i].0, n) == p {
        var i :| 0 <= i < |d| && Keep(rule, d[i].0, n) == p;
        if i < |init| {
          assert init[i] == d[i];
        }
      }
      if exists i :: 0 <= i < |init| && Keep(rule, init[i].0, n) == p {
        var i :| 0 <= i < |init| && Keep(rule, init[i].0, n) == p;
        assert init[i] == d[i];
      }
    }
  }

  /** The merged dict has one entry per distinct kept key part and no
      other. */
  lemma {:induction false} MergedKeys(d: seq<(string, real)>, n: nat, rule: KeyRule)
    ensures DistinctKeys(Merged(d, n, rule))
    ensures KeySet(Merged(d, n, rule)) == Prefixes(d, n, rule)
  {
    if d != [] {
      var init, last := d[..|d| - 1], d[|d| - 1];
      MergedKeys(init, n, rule);
      AccumulateKeys(Merged(init, n, rule), Keep(rule, last.0, n), last.1);
    }
  }

  /** Each entry of the merged dict holds the shares of its key part. */
  lemma {:induction false} MergedLookup(d: seq<(string, real)>, n: nat, rule: KeyRule, p: string)
    ensures Lookup(Merged(d, n, rule), p) == ShareWithPrefix(d, n, rule, p)
  {
    if d != [] {
      var init, last := d[..|d| - 1], d[|d| - 1];
      MergedLookup(init, n, rule, p);
      MergedKeys(init, n, rule);
      AccumulateKeys(Merged(init, n, rule), Keep(rule, last.0, n), last.1);
    }
  }

  /** Merging keeps the total mass. */
  lemma {:induction false} MergedMass(d: seq<(string, real)>, n: nat, rule: KeyRule)
    ensures Mass(Merged(d, n, rule)) == Mass(d)
  {
    if d != [] {
      var init, last := d[..|d| - 1], d[|d| - 1];
      MergedMass(init, n, rule);
      MergedKeys(init, n, rule);
      AccumulateKeys(Merged(init, n, rule), Keep(rule, last.0, n), last.1);
    }
  }

  lemma ScaledInit(counts: seq<(string, nat)>)
    requires counts != []
    ensures Scaled(counts)[..|counts| - 1] == Scaled(counts[..|counts| - 1])
    ensures Scaled(counts)[|counts| - 1] == (counts[|counts| - 1].0, Frequency(counts[|counts| - 1].1))
  {
  }

  lemma {:induction false} ScaledShare(counts: seq<(string, nat)>, n: nat, rule: KeyRule, p: string)
    ensures ShareWithPrefix(Scaled(counts), n, rule, p) == Frequency(CountWithPrefix(counts, n, rule, p))
  {
    if counts != [] {
      ScaledInit(counts);
      ScaledShare(counts[..|counts| - 1], n, rule, p);
    }
  }

  lemma {:induction false} ScaledMass(counts: seq<(string, nat)>)
    ensures Mass(Scaled(counts)) == Frequency(TotalCount(counts))
  {
    if counts != [] {
      ScaledInit(counts);
      ScaledMass(counts[..|counts| - 1]);
    }
  }

  /** The aggregated dict has one entry per distinct kept part of the raw
      keys and no other; the entry of `p` holds the counts of the keys that
      keep to `p` divided by the shot number (a missing `p` reads as 0), and
      the total mass is the total count divided by the shot number. */
  lemma AggregatedCorrect(counts: seq<(string, nat)>, n: nat, rule: KeyRule, p: string)
    ensures DistinctKeys(Aggregated(counts, n, rule))
    ensures p in KeySet(Aggregated(counts, n, rule)) <==>
      exists i :: 0 <= i < |counts| && Keep(rule, counts[i].0, n) == p
    ensures Lookup(Aggregated(counts, n, rule), p) == Frequency(CountWithPrefix(counts, n, rule, p))
    ensures Mass(Aggregated(counts, n, rule)) == Frequency(TotalCount(counts))
  {
    var d := Scaled(counts);
    MergedKeys(d, n, rule);
    PrefixesMembers(d, n, rule, p);
    MergedLookup(d, n, rule, p);
    ScaledShare(counts, n, rule, p);
    MergedMass(d, n, rule);
    ScaledMass(counts);
    if exists i :: 0 <= i < |d| && Keep(rule, d[i].0, n) == p {
      var i :| 0 <= i < |d| && Keep(rule, d[i].0, n) == p;
      assert d[i].0 == counts[i].0;
    }
    if exists i :: 0 <= i < |counts| && Keep(rule, counts[i].0, n) == p {
      var i :| 0 <= i < |counts| && Keep(rule, counts[i].0, n) == p;
      assert d[i].0 == counts[i].0;
    }
  }

  /** Shares are never negative, and merging keeps them so. */
  lemma ScaledNonNegative(counts: seq<(string, nat)>)
    ensures NonNegative(Scaled(counts))
  {
  }

  lemma {:induction false} MergedNonNegative(d: seq<(string, real)>, n: nat, rule: KeyRule)
    requires NonNegative(d)
    ensures NonNegative(Merged(d, n, rule))
  {
    if d != [] {
      var init, last := d[..|d| - 1], d[|d| - 1];
      assert NonNegative(init) by {
        assert forall i :: 0 <= i < |init| ==> init[i] == d[i];
      }
      MergedNonNegative(init, n, rule);
      AccumulateNonNegative(Merged(init, n, rule), Keep(rule, last.0, n), last.1);
    }
  }

  lemma AccumulateNonNegative(d: seq<(string, real)>, k: string, x: real)
    requires NonNegative(d) && x >= 0.0
    ensures NonNegative(Accumulate(d, k, x))
  {
  }

  /** The score sees only the kept part of each key of `d`: it accepts the
      key and its kept part and gives both the same value. */
  ghost predicate KeptPartDecides(d: seq<(string, real)>, n: nat, rule: KeyRule, f: string --> real)
  {
    forall i :: 0 <= i < |d| ==> KeptPartDecidesKey(d[i].0, n, rule, f)
  }

  ghost predicate KeptPartDecidesKey(key: string, n: nat, rule: KeyRule, f: string --> real)
  {
    f.requires(key) && f.requires(Keep(rule, key, n)) && f(Keep(rule, key, n)) == f(key)
  }

  /** Adding `x` under key `k` weighs in as appending a separate entry
      `(k, x)`: it adds `f(k) * x` to the expectation. */
  lemma AverageValueAccumulate(d: seq<(string, real)>, k: string, x: real, f: string --> real)
    requires DefinedOn(d, f) && f.requires(k)
    ensures DefinedOn(Accumulate(d, k, x), f) && DefinedOn(d + [(k, x)], f)
    ensures AverageValue(Accumulate(d, k, x), f) == AverageValue(d + [(k, x)], f)
  {
    var j := IndexOf(d, k);
    AverageValueSnoc(d, (k, x), f);
    if j == |d| {
      assert (k, 0.0 + x) == (k, x);
    } else {
      AverageValueUpdate(d, j, (k, d[j].1 + x), f);
      Distribute(f(k), d[j].1, x);
    }
  }

  lemma {:induction false} AverageValueUpdate(d: seq<(string, real)>, j: nat, e: (string, real), f: string --> real)
    requires DefinedOn(d, f) && j < |d| && f.requires(e.0)
    ensures DefinedOn(d[j := e], f)
    ensures AverageValue(d[j := e], f) == AverageValue(d, f) - f(d[j].0) * d[j].1 + f(e.0) * e.1
  {
    var n := |d| - 1;
    assert DefinedOn(d[..n], f) by {
      assert forall i :: 0 <= i < n ==> d[..n][i] == d[i];
    }
    if j < n {
      AverageValueUpdate(d[..n], j, e, f);
      assert d[j := e][..n] == d[..n][j := e];
    } else {
      assert d[j := e][..n] == d[..n];
    }
  }

  /** Merging keys loses nothing a score can see if the score depends on a
      key only through the part kept: the expectation over the merged dict
      equals the expectation over the unmerged shares. */
  lemma {:induction false} MergedExpectation(d: seq<(string, real)>, n: nat, rule: KeyRule, f: string --> real)
    requires KeptPartDecides(d, n, rule, f)
    ensures DefinedOn(Merged(d, n, rule), f) && DefinedOn(d, f)
    ensures AverageValue(Merged(d, n, rule), f) == AverageValue(d, f)
  {
    if d != [] {
      var init, last := d[..|d| - 1], d[|d| - 1];
      assert KeptPartDecides(init, n, rule, f) by {
        forall i | 0 <= i < |init|
          ensures KeptPartDecidesKey(init[i].0, n, rule, f)
        {
          assert init[i] == d[i];
        }
      }
      MergedExpectation(init, n, rule, f);
      assert d == init + [last];
      MergedExpectationStep(init, last, n, rule, f);
    }
  }

  /** The inductive step of `MergedExpectation`: merging one more entry adds
      the same term to both sums. */
  lemma MergedExpectationStep(init: seq<(string, real)>, last: (string, real), n: nat, rule: KeyRule, f: string --> real)
    requires KeptPartDecidesKey(last.0, n, rule, f)
    requires DefinedOn(init, f) && DefinedOn(Merged(init, n, rule), f)
    requires AverageValue(Merged(init, n, rule), f) == AverageValue(init, f)
    ensures DefinedOn(Merged(init + [last], n, rule), f) && DefinedOn(init + [last], f)
    ensures AverageValue(Merged(init + [last], n, rule), f) == AverageValue(init + [last], f)
  {
    var k := Keep(rule, last.0, n);
    var m := Merged(init, n, rule);
    MergedSnoc(init, last, n, rule);
    AverageValueAccumulate(m, k, last.1, f);
    AverageValueSnocEqual(m, (k, last.1), init, last, f);
  }

  lemma MergedSnoc(init: seq<(string, real)>, last: (string, real), n: nat, rule: KeyRule)
    ensures Merged(init + [last], n, rule) == Accumulate(Merged(init, n, rule), Keep(rule, last.0, n), last.1)
  {
    assert (init + [last])[..|init|] == init;
  }

  /** Two keys, `"000"` and `"100"`, with 1024 shots each and two
      EVs. `key[:2]` keeps the leftmost characters, so the keys land in two
      different prefixes, `"00"` and `"10"`, with half the mass each. */
  lemma TwoKeyExample()
    ensures Aggregated([("000", 1024), ("100", 1024)], 2, Leftmost) == [("00", 0.5), ("10", 0.5)]
  {
    var d := Scaled([("000", 1024), ("100", 1024)]);
    assert d == [("000", 0.5), ("100", 0.5)];
    assert d[..1] == [("000", 0.5)];
    assert d[..1][..0] == [];
    assert Keep(Leftmost, "000", 2) == "00" && Keep(Leftmost, "100", 2) == "10";
    assert Merged(d[..1], 2, Leftmost) == [("00", 0.5)];
  }
}
