/**
 * Sums over a vote tally (a map from candidates to counts), and the facts
 * about majorities that follow from the tally summing to the number of
 * counted ballots.
 */
module Counting {

  /** The sum of the counts `m[k]` over the keys `keys`. */
  ghost function SumOver<T>(m: map<T, nat>, keys: set<T>): nat
    requires keys <= m.Keys
    decreases keys
  {
    if keys == {} then 0 else var k :| k in keys; m[k] + SumOver(m, keys - {k})
  }

  /** The sum does not depend on which key is taken first. */
  lemma {:induction false} SumOverRemove<T>(m: map<T, nat>, keys: set<T>, x: T)
    requires keys <= m.Keys && x in keys
    ensures SumOver(m, keys) == m[x] + SumOver(m, keys - {x})
    decreases keys
  {
    var k :| k in keys && SumOver(m, keys) == m[k] + SumOver(m, keys - {k});
    if k != x {
      SumOverRemove(m, keys - {k}, x);
      SumOverRemove(m, keys - {x}, k);
      assert keys - {k} - {x} == keys - {x} - {k};
    }
  }

  /** Clearing every occurrence of `x` shrinks a multiset by the count of `x`. */
  lemma {:induction false} ClearCount<T>(votes: multiset<T>, x: T)
    ensures |votes[x := 0]| + votes[x] == |votes|
    decreases votes[x]
  {
    if votes[x] == 0 {
      assert votes[x := 0] == votes;
    } else {
      var fewer := votes - multiset{x};
      assert fewer[x := 0] == votes[x := 0];
      assert votes == fewer + multiset{x};
      ClearCount(fewer, x);
    }
  }

  /**
   * A tally that records, for every key, how often the key occurs among the
   * votes sums to the number of votes, provided every vote is for a key.
   */
  lemma {:induction false} SumOfCounts<T>(m: map<T, nat>, keys: set<T>, votes: multiset<T>)
    requires keys <= m.Keys
    requires forall k :: k in keys ==> m[k] == votes[k]
    requires forall v :: v in votes ==> v in keys
    ensures SumOver(m, keys) == |votes|
    decreases keys
  {
    if keys == {} {
      assert votes == multiset{};
    } else {
      var k :| k in keys;
      SumOverRemove(m, keys, k);
      ClearCount(votes, k);
      SumOfCounts(m, keys - {k}, votes[k := 0]);
    }
  }

  /** Two different keys cannot both hold more than half of the total. */
  lemma AtMostOneMajority<T>(m: map<T, nat>, keys: set<T>, a: T, b: T)
    requires keys <= m.Keys && a in keys && b in keys && a != b
    ensures 2 * m[a] <= SumOver(m, keys) || 2 * m[b] <= SumOver(m, keys)
  {
    SumOverRemove(m, keys, a);
    SumOverRemove(m, keys - {a}, b);
  }

  /**
   * When the total is positive and no key holds more than half of it, there
   * are at least two keys: a lone key would hold the whole total.
   */
  lemma NoMajorityMeansTwoKeys<T>(m: map<T, nat>, keys: set<T>)
    requires keys <= m.Keys && SumOver(m, keys) > 0
    requires forall k :: k in keys ==> 2 * m[k] <= SumOver(m, keys)
    ensures |keys| >= 2
  {
    var k :| k in keys;
    SumOverRemove(m, keys, k);
    if keys - {k} == {} {
      assert false;
    }
    assert |keys - {k}| == |keys| - 1;
  }
}
