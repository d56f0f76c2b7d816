/**
 * Candidates and ballots of an instant-runoff election, and the
 * front-trimming of a ballot's preference list once candidates are
 * eliminated.
 */
module Ballots {

  /**
   * A candidate standing in the election. The candidate defines no equality
   * of its own, so two candidates are the same only when they are the same
   * object, whatever their names.
   */
  class Candidate {
    const name: string

    constructor (name: string)
      ensures this.name == name
    {
      this.name := name;
    }
  }

  /** `s` is what is left of `t` once some prefix of `t` is dropped. */
  predicate IsSuffix<T(==)>(s: seq<T>, t: seq<T>)
  {
    |s| <= |t| && s == t[|t| - |s|..]
  }

  lemma SuffixTransitive<T>(s: seq<T>, t: seq<T>, u: seq<T>)
    requires IsSuffix(s, t) && IsSuffix(t, u)
    ensures IsSuffix(s, u)
  {
    assert u[|u| - |t|..][|t| - |s|..] == u[|u| - |s|..];
  }

  /**
   * What a shift of the preference list `ranks` against the active set
   * `active` must produce: a suffix `r` of `ranks`, all of whose dropped
   * entries are inactive, and that is empty or headed by an active candidate.
   */
  ghost predicate TrimsTo(ranks: seq<Candidate>, active: set<Candidate>, r: seq<Candidate>)
  {
    && IsSuffix(r, ranks)
    && (forall i :: 0 <= i < |ranks| - |r| ==> ranks[i] !in active)
    && (r == [] || r[0] in active)
  }

  /** The preference list a ballot holds after it is shifted against `active`. */
  function Shifted(ranks: seq<Candidate>, active: set<Candidate>): seq<Candidate>
  {
    if ranks == [] || ranks[0] in active then ranks else Shifted(ranks[1..], active)
  }

  /** The shifted list has the three properties of `TrimsTo`. */
  lemma {:induction false} ShiftedTrims(ranks: seq<Candidate>, active: set<Candidate>)
    ensures TrimsTo(ranks, active, Shifted(ranks, active))
  {
    if ranks != [] && ranks[0] !in active {
      var r := Shifted(ranks[1..], active);
      ShiftedTrims(ranks[1..], active);
      assert ranks[1..][|ranks| - 1 - |r|..] == ranks[|ranks| - |r|..];
      forall i | 0 < i < |ranks| - |r|
        ensures ranks[i] !in active
      {
        assert ranks[i] == ranks[1..][i - 1];
      }
    }
  }

  /** The three properties of `TrimsTo` determine the shifted list. */
  lemma {:induction false} ShiftedUnique(ranks: seq<Candidate>, active: set<Candidate>, r: seq<Candidate>)
    ensures TrimsTo(ranks, active, r) <==> r == Shifted(ranks, active)
  {
    ShiftedTrims(ranks, active);
    if TrimsTo(ranks, active, r) && |r| < |ranks| {
      assert ranks[0] !in active;
      assert TrimsTo(ranks[1..], active, r) by {
        assert ranks[1..][|ranks| - 1 - |r|..] == ranks[|ranks| - |r|..];
        forall i | 0 <= i < |ranks| - 1 - |r|
          ensures ranks[1..][i] !in active
        {
          assert ranks[1..][i] == ranks[i + 1];
        }
      }
      ShiftedUnique(ranks[1..], active, r);
    }
  }

  /**
   * Shifting against a set and then against a smaller one is the same as
   * shifting against the smaller one directly: entries dropped in the first
   * shift would be dropped again. This is why trimming only the front of each
   * ballot, once per round, is enough while candidates are only ever removed.
   */
  lemma {:induction false} ShiftedAfterElimination(ranks: seq<Candidate>, active: set<Candidate>, later: set<Candidate>)
    requires later <= active
    ensures Shifted(Shifted(ranks, active), later) == Shifted(ranks, later)
  {
    if ranks != [] && ranks[0] !in active {
      ShiftedAfterElimination(ranks[1..], active, later);
    }
  }

  /** A second shift against the same active set changes nothing. */
  lemma ShiftedIdempotent(ranks: seq<Candidate>, active: set<Candidate>)
    ensures Shifted(Shifted(ranks, active), active) == Shifted(ranks, active)
  {
    ShiftedAfterElimination(ranks, active, active);
  }

  /** A ballot: a preference list, most preferred first, and a validity flag. */
  class Ballot {
    var ranks: seq<Candidate>
    var valid: bool

    constructor (ranks: seq<Candidate>)
      ensures this.ranks == ranks && valid
    {
      this.ranks := ranks;
      valid := true;
    }

    /**
     * Drops eliminated candidates from the front of the ballot, until its
     * head is active or it is empty; an emptied ballot becomes invalid, and
     * an invalid ballot never becomes valid again.
     */
    method Shift(candidates: set<Candidate>)
      modifies this
      ensures ranks == Shifted(old(ranks), candidates)
      ensures valid == (old(valid) && ranks != [])
    {
      while |ranks| > 0 && ranks[0] !in candidates
        invariant Shifted(ranks, candidates) == Shifted(old(ranks), candidates)
        invariant valid == old(valid)
        decreases |ranks|
      {
        ranks := ranks[1..];
      }
      if |ranks| == 0 {
        valid := false;
      }
    }
  }
}
