/**
 * The instant-runoff counting engine: every round shifts all ballots past
 * eliminated candidates, tallies their heads, declares a candidate holding
 * more than half of the valid ballots the winner, and otherwise eliminates
 * one of the candidates tied at the fewest votes.
 */
module Election {
  import opened Ballots
  import opened Counting

  /** What a complete count ends with. */
  datatype Outcome =
    | Winner(winner: Candidate)
      /** The count was never started: no ballots or no candidates. */
    | NoWinner
      /** Every ballot was exhausted while candidates remained: the majority test divides by zero. */
    | ZeroDivisionError

  /** What one round of the count ends with. */
  datatype RoundResult =
    | Decided(winner: Candidate)
    | Exhausted
    | Eliminated(loser: Candidate)

  /** What the scan of one round's tally finds. */
  datatype ScanResult =
    | Majority(leader: Candidate)
    | Eliminate(tied: seq<Candidate>)
    | DivideByZero

  /** The number of valid ballots: every ballot counts exactly when all of them are valid. */
  function ValidCount(bs: seq<Ballot>): (n: nat)
    reads bs
    ensures n <= |bs|
    ensures n == |bs| <==> forall b :: b in bs ==> b.valid
  {
    if bs == [] then 0
    else
      assert forall b :: b in bs ==> b == bs[0] || b in bs[1..];
      (if bs[0].valid then 1 else 0) + ValidCount(bs[1..])
  }

  /** The head of every valid ballot, in ballot order. */
  function FirstChoices(bs: seq<Ballot>): (fc: seq<Candidate>)
    reads bs
    requires HeadsPresent(bs)
    ensures |fc| == ValidCount(bs)
  {
    if bs == [] then []
    else (if bs[0].valid then [bs[0].ranks[0]] else []) + FirstChoices(bs[1..])
  }

  /** No ballot is counted exactly when every ballot is invalid. */
  lemma {:induction false} ValidCountZero(bs: seq<Ballot>)
    ensures ValidCount(bs) == 0 <==> forall b :: b in bs ==> !b.valid
  {
    if bs != [] {
      ValidCountZero(bs[1..]);
      assert forall b :: b in bs ==> b == bs[0] || b in bs[1..];
    }
  }

  /** After the shift phase every first choice is a standing candidate. */
  lemma {:induction false} FirstChoicesActive(bs: seq<Ballot>, active: set<Candidate>)
    requires HeadsActive(bs, active)
    ensures forall c :: c in FirstChoices(bs) ==> c in active
  {
    if bs != [] {
      FirstChoicesActive(bs[1..], active);
    }
  }

  /** Every valid ballot has a head. */
  ghost predicate HeadsPresent(bs: seq<Ballot>)
    reads bs
  {
    forall b :: b in bs && b.valid ==> b.ranks != []
  }

  /** Every valid ballot is headed by an active candidate: the state right after the shift phase. */
  ghost predicate HeadsActive(bs: seq<Ballot>, active: set<Candidate>)
    reads bs
  {
    HeadsPresent(bs) && forall b :: b in bs && b.valid ==> b.ranks[0] in active
  }

  /**
   * `w` heads more than half of the first choices `votes`, and no other
   * standing candidate does.
   */
  ghost predicate IsMajority(votes: seq<Candidate>, active: set<Candidate>, w: Candidate)
  {
    && w in active
    && 2 * multiset(votes)[w] > |votes|
    && forall c :: c in active && c != w ==> 2 * multiset(votes)[c] <= |votes|
  }

  /**
   * `loser` may be eliminated from `active` on the first choices `votes`:
   * there are votes and at least two standing candidates, no standing
   * candidate holds more than half of the votes, and none holds fewer than
   * `loser`.
   */
  ghost predicate IsEliminable(votes: seq<Candidate>, active: set<Candidate>, loser: Candidate)
  {
    && loser in active
    && |active| >= 2
    && |votes| > 0
    && (forall c :: c in active ==> 2 * multiset(votes)[c] <= |votes|)
    && forall c :: c in active ==> multiset(votes)[loser] <= multiset(votes)[c]
  }

  /** When every vote is for `w`, `w` holds all of them. */
  lemma {:induction false} UnanimousCount(votes: seq<Candidate>, w: Candidate)
    requires forall c :: c in votes ==> c == w
    ensures multiset(votes)[w] == |votes|
  {
    if votes != [] {
      assert forall c :: c in votes[1..] ==> c in votes;
      UnanimousCount(votes[1..], w);
      assert votes == [votes[0]] + votes[1..];
      assert multiset(votes) == multiset{votes[0]} + multiset(votes[1..]);
      assert votes[0] in votes;
    }
  }

  /**
   * A last standing candidate wins as soon as any vote is left: when every
   * vote is for `w`, `w` holds a strict majority among the standing set `{w}`.
   */
  lemma SoleCandidateWins(votes: seq<Candidate>, w: Candidate)
    requires votes != [] && forall c :: c in votes ==> c == w
    ensures IsMajority(votes, {w}, w)
  {
    UnanimousCount(votes, w);
  }

  /** `w` is the majority winner of the ballots `bs` among the standing candidates `active`. */
  ghost predicate MajorityWinner(bs: seq<Ballot>, active: set<Candidate>, w: Candidate)
    reads bs
  {
    HeadsActive(bs, active) && IsMajority(FirstChoices(bs), active, w)
  }

  /** A tally of `votes` over the standing candidates that shows a majority shows `IsMajority`. */
  lemma TallyShowsMajority(votes: seq<Candidate>, active: set<Candidate>, tally: map<Candidate, nat>, w: Candidate)
    requires tally.Keys == active && w in active
    requires forall c :: c in tally ==> tally[c] == multiset(votes)[c]
    requires 2 * tally[w] > |votes|
    requires forall c :: c in active && c != w ==> 2 * tally[c] <= |votes|
    ensures IsMajority(votes, active, w)
  {
  }

  /** A tally of `votes` without a majority shows its least entry eliminable. */
  lemma TallyShowsLeast(votes: seq<Candidate>, active: set<Candidate>, tally: map<Candidate, nat>, loser: Candidate)
    requires tally.Keys == active && |active| >= 2 && votes != []
    requires forall c :: c in tally ==> tally[c] == multiset(votes)[c]
    requires forall c :: c in active ==> 2 * tally[c] <= |votes|
    requires IsLeast(tally, loser)
    ensures IsEliminable(votes, active, loser)
  {
  }

  /** `c` holds a count no greater than that of any other key of `tally`. */
  ghost predicate IsLeast(tally: map<Candidate, nat>, c: Candidate)
  {
    c in tally && forall d :: d in tally ==> tally[c] <= tally[d]
  }

  /**
   * The scan over the tally: a candidate holding more than half of the `n`
   * valid ballots is returned at once; otherwise the candidates tied at the
   * lowest count are collected. The first division by `n` fails when `n` is
   * zero. The tally's keys are taken in an arbitrary order.
   */
  method ScanTally(tally: map<Candidate, nat>, n: nat) returns (r: ScanResult)
    ensures r.DivideByZero? <==> n == 0 && tally != map[]
    ensures r.Majority? ==> r.leader in tally && 2 * tally[r.leader] > n
    ensures r.Eliminate? ==> forall c :: c in tally ==> 2 * tally[c] <= n
    ensures r.Eliminate? ==> forall c :: c in r.tied <==> IsLeast(tally, c)
    ensures r.Eliminate? ==> forall i, j :: 0 <= i < j < |r.tied| ==> r.tied[i] != r.tied[j]
    ensures r.Eliminate? && tally != map[] ==> r.tied != []
  {
    var least := n;
    var tied: seq<Candidate> := [];
    var rest := tally.Keys;
    while rest != {}
      invariant rest <= tally.Keys
      invariant rest != tally.Keys ==> n > 0
      invariant forall c :: c in tally && c !in rest ==> 2 * tally[c] <= n
      invariant forall c :: c in tally && c !in rest ==> least <= tally[c]
      invariant rest == tally.Keys ==> least == n && tied == []
      invariant rest != tally.Keys ==> least < n && tied != []
      invariant forall c :: c in tied <==> c in tally && c !in rest && tally[c] == least
      invariant forall i, j :: 0 <= i < j < |tied| ==> tied[i] != tied[j]
      decreases rest
    {
      var candidate :| candidate in rest;
      if n == 0 {
        return DivideByZero;
      }
      if 2 * tally[candidate] > n {
        return Majority(candidate);
      } else if tally[candidate] < least {
        least := tally[candidate];
        tied := [candidate];
      } else if tally[candidate] == least {
        tied := tied + [candidate];
      }
      rest := rest - {candidate};
    }
    r := Eliminate(tied);
    forall c | IsLeast(tally, c)
      ensures c in tied
    {
      assert tied[0] in tally;
    }
  }

  /** Ballot `b` was shifted against `active` since the start of the enclosing method. */
  twostate predicate WasShifted(b: Ballot, active: set<Candidate>)
    reads b
  {
    b.ranks == Shifted(old(b.ranks), active) && b.valid == (old(b.valid) && b.ranks != [])
  }

  /** The preference list and validity flag of every ballot of `bs`. */
  ghost function Snapshot(bs: seq<Ballot>): map<Ballot, (seq<Candidate>, bool)>
    reads bs
  {
    map b | b in bs :: (b.ranks, b.valid)
  }

  /**
   * Every ballot of `bs` has only lost a prefix since the snapshot
   * `original` was taken, and none has become valid again.
   */
  ghost predicate TrimmedFrom(bs: seq<Ballot>, original: map<Ballot, (seq<Candidate>, bool)>)
    reads bs
  {
    forall b :: b in bs ==> b in original && IsSuffix(b.ranks, original[b].0) && (b.valid ==> original[b].1)
  }

  /**
   * Every ballot recorded in the snapshot `now` is its entry in the snapshot
   * `before` shifted against `active`: the preference list is
   * `Shifted(before ranks, active)`, and the ballot is valid exactly when it
   * was valid before and its list is not empty.
   */
  ghost predicate ShiftedMap(now: map<Ballot, (seq<Candidate>, bool)>, before: map<Ballot, (seq<Candidate>, bool)>, active: set<Candidate>)
  {
    forall b :: b in now ==>
      && b in before
      && now[b].0 == Shifted(before[b].0, active)
      && now[b].1 == (before[b].1 && now[b].0 != [])
  }

  /**
   * Two shift phases, the second against no more candidates than the first,
   * amount to one shift phase against the later standing set.
   */
  lemma ComposeShifts(original: map<Ballot, (seq<Candidate>, bool)>, before: map<Ballot, (seq<Candidate>, bool)>,
                      now: map<Ballot, (seq<Candidate>, bool)>, first: set<Candidate>, second: set<Candidate>)
    requires second <= first
    requires ShiftedMap(before, original, first) && ShiftedMap(now, before, second)
    ensures ShiftedMap(now, original, second)
  {
    forall b | b in now
      ensures b in original && now[b].0 == Shifted(original[b].0, second)
      ensures now[b].1 == (original[b].1 && now[b].0 != [])
    {
      ShiftedAfterElimination(original[b].0, first, second);
      ShiftedTrims(before[b].0, second);
    }
  }

  /** Ballot `b` is as it was at the start of the enclosing method. */
  twostate predicate Untouched(b: Ballot)
    reads b
  {
    b.ranks == old(b.ranks) && b.valid == old(b.valid)
  }

  /**
   * The shift phase of a round: every ballot is shifted against `active`. A
   * ballot that occurs twice in `bs` is shifted twice, which changes nothing
   * the second time.
   */
  method ShiftAll(bs: seq<Ballot>, active: set<Candidate>)
    modifies bs
    ensures forall b :: b in bs ==> WasShifted(b, active)
    ensures HeadsActive(bs, active)
  {
    for i := 0 to |bs|
      invariant forall b :: b in bs[..i] ==> WasShifted(b, active)
      invariant forall b :: b in bs && b !in bs[..i] ==> Untouched(b)
    {
      var ballot := bs[i];
      ghost var done := ballot in bs[..i];
      ghost var ranks, valid := ballot.ranks, ballot.valid;
      if done {
        assert WasShifted(ballot, active);
        ShiftedIdempotent(old(ballot.ranks), active);
      } else {
        assert Untouched(ballot);
      }
      ballot.Shift(active);
      assert ballot.ranks == Shifted(ranks, active) && ballot.valid == (valid && ballot.ranks != []);
      assert WasShifted(ballot, active);
      assert bs[..i + 1] == bs[..i] + [ballot];
    }
    assert bs[..|bs|] == bs;
    forall b | b in bs && b.valid
      ensures b.ranks != [] && b.ranks[0] in active
    {
      assert WasShifted(b, active);
      ShiftedTrims(old(b.ranks), active);
    }
  }

  /** An election: the candidates still standing and the ballots cast. */
  class RCV {
    var candidates: set<Candidate>
    const ballots: seq<Ballot>

    constructor (candidates: set<Candidate>, ballots: seq<Ballot>)
      ensures this.candidates == candidates && this.ballots == ballots
    {
      this.candidates := candidates;
      this.ballots := ballots;
    }

    /**
     * Counts the first choices: every candidate that occurs among them and
     * every standing candidate gets exactly its number of occurrences, which
     * is 0 for a standing candidate nobody chose.
     */
    method TallyWinner(firstChoices: seq<Candidate>) returns (counts: map<Candidate, nat>)
      ensures counts.Keys == (set c | c in firstChoices) + candidates
      ensures forall c :: c in counts ==> counts[c] == multiset(firstChoices)[c]
    {
      counts := map[];
      for i := 0 to |firstChoices|
        invariant counts.Keys == set c | c in firstChoices[..i]
        invariant forall c :: c in counts ==> counts[c] == multiset(firstChoices[..i])[c]
      {
        var choice := firstChoices[i];
        assert firstChoices[..i + 1] == firstChoices[..i] + [choice];
        counts := counts[choice := (if choice in counts then counts[choice] else 0) + 1];
      }
      assert firstChoices[..|firstChoices|] == firstChoices;

      var rest := candidates;
      while rest != {}
        invariant rest <= candidates
        invariant counts.Keys == (set c | c in firstChoices) + (candidates - rest)
        invariant forall c :: c in counts ==> counts[c] == multiset(firstChoices)[c]
        decreases rest
      {
        var candidate :| candidate in rest;
        if candidate !in counts {
          counts := counts[candidate := 0];
        }
        rest := rest - {candidate};
      }
    }

    /**
     * The counting part of a round, once every ballot has been shifted: the
     * tally of the `n` valid ballots' first choices, then the scan of that
     * tally for a majority or the candidates tied at the fewest votes.
     */
    method CountVotes(firstChoices: seq<Candidate>, n: nat) returns (scan: ScanResult, ghost tally: map<Candidate, nat>)
      requires n == |firstChoices| && candidates != {}
      requires forall c :: c in firstChoices ==> c in candidates
      ensures tally.Keys == candidates
      ensures forall c :: c in tally ==> tally[c] == multiset(firstChoices)[c]
      ensures SumOver(tally, tally.Keys) == n
      ensures scan.DivideByZero? <==> n == 0
      ensures scan.Majority? ==>
        && scan.leader in candidates
        && 2 * tally[scan.leader] > n
        && forall c :: c in candidates && c != scan.leader ==> 2 * tally[c] <= n
      ensures scan.Eliminate? ==>
        && n > 0
        && |candidates| >= 2
        && (forall c :: c in candidates ==> 2 * tally[c] <= n)
        && scan.tied != []
        && forall c :: c in scan.tied <==> IsLeast(tally, c)
    {
      var counts := TallyWinner(firstChoices);
      assert counts.Keys == candidates;
      tally := counts;
      SumOfCounts(counts, candidates, multiset(firstChoices));
      scan := ScanTally(counts, n);
      match scan
      case DivideByZero =>
      case Majority(c) =>
        forall d | d in candidates && d != c
          ensures 2 * counts[d] <= n
        {
          AtMostOneMajority(counts, candidates, c, d);
        }
      case Eliminate(tied) =>
        NoMajorityMeansTwoKeys(counts, candidates);
    }

    /**
     * The counting part of a round, once every valid ballot is headed by a
     * standing candidate: either the majority winner, the report that no
     * valid ballot is left, or one of the candidates tied at the fewest
     * votes. The ghost `votes` are the valid ballots' heads.
     */
    method Decide() returns (r: RoundResult, ghost votes: seq<Candidate>)
      requires candidates != {} && HeadsActive(ballots, candidates)
      ensures r.Decided? ==> r.winner in candidates
      ensures r.Eliminated? ==> r.loser in candidates && |candidates| >= 2
      ensures votes == FirstChoices(ballots)
      ensures r.Decided? ==> IsMajority(votes, candidates, r.winner)
      ensures r.Exhausted? <==> votes == []
      ensures r.Eliminated? ==> IsEliminable(votes, candidates, r.loser)
    {
      var n := ValidCount(ballots);
      var choices := FirstChoices(ballots);
      FirstChoicesActive(ballots, candidates);
      var scan, tally := CountVotes(choices, n);
      votes := choices;
      match scan
      case DivideByZero =>
        r := Exhausted;
      case Majority(c) =>
        TallyShowsMajority(choices, candidates, tally, c);
        r := Decided(c);
      case Eliminate(tied) =>
        assert tied[0] in tied;
        var eliminated :| eliminated in tied;
        TallyShowsLeast(choices, candidates, tally, eliminated);
        r := Eliminated(eliminated);
    }

    /**
     * The shift phase of a round: every ballot is shifted against the
     * standing candidates, so it stays trimmed from the snapshot `original`
     * and, when valid, is headed by a standing candidate.
     */
    method ShiftBallots(ghost original: map<Ballot, (seq<Candidate>, bool)>)
      requires TrimmedFrom(ballots, original)
      modifies ballots
      ensures forall b :: b in ballots ==> WasShifted(b, candidates)
      ensures ShiftedMap(Snapshot(ballots), old(Snapshot(ballots)), candidates)
      ensures TrimmedFrom(ballots, original)
      ensures HeadsActive(ballots, candidates)
    {
      ShiftAll(ballots, candidates);
      forall b | b in ballots
        ensures b in original && IsSuffix(b.ranks, original[b].0) && (b.valid ==> original[b].1)
      {
        assert WasShifted(b, candidates);
        ShiftedTrims(old(b.ranks), candidates);
        SuffixTransitive(b.ranks, old(b.ranks), original[b].0);
      }
      forall b | b in Snapshot(ballots)
        ensures b in old(Snapshot(ballots))
        ensures Snapshot(ballots)[b].0 == Shifted(old(Snapshot(ballots))[b].0, candidates)
        ensures Snapshot(ballots)[b].1 == (old(Snapshot(ballots))[b].1 && Snapshot(ballots)[b].0 != [])
      {
        assert WasShifted(b, candidates);
      }
    }

    /**
     * Removes the eliminated candidate `loser` from the standing candidates.
     * The ballots are not touched, so what was known about them still
     * holds; the ghost `original` and `votes` carry that knowledge across.
     */
    method Remove(loser: Candidate, ghost original: map<Ballot, (seq<Candidate>, bool)>, ghost before: map<Ballot, (seq<Candidate>, bool)>,
                  ghost votes: seq<Candidate>)
      requires loser in candidates
      requires TrimmedFrom(ballots, original) && HeadsActive(ballots, candidates) && votes == FirstChoices(ballots)
      requires ShiftedMap(Snapshot(ballots), before, candidates)
      modifies this`candidates
      ensures candidates == old(candidates) - {loser} && |candidates| == |old(candidates)| - 1
      ensures TrimmedFrom(ballots, original) && HeadsActive(ballots, old(candidates)) && votes == FirstChoices(ballots)
      ensures ShiftedMap(Snapshot(ballots), before, old(candidates))
    {
      candidates := candidates - {loser};
    }

    /**
     * One round: shift every ballot against the standing candidates, count
     * the valid ballots' heads `votes`, and remove the picked candidate from
     * `candidates` itself. Every ballot ends up shifted against the
     * candidates standing at the start of the round. The ghost `original` is
     * a snapshot of the ballots that the round keeps them trimmed from.
     */
    method Round(ghost original: map<Ballot, (seq<Candidate>, bool)>) returns (r: RoundResult, ghost votes: seq<Candidate>)
      requires ballots != [] && candidates != {}
      requires TrimmedFrom(ballots, original)
      modifies this`candidates, ballots
      ensures ShiftedMap(Snapshot(ballots), old(Snapshot(ballots)), old(candidates))
      ensures TrimmedFrom(ballots, original)
      ensures HeadsActive(ballots, old(candidates)) && votes == FirstChoices(ballots)
      ensures r.Decided? ==> candidates == old(candidates) && IsMajority(votes, candidates, r.winner)
      ensures r.Exhausted? <==> votes == []
      ensures r.Exhausted? ==> candidates == old(candidates)
      ensures r.Eliminated? ==>
        && IsEliminable(votes, old(candidates), r.loser)
        && candidates == old(candidates) - {r.loser}
        && |candidates| == |old(candidates)| - 1 > 0
    {
      ghost var before := Snapshot(ballots);
      ShiftBallots(original);
      r, votes := Decide();
      if r.Eliminated? {
        Remove(r.loser, original, before, votes);
      }
    }

    /**
     * Runs rounds until one returns a winner or finds every valid ballot
     * gone. Each eliminated candidate is removed from `candidates` itself,
     * and every ballot is trimmed in place: once a round has run, every
     * ballot is its original shifted against the final standing set. The
     * ghost `rounds` counts the eliminations.
     */
    method GetWinner() returns (result: Outcome, ghost rounds: nat)
      modifies this`candidates, ballots
      ensures result.NoWinner? <==> ballots == [] || old(candidates) == {}
      ensures result.NoWinner? ==> candidates == old(candidates) && Snapshot(ballots) == old(Snapshot(ballots))
      ensures candidates <= old(candidates) && |candidates| + rounds == |old(candidates)|
      ensures TrimmedFrom(ballots, old(Snapshot(ballots)))
      ensures !result.NoWinner? ==> ShiftedMap(Snapshot(ballots), old(Snapshot(ballots)), candidates)
      ensures result.Winner? ==> MajorityWinner(ballots, candidates, result.winner)
      ensures result.ZeroDivisionError? ==> candidates != {} && ValidCount(ballots) == 0
    {
      rounds := 0;
      ghost var original := Snapshot(ballots);
      ghost var last := candidates;
      while |ballots| > 0 && |candidates| > 0
        invariant candidates <= old(candidates) && |candidates| + rounds == |old(candidates)|
        invariant ballots != [] && old(candidates) != {} ==> candidates != {}
        invariant ballots == [] ==> candidates == old(candidates)
        invariant TrimmedFrom(ballots, original)
        invariant rounds == 0 ==> Snapshot(ballots) == original
        invariant rounds > 0 ==> candidates <= last && ShiftedMap(Snapshot(ballots), original, last)
        decreases |candidates|
      {
        ghost var votes;
        ghost var before, standing := Snapshot(ballots), candidates;
        var r;
        r, votes := Round(original);
        if rounds > 0 {
          ComposeShifts(original, before, Snapshot(ballots), last, standing);
        }
        last := standing;
        match r
        case Decided(c) =>
          return Winner(c), rounds;
        case Exhausted =>
          return ZeroDivisionError, rounds;
        case Eliminated(c) =>
          rounds := rounds + 1;
      }
      result := NoWinner;
    }
  }
}
