# Instant-runoff counting engine, modelled in Dafny

This project models the ranked-choice counting engine of `rcvote.py`.

- A **ballot** holds an ordered preference list and has a validity flag.
- An **election** (`RCV`) holds the standing candidates and the ballots cast.
- `get_winner` counts in rounds. Each round does four things:
  1. It shifts every ballot past candidates who have been eliminated. A ballot that runs empty becomes invalid.
  2. It counts the `n` valid ballots and tallies their first choices.
  3. It returns any candidate holding more than half of them.
  4. Otherwise it collects the candidates tied at the fewest votes, removes one of them from the standing set, and runs another round.

Modules:

- `Ballots` (`ballots.dfy`) holds several things:
  - `Candidate`, a class whose equality is object identity;
  - `Ballot`, with its in-place `Shift`;
  - the function `Shifted`, which specifies `Shift`;
  - the suffix facts about `Shifted`.
- `Counting` (`counting.dfy`) holds `SumOver`, which sums a tally over a set of keys, and the majority arithmetic built on it.
- `Election` (`election.dfy`) holds the rest:
  - the valid-ballot count and the first choices;
  - the scan of a tally;
  - the shift phase;
  - the `RCV` class with `TallyWinner`, the parts of one round, and `GetWinner`.

How the code's behaviour is modelled:

- **Mutation follows the code, not its docstring.** The `get_winner` docstring says it does not mutate instance attributes. The code does.
  - `candidates = self.candidates` aliases the set, so `remove` shrinks `self.candidates`.
  - `shift` trims every ballot in place.
  - The model's `GetWinner` therefore modifies `candidates` and every ballot.
  - Its contract states how the candidate set shrinks and that each ballot only ever loses a prefix.
- **Arbitrary choices.**
  - `random.choice` becomes a nondeterministic choice (`:|`) from the tied list.
  - The tally dictionary iterates in insertion order: first the first choices, in order of first appearance (rcvote.py:104-105), then the unchosen standing candidates in set order (rcvote.py:107-109). The model's scan takes the keys in any order, which includes the code's order.
  - No outcome depends on that order: at most one candidate holds a majority (`AtMostOneMajority`), and the tied list is characterised only as a set (`ScanTally`).
  - Every contract holds whatever choices are made.
- **The majority test.** `vote_tally[c] / n > 0.5` is modelled as `2 * count > n`.
- **Division by zero.** When no valid ballot is left, the first division by `n` raises `ZeroDivisionError`. This is modelled as the outcome `ZeroDivisionError`.
  - The tally is never empty there, because it covers every standing candidate and candidates remain.
- **Errors the code never reaches.** Two other failures in the source are `random.choice` on an empty list and `remove` of a candidate that is not standing. The model proves neither can happen:
  - the tied list is never empty;
  - the picked candidate is standing.
- **Tie-breaking.** The code has no deeper-preference tie-break: it picks at random among the tied candidates (rcvote.py:92), and it loops while both ballots and candidates remain (rcvote.py:70), not only while more than one candidate stands. The model follows the code.
  - A last standing candidate wins as soon as any valid ballot is left (`SoleCandidateWins`).
  - Once the loop has started, the candidate set never runs empty. A candidate is eliminated only when nobody holds a majority of a positive count, and then at least two stand (`NoMajorityMeansTwoKeys`, used by `CountVotes`); `Decide` and `Round` pass this on, and it is an invariant of `GetWinner`'s loop.
- **Ballots across rounds.** Each round shifts every ballot against the candidates standing at its start (`Round`). Shifting again after more eliminations is the same as one shift against the smaller set (`ShiftedAfterElimination`, combined per ballot by `ComposeShifts`). So when the count ends with a winner or a division by zero, every ballot is its original shifted against the final standing set, and the winner's majority is counted on those ballots.

## Model

| member | source | states |
|---|---|---|
| Ballots.Candidate.constructor | rcvote.py:12-13 | a candidate carries its name; two candidates are equal only when they are the same object |
| Ballots.Ballot.constructor | rcvote.py:28-30 | a new ballot holds the given preference list and is valid |
| Ballots.Ballot.Shift | rcvote.py:35-43 | the new `ranks` is `Shifted(old ranks, candidates)`; `valid` becomes false exactly when the list ends up empty, and is never reset to true |
| Ballots.ShiftedTrims | rcvote.py:39-40 | the shifted list is a suffix of the old list; every dropped entry is inactive; the result is empty or headed by an active candidate |
| Ballots.ShiftedUnique | rcvote.py:39-40 | those three properties hold of a list if and only if it is the shifted list, so they specify the shift completely |
| Ballots.ShiftedAfterElimination | rcvote.py:39-40 | shifting against a set and then against a subset of it equals shifting against the subset directly, so trimming only the front once per round is enough while candidates are only removed |
| Ballots.ShiftedIdempotent | rcvote.py:39-43 | a second shift against the same set leaves `ranks` unchanged, and with it `valid` |
| Counting.SumOfCounts | rcvote.py:103-105 | a tally that maps every key to its number of occurrences among the votes, and covers every vote, sums to the number of votes |
| Counting.AtMostOneMajority | rcvote.py:83-85 | two different candidates cannot both hold more than half of the total |
| Counting.NoMajorityMeansTwoKeys | rcvote.py:83-92 | with a positive total and no majority, at least two candidates stand, so an elimination leaves one standing |
| Election.ValidCount | rcvote.py:74 | the number of valid ballots is at most the number of ballots, and equals it exactly when every ballot is valid |
| Election.ValidCountZero | rcvote.py:74 | no ballot counts if and only if every ballot is invalid |
| Election.FirstChoices | rcvote.py:75 | there is one first choice per valid ballot |
| Election.FirstChoicesActive | rcvote.py:71-75 | after the shift phase, every first choice is a standing candidate |
| Election.SoleCandidateWins | rcvote.py:70-85 | when all votes are for the last standing candidate, that candidate holds a strict majority |
| Election.ScanTally | rcvote.py:77-90 | on an empty ballot count the scan fails with a division by zero exactly when the tally is nonempty; a returned leader holds more than half; otherwise nobody holds more than half, and the tied list is duplicate-free, is nonempty when the tally is, and holds exactly the candidates whose count is the minimum |
| Election.ShiftAll | rcvote.py:71-72 | every ballot of the list is shifted against the standing set, and a ballot listed twice is shifted once in effect; afterwards every valid ballot is headed by a standing candidate |
| Election.ComposeShifts | rcvote.py:70-72 | a shift phase against one standing set followed by a shift phase against a subset of it leaves every ballot as one shift phase against the subset would: the list is the shifted original, and the ballot is valid exactly when it was valid originally and its list is not empty |
| Election.RCV.constructor | rcvote.py:56-58 | the election holds the given candidates and ballots |
| Election.RCV.TallyWinner | rcvote.py:100-111 | the keys are the first choices together with every standing candidate; each value is that candidate's number of occurrences among the first choices, which is 0 for a standing candidate nobody chose |
| Election.RCV.CountVotes | rcvote.py:76-90 | the tally covers exactly the standing candidates with their first-choice counts and sums to `n`; the outcomes are: a division by zero exactly when `n` is 0; a unique majority leader; or, with at least two candidates and no majority, the nonempty list of the candidates at the minimum |
| Election.RCV.Decide | rcvote.py:74-92 | with every valid ballot headed by a standing candidate, the round is decided by the one standing candidate holding a strict majority of the first choices, or is exhausted exactly when no valid ballot is left, or picks a standing candidate with the fewest votes when at least two stand and nobody has a majority |
| Election.RCV.ShiftBallots | rcvote.py:71-72 | the shift phase on the election's ballots: every ballot is its state before the phase shifted against the standing candidates, stays a trimmed copy of its earlier snapshot, and when valid is headed by a standing candidate |
| Election.RCV.Remove | rcvote.py:93 | the eliminated candidate leaves the standing set, which shrinks by exactly one; the ballots are untouched, so they stay shifted against the set that stood before the removal |
| Election.RCV.Round | rcvote.py:71-93 | one round: every ballot ends up as its state at the start of the round shifted against the candidates standing then; stated against the round's first choices, a majority winner leaves the candidates unchanged; an exhausted round has no first choices; an eliminated candidate had the fewest votes, nobody had a majority, and that one candidate is removed, leaving at least one |
| Election.RCV.GetWinner | rcvote.py:60-98 | `NoWinner` (the source's `False`) is returned exactly when there were no ballots or no candidates at entry, and then the candidates and every ballot are otherwise untouched; each elimination removes exactly one candidate, so the count terminates; every ballot only lost a prefix and never became valid again; when the count ends with a winner or a division by zero, every ballot is its original list shifted against the final standing set, valid exactly when it was valid at entry and its list is not empty; a returned winner is standing and holds a strict majority of the final round's valid ballots, with no other standing candidate doing so; `ZeroDivisionError` means candidates remain but no valid ballot does |

## Left out

- The `stats` parameter and its `print` diagnostics are left out, because they only produce output. The same goes for both `__repr__` methods.
- The `__main__` demonstration and `example.py` are left out. They only build sample data and print.
- The distribution of `random.choice` is left out. The model keeps only the fact that some candidate of the tied list is picked.
- Floating-point division is not modelled; the model uses the integer test `2 * count > n`. The two agree whenever `n` is below 2^53.
- Aliasing with the caller's objects is not modelled:
  - `pop(0)` also shortens the list object the caller passed to `Ballot`;
  - the set stored by `RCV` is the caller's set, so removals show there too.
  
  The model keeps lists and sets as values inside the objects that own them.
- The name of a candidate is kept, but nothing depends on it.
- Election.RCV.GetWinner: the model does not record the sequence of eliminations across rounds. `Election.RCV.Round` states each round's elimination rule, and `GetWinner` states only the count of eliminations.
