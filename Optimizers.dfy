/**
 * The current engine's optimizer: a greedy hill-climb over a season's
 * schedule with three kinds of move, each accepted only when it strictly
 * lowers the score and undone otherwise, repeated until a whole pass
 * accepts nothing.
 *
 * - Move A puts every other pairing of two roster players into every slot
 *   of every open round.
 * - Move B exchanges a player of one match with a player of another match
 *   of the same open round.
 * - Move C exchanges the matches at two slot coordinates, visited in a
 *   shuffled order.
 *
 * The score is an abstract function from schedules to `nat`; lower is better.
 */
module Optimizers {
  import opened Wrappers
  import opened Matches
  import opened Indices
  import opened Rounds
  import opened Randomness
  import opened Seasons

  /** `create_match(p, q)` for two different roster indices. */
  function Game(p: PlayerId, q: PlayerId): (m: Match)
    requires p != q
    ensures Canonical(m) && m.second.Some? && Members(m) == {p, q}
    ensures p < q ==> m == Match(p, Some(q))
  {
    CreateMatch(p, Some(q)).value
  }

  /** Every element of `xs` paired with every element of `ys`, `xs` outermost (a nested comprehension). */
  function Product<S(!new), T(!new)>(xs: seq<S>, ys: seq<T>): (r: seq<(S, T)>)
    ensures |r| == |xs| * |ys|
    ensures forall pr :: pr in r <==> pr.0 in xs && pr.1 in ys
  {
    if xs == [] then []
    else
      var row := seq(|ys|, j requires 0 <= j < |ys| => (xs[0], ys[j]));
      assert forall pr :: pr in row <==> pr.0 == xs[0] && pr.1 in ys by {
        forall pr: (S, T) | pr.0 == xs[0] && pr.1 in ys ensures pr in row {
          var j :| 0 <= j < |ys| && ys[j] == pr.1;
          assert row[j] == pr;
        }
      }
      assert forall x :: x in xs <==> x == xs[0] || x in xs[1..] by {
        assert xs == [xs[0]] + xs[1..];
      }
      row + Product(xs[1..], ys)
  }

  /** `itertools.combinations(xs, 2)`: each element paired with every later one, in order. */
  function Pairs<T(!new)>(xs: seq<T>): seq<(T, T)>
    decreases |xs|
  {
    if xs == [] then [] else Product([xs[0]], xs[1..]) + Pairs(xs[1..])
  }

  /** The pairs of a row-major list of coordinates are exactly its coordinates in strictly row-major order. */
  lemma {:induction false} PairsMember(xs: seq<Coord>)
    requires RowMajor(xs)
    ensures forall a, b :: (a, b) in Pairs(xs) <==> a in xs && b in xs && Before(a, b)
    decreases |xs|
  {
    if xs != [] {
      var t := xs[1..];
      assert RowMajor(t) by {
        forall k | 0 <= k < |t| - 1 ensures Before(t[k], t[k + 1]) {
          assert t[k] == xs[k + 1] && t[k + 1] == xs[k + 2];
        }
      }
      PairsMember(t);
      forall j | 0 <= j < |t| ensures Before(xs[0], t[j]) {
        RowMajorRoundsMonotone(xs, 0, j + 1);
      }
      assert xs == [xs[0]] + t;
      forall a, b ensures (a, b) in Pairs(xs) <==> a in xs && b in xs && Before(a, b) {
        if b == xs[0] && a in t {
          var j :| 0 <= j < |t| && t[j] == a;
          assert Before(xs[0], t[j]);
        }
      }
    }
  }

  /** The slot coordinates of round `i`, for the courts from `j` on, in court order. */
  function RowCoords(i: nat, j: nat, courts: nat): (r: seq<Coord>)
    requires j <= courts
    ensures RowMajor(r)
    ensures forall c :: c in r <==> c.0 == i && j <= c.1 < courts
    decreases courts - j
  {
    if j == courts then []
    else
      var rest := RowCoords(i, j + 1, courts);
      assert forall c :: c in rest ==> Before((i, j), c);
      [(i, j)] + rest
  }

  /** `indizes`: the coordinates `(i, j)` with `i` from `from` below `rounds`, `j` below `courts`, row-major. */
  function GridCoords(from: nat, rounds: nat, courts: nat): (r: seq<Coord>)
    requires from <= rounds
    ensures RowMajor(r)
    ensures forall c :: c in r <==> from <= c.0 < rounds && c.1 < courts
    decreases rounds - from
  {
    if from == rounds then []
    else
      var here := RowCoords(from, 0, courts);
      var rest := GridCoords(from + 1, rounds, courts);
      RowMajorConcat(here, rest, from);
      here + rest
  }

  /** `combinations(indizes, 2)` for a schedule of `rounds` rounds on `courts` courts. */
  function CoordPairs(rounds: nat, courts: nat): seq<(Coord, Coord)> {
    Pairs(GridCoords(0, rounds, courts))
  }

  /** The candidate pairs of Move C are the pairs of slot coordinates in strictly row-major order. */
  lemma CoordPairsMember(rounds: nat, courts: nat, a: Coord, b: Coord)
    ensures (a, b) in CoordPairs(rounds, courts) <==> a.0 < rounds && a.1 < courts && b.0 < rounds && b.1 < courts && Before(a, b)
  {
    PairsMember(GridCoords(0, rounds, courts));
  }

  /**
   * The skip test of `optimize_schedule_by_swapping_matches` as written:
   * both slots are read before the fixed rounds are consulted, so a slot
   * beyond the end of its round raises `IndexError` (`None`).
   */
  function SkipAsWritten(s: Schedule, fixedRounds: seq<nat>, a: Coord, b: Coord): (r: Option<bool>)
    requires a.0 < |s| && b.0 < |s|
    ensures r.None? <==> a.1 >= |s[a.0]| || b.1 >= |s[b.0]|
    ensures r.Some? ==> (r.value <==> s[a.0][a.1] == s[b.0][b.1] || a.0 in fixedRounds || b.0 in fixedRounds)
  {
    if a.1 < |s[a.0]| && b.1 < |s[b.0]| then
      Some(s[a.0][a.1] == s[b.0][b.1] || a.0 in fixedRounds || b.0 in fixedRounds)
    else
      None
  }

  /**
   * A round shorter than the number of courts (a partial round) makes the
   * skip test as written raise on one of the pairs Move C visits.
   */
  lemma SkipAsWrittenRaises(s: Schedule, fixedRounds: seq<nat>, courts: nat, r: nat)
    requires r < |s| && |s[r]| < courts && (r > 0 || |s[r]| > 0)
    ensures ((0, 0), (r, |s[r]|)) in CoordPairs(|s|, courts)
    ensures SkipAsWritten(s, fixedRounds, (0, 0), (r, |s[r]|)).None?
  {
    CoordPairsMember(|s|, courts, (0, 0), (r, |s[r]|));
  }

  /** A concrete instance: two courts, a partial round of one bye first, then a full round. */
  lemma SkipAsWrittenExample()
    ensures var s := [[Match(0, None)], [Match(0, Some(1)), Match(2, Some(3))]];
      ((0, 0), (0, 1)) in CoordPairs(2, 2) && SkipAsWritten(s, [0], (0, 0), (0, 1)) == None
  {
    var s := [[Match(0, None)], [Match(0, Some(1)), Match(2, Some(3))]];
    SkipAsWrittenRaises(s, [0], 2, 0);
  }

  /** The skip test with the fixed rounds consulted first, as the design intends. */
  function SkipCorrected(s: Schedule, fixedRounds: seq<nat>, a: Coord, b: Coord): (r: bool)
    requires a.0 < |s| && b.0 < |s|
    requires a.0 !in fixedRounds && b.0 !in fixedRounds ==> a.1 < |s[a.0]| && b.1 < |s[b.0]|
    ensures r <==> a.0 in fixedRounds || b.0 in fixedRounds || s[a.0][a.1] == s[b.0][b.1]
  {
    a.0 in fixedRounds || b.0 in fixedRounds || s[a.0][a.1] == s[b.0][b.1]
  }

  /** Wherever the test as written does not raise, the corrected test gives the same answer. */
  lemma SkipCorrectedAgrees(s: Schedule, fixedRounds: seq<nat>, a: Coord, b: Coord)
    requires a.0 < |s| && b.0 < |s| && SkipAsWritten(s, fixedRounds, a, b).Some?
    ensures SkipCorrected(s, fixedRounds, a, b) == SkipAsWritten(s, fixedRounds, a, b).value
  {
  }

  /** In a valid season the corrected test is defined on every pair Move C visits. */
  lemma SkipCorrectedDefined(season: Season, a: Coord, b: Coord)
    requires season.Valid() && (a, b) in CoordPairs(|season.schedule|, season.Courts())
    ensures a.0 < |season.schedule| && b.0 < |season.schedule|
    ensures a.0 !in season.fixedRounds && b.0 !in season.fixedRounds ==> a.1 < |season.schedule[a.0]| && b.1 < |season.schedule[b.0]|
  {
    CoordPairsMember(|season.schedule|, season.Courts(), a, b);
  }

  class Optimizer {
    const season: Season
    /** `ScoringAlgorithm.get_score` for the season's players. */
    const score: Schedule -> nat
    /** `random.shuffle` on Move C's list of coordinate pairs, one draw per pass. */
    const shuffle: (nat, seq<(Coord, Coord)>) -> seq<(Coord, Coord)>
    var draws: nat

    constructor (season: Season, score: Schedule -> nat, shuffle: (nat, seq<(Coord, Coord)>) -> seq<(Coord, Coord)>)
      ensures this.season == season && this.score == score && this.shuffle == shuffle && draws == 0
    {
      this.season, this.score, this.shuffle := season, score, shuffle;
      draws := 0;
    }

    /** The state every move starts from and keeps: a valid season whose open rounds all pass the check. */
    ghost predicate Ready()
      reads season
    {
      season.Valid() && season.OpenRoundsValid()
    }

    /** Move A cannot improve slot `(r, m)` of `s` with `cand`: it is already there, breaks the round, or scores no better. */
    predicate NoBetterMatch(s: Schedule, r: nat, m: nat, cand: Match)
      requires r < |s| && r < |season.dates| && m < |s[r]|
    {
      || cand == s[r][m]
      || !season.RoundOk(s[r][m := cand], season.dates[r])
      || score(s[r := s[r][m := cand]]) >= score(s)
    }

    /** No pairing of two roster players improves any slot of any open round. */
    ghost predicate PairingOptimal(s: Schedule)
      requires |s| == |season.dates|
    {
      forall r: nat, m: nat, p: nat, q: nat ::
        r < |s| && r !in season.fixedRounds && m < |s[r]| && p < q < |season.players| ==> NoBetterMatch(s, r, m, Game(p, q))
    }

    /** Move B cannot improve round `r` of `s` by exchanging `p` (of match `m1`) and `q` (of match `m2`). */
    predicate NoBetterSwap(s: Schedule, r: nat, m1: nat, m2: nat, p: PlayerId, q: PlayerId)
      requires r < |s|
    {
      score(s[r := SwapEach(s[r], p, q).0]) >= score(s)
    }

    /** No exchange of players between two matches of an open round improves the schedule. */
    ghost predicate SwapOptimal(s: Schedule)
      requires |s| == |season.dates|
    {
      forall r: nat, m1: nat, m2: nat, p: nat, q: nat ::
        r < |s| && r !in season.fixedRounds && m1 < m2 < |s[r]| && p in Members(s[r][m1]) && q in Members(s[r][m2]) ==>
          NoBetterSwap(s, r, m1, m2, p, q)
    }

    /** Move C cannot improve `s` by exchanging the matches at `a` and `b`. */
    predicate NoBetterSwitch(s: Schedule, a: Coord, b: Coord)
      requires a.0 < |s| && b.0 < |s| && a.0 < |season.dates| && b.0 < |season.dates|
    {
      || a.0 in season.fixedRounds || b.0 in season.fixedRounds
      || !(a.1 < |s[a.0]| && b.1 < |s[b.0]|)
      || s[a.0][a.1] == s[b.0][b.1]
      || !season.RoundOk(Switched(s, a.0, a.1, b.0, b.1)[a.0], season.dates[a.0])
      || !season.RoundOk(Switched(s, a.0, a.1, b.0, b.1)[b.0], season.dates[b.0])
      || score(Switched(s, a.0, a.1, b.0, b.1)) >= score(s)
    }

    /** No exchange of the matches at two slot coordinates improves the schedule. */
    ghost predicate SwitchOptimal(s: Schedule)
      requires |s| == |season.dates|
    {
      forall a: Coord, b: Coord ::
        a.0 < |s| && a.1 < season.Courts() && b.0 < |s| && b.1 < season.Courts() && Before(a, b) ==> NoBetterSwitch(s, a, b)
    }

    // Move A

    /** One candidate of Move A: put `cand` into slot `(r, m)`, keep it if the score drops, otherwise put `current` back. */
    method TryMatch(r: nat, m: nat, current: Match, cand: Match, currentScore: nat) returns (accepted: bool, newScore: nat)
      requires Ready() && r < |season.schedule| && r !in season.fixedRounds && m < |season.schedule[r]|
      requires current == season.schedule[r][m] && season.WellFormed(cand) && currentScore == score(season.schedule)
      modifies season
      ensures Ready() && newScore == score(season.schedule)
      ensures accepted ==> season.schedule == old(season.schedule)[r := old(season.schedule)[r][m := cand]] && newScore < currentScore
      ensures !accepted ==> season.schedule == old(season.schedule) && NoBetterMatch(old(season.schedule), r, m, cand)
    {
      if cand == current {
        return false, currentScore;
      }
      var changed := season.ChangeMatch(r, m, cand);
      if !changed {
        return false, currentScore;
      }
      season.OpenValidAfter(old(season.schedule), season.schedule, r, r);
      newScore := score(season.schedule);
      if newScore < currentScore {
        return true, newScore;
      }
      ReplaceRestores(old(season.schedule), r, m, cand);
      var back := season.ChangeMatch(r, m, current);
      return false, currentScore;
    }

    /** Move A on slot `(r, m)` with first player `p`: every second player `q > p` in turn. */
    method RePairWith(r: nat, m: nat, p: PlayerId, currentScore: nat) returns (accepted: nat, newScore: nat)
      requires Ready() && r < |season.schedule| && r !in season.fixedRounds && m < |season.schedule[r]| && p < |season.players|
      requires currentScore == score(season.schedule)
      modifies season
      ensures Ready() && newScore == score(season.schedule) && newScore + accepted <= currentScore
      ensures accepted == 0 ==> (season.schedule == old(season.schedule)
        && forall q: nat :: p < q < |season.players| ==> NoBetterMatch(old(season.schedule), r, m, Game(p, q)))
    {
      ghost var s0 := season.schedule;
      var n := |season.players|;
      accepted, newScore := 0, currentScore;
      for q := p + 1 to n
        invariant Ready() && newScore == score(season.schedule) && newScore + accepted <= currentScore
        invariant r < |season.schedule| && m < |season.schedule[r]|
        invariant accepted == 0 ==> (season.schedule == s0
          && forall q': nat :: p < q' < q ==> NoBetterMatch(s0, r, m, Game(p, q')))
      {
        var cand := Game(p, q);
        var ok, s := TryMatch(r, m, season.schedule[r][m], cand, newScore);
        if ok {
          accepted := accepted + 1;
        } else if accepted == 0 {
          forall q': nat | p < q' < q + 1 ensures NoBetterMatch(s0, r, m, Game(p, q')) {
            if q' == q {
              assert NoBetterMatch(s0, r, m, cand);
            }
          }
        }
        newScore := s;
      }
    }

    /** Move A on slot `(r, m)`: every pairing `p < q` of roster players in turn. */
    method RePairSlot(r: nat, m: nat, currentScore: nat) returns (accepted: nat, newScore: nat)
      requires Ready() && r < |season.schedule| && r !in season.fixedRounds && m < |season.schedule[r]|
      requires currentScore == score(season.schedule)
      modifies season
      ensures Ready() && newScore == score(season.schedule) && newScore + accepted <= currentScore
      ensures accepted == 0 ==> (season.schedule == old(season.schedule)
        && forall p: nat, q: nat :: p < q < |season.players| ==> NoBetterMatch(old(season.schedule), r, m, Game(p, q)))
    {
      ghost var s0 := season.schedule;
      var n := |season.players|;
      accepted, newScore := 0, currentScore;
      for p := 0 to n
        invariant Ready() && newScore == score(season.schedule) && newScore + accepted <= currentScore
        invariant accepted == 0 ==> (season.schedule == s0
          && forall p': nat, q: nat :: p' < p && p' < q < n ==> NoBetterMatch(s0, r, m, Game(p', q)))
      {
        var a, s := RePairWith(r, m, p, newScore);
        if a == 0 && accepted == 0 {
          forall p': nat, q: nat | p' < p + 1 && p' < q < n ensures NoBetterMatch(s0, r, m, Game(p', q)) {
            if p' == p {
              assert p < q < n;
            }
          }
        }
        accepted, newScore := accepted + a, s;
      }
    }

    /** Move A on every slot of open round `r`. */
    method RePairRound(r: nat, currentScore: nat) returns (accepted: nat, newScore: nat)
      requires Ready() && r < |season.schedule| && r !in season.fixedRounds
      requires currentScore == score(season.schedule)
      modifies season
      ensures Ready() && newScore == score(season.schedule) && newScore + accepted <= currentScore
      ensures accepted == 0 ==> (season.schedule == old(season.schedule)
        && forall m: nat, p: nat, q: nat :: m < |old(season.schedule)[r]| && p < q < |season.players| ==>
          NoBetterMatch(old(season.schedule), r, m, Game(p, q)))
    {
      ghost var s0 := season.schedule;
      accepted, newScore := 0, currentScore;
      for m := 0 to season.numCourts
        invariant Ready() && newScore == score(season.schedule) && newScore + accepted <= currentScore
        invariant accepted == 0 ==> (season.schedule == s0
          && forall m': nat, p: nat, q: nat :: m' < m && p < q < |season.players| ==> NoBetterMatch(s0, r, m', Game(p, q)))
      {
        var a, s := RePairSlot(r, m, newScore);
        if a == 0 && accepted == 0 {
          forall m': nat, p: nat, q: nat | m' < m + 1 && p < q < |season.players| ensures NoBetterMatch(s0, r, m', Game(p, q)) {
            if m' == m {
              assert NoBetterMatch(s0, r, m, Game(p, q));
            }
          }
        }
        accepted, newScore := accepted + a, s;
      }
    }

    /** The first loop of `optimize_schedule_by_swapping_players`: Move A on every open round. */
    method RePairAll(currentScore: nat) returns (accepted: nat, newScore: nat)
      requires Ready() && currentScore == score(season.schedule)
      modifies season
      ensures Ready() && newScore == score(season.schedule) && newScore + accepted <= currentScore
      ensures accepted == 0 ==> season.schedule == old(season.schedule) && PairingOptimal(old(season.schedule))
    {
      ghost var s0 := season.schedule;
      accepted, newScore := 0, currentScore;
      for r := 0 to |season.schedule|
        invariant Ready() && newScore == score(season.schedule) && newScore + accepted <= currentScore
        invariant accepted == 0 ==> (season.schedule == s0
          && forall r': nat, m: nat, p: nat, q: nat :: r' < r && r' !in season.fixedRounds && m < |s0[r']| && p < q < |season.players| ==>
            NoBetterMatch(s0, r', m, Game(p, q)))
      {
        if r !in season.fixedRounds {
          var a, s := RePairRound(r, newScore);
          accepted, newScore := accepted + a, s;
        }
        if accepted == 0 {
          forall r': nat, m: nat, p: nat, q: nat | r' < r + 1 && r' !in season.fixedRounds && m < |s0[r']| && p < q < |season.players|
            ensures NoBetterMatch(s0, r', m, Game(p, q))
          {
            if r' == r {
              assert m < |s0[r]|;
            }
          }
        }
      }
    }

    // Move B

    /** One candidate of Move B: exchange `p` and `q`, keep it if the score drops, otherwise exchange them back. */
    method TrySwap(r: nat, m1: nat, m2: nat, p: PlayerId, q: PlayerId, currentScore: nat) returns (accepted: bool, newScore: nat)
      requires Ready() && r < |season.schedule| && r !in season.fixedRounds
      requires m1 < m2 < |season.schedule[r]| && p in Members(season.schedule[r][m1]) && q in Members(season.schedule[r][m2])
      requires currentScore == score(season.schedule)
      modifies season
      ensures Ready() && newScore == score(season.schedule)
      ensures accepted ==> season.schedule == old(season.schedule)[r := SwapEach(old(season.schedule)[r], p, q).0] && newScore < currentScore
      ensures !accepted ==> season.schedule == old(season.schedule) && NoBetterSwap(old(season.schedule), r, m1, m2, p, q)
    {
      ghost var s0 := season.schedule;
      season.SwapAcrossKeepsRound(s0[r], season.dates[r], m1, m2, p, q);
      var swapped := season.SwapPlayersOfExistingMatches(r, p, q);
      assert swapped == Success(true);
      season.OpenValidAfter(s0, season.schedule, r, r);
      newScore := score(season.schedule);
      if newScore < currentScore {
        return true, newScore;
      }
      ReplaceRoundRestores(s0, r, SwapEach(s0[r], p, q).0);
      var back := season.SwapPlayersOfExistingMatches(r, p, q);
      return false, currentScore;
    }

    /** Move B on matches `m1` and `m2` of round `r`: each player pair in turn until one is accepted. */
    method SwapBetween(r: nat, m1: nat, m2: nat, currentScore: nat) returns (accepted: nat, newScore: nat)
      requires Ready() && r < |season.schedule| && r !in season.fixedRounds && m1 < m2 < |season.schedule[r]|
      requires currentScore == score(season.schedule)
      modifies season
      ensures Ready() && newScore == score(season.schedule) && newScore + accepted <= currentScore
      ensures accepted == 0 ==> (season.schedule == old(season.schedule)
        && forall p: nat, q: nat :: p in Members(old(season.schedule)[r][m1]) && q in Members(old(season.schedule)[r][m2]) ==>
          NoBetterSwap(old(season.schedule), r, m1, m2, p, q))
    {
      ghost var s0 := season.schedule;
      var round := season.schedule[r];
      var candidates := Product(PlayersOf(round[m1]), PlayersOf(round[m2]));
      accepted, newScore := 0, currentScore;
      var k := 0;
      while k < |candidates|
        invariant 0 <= k <= |candidates|
        invariant Ready() && newScore == score(season.schedule) && newScore + accepted <= currentScore
        invariant accepted == 0 ==> (season.schedule == s0
          && forall i :: 0 <= i < k ==> NoBetterSwap(s0, r, m1, m2, candidates[i].0, candidates[i].1))
        invariant accepted != 0 ==> k == |candidates|
      {
        var (p, q) := candidates[k];
        assert candidates[k] in candidates;
        var ok, s := TrySwap(r, m1, m2, p, q, newScore);
        newScore := s;
        if ok {
          accepted := 1;
          break;
        }
        forall i | 0 <= i < k + 1 ensures NoBetterSwap(s0, r, m1, m2, candidates[i].0, candidates[i].1) {
          if i == k {
            assert NoBetterSwap(s0, r, m1, m2, p, q);
          }
        }
        k := k + 1;
      }
      if accepted == 0 {
        forall p: nat, q: nat | p in Members(s0[r][m1]) && q in Members(s0[r][m2])
          ensures NoBetterSwap(s0, r, m1, m2, p, q)
        {
          assert (p, q) in candidates;
          var i :| 0 <= i < |candidates| && candidates[i] == (p, q);
        }
      }
    }

    /** Move B on round `r`: every pair of match indices `m1 < m2` below the number of courts. */
    method SwapWithinRound(r: nat, currentScore: nat) returns (accepted: nat, newScore: nat)
      requires Ready() && r < |season.schedule| && r !in season.fixedRounds
      requires currentScore == score(season.schedule)
      modifies season
      ensures Ready() && newScore == score(season.schedule) && newScore + accepted <= currentScore
      ensures accepted == 0 ==> (season.schedule == old(season.schedule)
        && forall m1: nat, m2: nat, p: nat, q: nat :: m1 < m2 < |old(season.schedule)[r]| && p in Members(old(season.schedule)[r][m1]) && q in Members(old(season.schedule)[r][m2]) ==>
          NoBetterSwap(old(season.schedule), r, m1, m2, p, q))
    {
      ghost var s0 := season.schedule;
      var c := season.Courts();
      accepted, newScore := 0, currentScore;
      for m1 := 0 to c
        invariant Ready() && newScore == score(season.schedule) && newScore + accepted <= currentScore
        invariant accepted == 0 ==> (season.schedule == s0
          && forall m1': nat, m2: nat, p: nat, q: nat :: m1' < m1 && m1' < m2 < c && p in Members(s0[r][m1']) && q in Members(s0[r][m2]) ==>
            NoBetterSwap(s0, r, m1', m2, p, q))
      {
        for m2 := m1 + 1 to c
          invariant Ready() && newScore == score(season.schedule) && newScore + accepted <= currentScore
          invariant accepted == 0 ==> (season.schedule == s0
            && (forall m1': nat, m2': nat, p: nat, q: nat :: m1' < m1 && m1' < m2' < c && p in Members(s0[r][m1']) && q in Members(s0[r][m2']) ==>
              NoBetterSwap(s0, r, m1', m2', p, q))
            && (forall m2': nat, p: nat, q: nat :: m1 < m2' < m2 && p in Members(s0[r][m1]) && q in Members(s0[r][m2']) ==>
              NoBetterSwap(s0, r, m1, m2', p, q)))
        {
          var a, s := SwapBetween(r, m1, m2, newScore);
          if a == 0 && accepted == 0 {
            forall m2': nat, p: nat, q: nat | m1 < m2' < m2 + 1 && p in Members(s0[r][m1]) && q in Members(s0[r][m2'])
              ensures NoBetterSwap(s0, r, m1, m2', p, q)
            {
              if m2' == m2 {
                assert p in Members(s0[r][m1]);
              }
            }
          }
          accepted, newScore := accepted + a, s;
        }
        if accepted == 0 {
          forall m1': nat, m2: nat, p: nat, q: nat | m1' < m1 + 1 && m1' < m2 < c && p in Members(s0[r][m1']) && q in Members(s0[r][m2])
            ensures NoBetterSwap(s0, r, m1', m2, p, q)
          {
            if m1' == m1 {
              assert m1 < m2 < c;
            }
          }
        }
      }
    }

    /** The second loop of `optimize_schedule_by_swapping_players`: Move B on every open round. */
    method SwapAll(currentScore: nat) returns (accepted: nat, newScore: nat)
      requires Ready() && currentScore == score(season.schedule)
      modifies season
      ensures Ready() && newScore == score(season.schedule) && newScore + accepted <= currentScore
      ensures accepted == 0 ==> season.schedule == old(season.schedule) && SwapOptimal(old(season.schedule))
    {
      ghost var s0 := season.schedule;
      accepted, newScore := 0, currentScore;
      for r := 0 to |season.schedule|
        invariant Ready() && newScore == score(season.schedule) && newScore + accepted <= currentScore
        invariant accepted == 0 ==> (season.schedule == s0
          && forall r': nat, m1: nat, m2: nat, p: nat, q: nat ::
            r' < r && r' !in season.fixedRounds && m1 < m2 < |s0[r']| && p in Members(s0[r'][m1]) && q in Members(s0[r'][m2]) ==>
              NoBetterSwap(s0, r', m1, m2, p, q))
      {
        if r !in season.fixedRounds {
          var a, s := SwapWithinRound(r, newScore);
          accepted, newScore := accepted + a, s;
        }
        if accepted == 0 {
          forall r': nat, m1: nat, m2: nat, p: nat, q: nat |
            r' < r + 1 && r' !in season.fixedRounds && m1 < m2 < |s0[r']| && p in Members(s0[r'][m1]) && q in Members(s0[r'][m2])
            ensures NoBetterSwap(s0, r', m1, m2, p, q)
          {
            if r' == r {
              assert m1 < m2 < |s0[r]|;
            }
          }
        }
      }
    }

    /**
     * `optimize_schedule_by_swapping_players`: Move A, then Move B from a
     * freshly computed score; returns `swaps` plus the accepted moves.
     */
    method OptimizeBySwappingPlayers(swaps: nat) returns (total: nat)
      requires Ready()
      modifies season
      ensures Ready() && total >= swaps
      ensures score(season.schedule) + (total - swaps) <= old(score(season.schedule))
      ensures total == swaps ==> season.schedule == old(season.schedule) && PairingOptimal(season.schedule) && SwapOptimal(season.schedule)
    {
      var currentScore := score(season.schedule);
      var a, s := RePairAll(currentScore);
      currentScore := score(season.schedule);
      var b, s' := SwapAll(currentScore);
      return swaps + a + b;
    }

    // Move C

    /** One candidate of Move C: skip, or exchange the matches at `a` and `b`, keep it if the score drops, otherwise exchange them back. */
    method TrySwitch(a: Coord, b: Coord, currentScore: nat) returns (accepted: bool, newScore: nat)
      requires Ready() && a.0 < |season.schedule| && b.0 < |season.schedule|
      requires a.0 !in season.fixedRounds && b.0 !in season.fixedRounds ==> a.1 < |season.schedule[a.0]| && b.1 < |season.schedule[b.0]|
      requires currentScore == score(season.schedule)
      modifies season
      ensures Ready() && newScore == score(season.schedule)
      ensures accepted ==> (newScore < currentScore && a.1 < |old(season.schedule)[a.0]| && b.1 < |old(season.schedule)[b.0]|
        && season.schedule == Switched(old(season.schedule), a.0, a.1, b.0, b.1))
      ensures !accepted ==> season.schedule == old(season.schedule) && NoBetterSwitch(old(season.schedule), a, b)
    {
      if SkipCorrected(season.schedule, season.fixedRounds, a, b) {
        return false, currentScore;
      }
      ghost var s0 := season.schedule;
      var switched := season.SwitchMatches(a.0, a.1, b.0, b.1);
      if !switched {
        return false, currentScore;
      }
      season.OpenValidAfter(s0, season.schedule, a.0, b.0);
      newScore := score(season.schedule);
      if newScore < currentScore {
        return true, newScore;
      }
      SwitchedTwice(s0, a.0, a.1, b.0, b.1);
      var back := season.SwitchMatches(a.0, a.1, b.0, b.1);
      return false, currentScore;
    }

    /** The loop of Move C over the candidate pairs in the given order. */
    method SwitchInOrder(order: seq<(Coord, Coord)>, swaps: nat) returns (total: nat)
      requires Ready() && forall k :: 0 <= k < |order| ==> order[k] in CoordPairs(|season.schedule|, season.Courts())
      modifies season
      ensures Ready() && total >= swaps
      ensures score(season.schedule) + (total - swaps) <= old(score(season.schedule))
      ensures total == swaps ==> (season.schedule == old(season.schedule)
        && forall i :: 0 <= i < |order| ==> order[i].0.0 < |season.schedule| && order[i].1.0 < |season.schedule| && NoBetterSwitch(season.schedule, order[i].0, order[i].1))
    {
      ghost var s0 := season.schedule;
      var currentScore := score(season.schedule);
      total := swaps;
      for k := 0 to |order|
        invariant Ready() && currentScore == score(season.schedule) && currentScore + (total - swaps) <= score(s0) && total >= swaps
        invariant total == swaps ==> (season.schedule == s0
          && forall i :: 0 <= i < k ==> order[i].0.0 < |s0| && order[i].1.0 < |s0| && NoBetterSwitch(s0, order[i].0, order[i].1))
      {
        var (a, b) := order[k];
        SkipCorrectedDefined(season, a, b);
        var ok, s := TrySwitch(a, b, currentScore);
        if ok {
          total := total + 1;
        } else if total == swaps {
          forall i | 0 <= i < k + 1 ensures order[i].0.0 < |s0| && order[i].1.0 < |s0| && NoBetterSwitch(s0, order[i].0, order[i].1) {
            if i == k {
              assert NoBetterSwitch(s0, a, b);
            }
          }
        }
        currentScore := s;
      }
    }

    /**
     * `optimize_schedule_by_swapping_matches`: Move C over every pair of
     * slot coordinates, in the order of one shuffle; returns `swaps` plus
     * the accepted moves.
     */
    method OptimizeBySwappingMatches(swaps: nat) returns (total: nat)
      requires Ready() && IsShuffler(shuffle)
      modifies season, this
      ensures Ready() && draws == old(draws) + 1 && total >= swaps
      ensures score(season.schedule) + (total - swaps) <= old(score(season.schedule))
      ensures total == swaps ==> season.schedule == old(season.schedule) && SwitchOptimal(season.schedule)
    {
      var all := CoordPairs(|season.schedule|, season.Courts());
      var order := shuffle(draws, all);
      assert multiset(order) == multiset(all);
      forall k | 0 <= k < |order| ensures order[k] in all {
        assert order[k] in multiset(order);
      }
      draws := draws + 1;
      total := SwitchInOrder(order, swaps);
      if total == swaps {
        ghost var s := season.schedule;
        forall a: Coord, b: Coord | a.0 < |s| && a.1 < season.Courts() && b.0 < |s| && b.1 < season.Courts() && Before(a, b)
          ensures NoBetterSwitch(s, a, b)
        {
          CoordPairsMember(|s|, season.Courts(), a, b);
          assert (a, b) in multiset(order);
          var i :| 0 <= i < |order| && order[i] == (a, b);
        }
      }
    }

    /**
     * `optimize_schedule`: passes of Moves A, B and C until a pass accepts
     * nothing. The score drops with every pass that accepts a move, so the
     * loop stops, and the schedule it stops at is a local optimum of all
     * three moves. Returns the final score.
     */
    method OptimizeSchedule() returns (finalScore: nat)
      requires Ready() && IsShuffler(shuffle)
      modifies season, this
      ensures Ready() && finalScore == score(season.schedule) && finalScore <= old(score(season.schedule))
      ensures PairingOptimal(season.schedule) && SwapOptimal(season.schedule) && SwitchOptimal(season.schedule)
    {
      var swaps := 0;
      while true
        invariant Ready() && swaps == 0 && score(season.schedule) <= old(score(season.schedule))
        decreases score(season.schedule)
      {
        var a := OptimizeBySwappingPlayers(swaps);
        swaps := swaps + a;
        var c := OptimizeBySwappingMatches(swaps);
        swaps := swaps + c;
        if swaps > 0 {
          swaps := 0;
        } else {
          break;
        }
      }
      return score(season.schedule);
    }
  }
}
