/**
 * The current engine's `Season`: the weekly dates, the generated schedule,
 * the indices of its partial rounds (`fixed_rounds`), and the guarded
 * operations that change the schedule in place and roll back on failure.
 */
module Seasons {
  import opened Wrappers
  import opened Players
  import opened Matches
  import opened Indices
  import opened Rounds
  import opened Randomness
  import opened Generation

  class Season {
    const players: seq<Player>
    const start: Day
    const end: Day
    const numCourts: int
    const excludedDates: seq<Day>
    const dates: seq<Day>
    const fixedRounds: seq<nat>
    /** The schedule as generated, before any operation changed it. */
    ghost const generated: Schedule
    var schedule: Schedule

    /** The courts `range(num_courts)` visits: none for a negative count. */
    function Courts(): (r: nat)
      ensures r == numCourts || (numCourts < 0 && r == 0)
    {
      if numCourts < 0 then 0 else numCourts
    }

    /** A match of roster players in canonical form. */
    predicate WellFormed(m: Match) {
      Canonical(m) && m.first < |players| && (m.second.Some? ==> m.second.value < |players|)
    }

    /** A round is well formed exactly when it is canonical and names roster players only. */
    lemma WellFormedRound(round: Round)
      ensures (forall i :: 0 <= i < |round| ==> WellFormed(round[i]))
        <==> (AllCanonical(round) && forall i, x :: 0 <= i < |round| && x in Members(round[i]) ==> x < |players|)
    {
      if forall i, x :: 0 <= i < |round| && x in Members(round[i]) ==> x < |players| {
        forall i | 0 <= i < |round| ensures round[i].first < |players| && (round[i].second.Some? ==> round[i].second.value < |players|) {
          assert round[i].first in Members(round[i]);
          if round[i].second.Some? {
            assert round[i].second.value in Members(round[i]);
          }
        }
      }
    }

    /**
     * What generation established and nothing changes: one generated round
     * per date, as generation guarantees it, and `fixedRounds` listing
     * exactly the partial ones.
     */
    ghost predicate Generated() {
      && |generated| == |dates|
      && (forall k :: 0 <= k < |fixedRounds| ==> fixedRounds[k] < |dates|)
      && (forall i :: 0 <= i < |dates| ==> GeneratedRound(generated[i], players, numCourts, dates[i]))
      && (forall i: nat :: i in fixedRounds <==> i < |dates| && IsPartialDate(players, numCourts, dates[i]))
    }

    /**
     * The season's invariant: one round per date, canonical matches of
     * roster players, `numCourts` matches in every round that is not fixed,
     * and the fixed rounds exactly as they were generated.
     */
    ghost predicate Valid()
      reads this
    {
      && Generated()
      && |schedule| == |dates|
      && (forall r, m :: 0 <= r < |schedule| && 0 <= m < |schedule[r]| ==> WellFormed(schedule[r][m]))
      && (forall r: nat :: r < |schedule| && r !in fixedRounds ==> |schedule[r]| == numCourts)
      && (forall r: nat :: r < |schedule| && r in fixedRounds ==> schedule[r] == generated[r])
    }

    /** `check_if_round_is_valid` for a round on date `d`: `2 * numCourts` players, all available. */
    predicate RoundOk(round: Round, d: Day) {
      && |RoundPlayers(round)| == 2 * numCourts
      && forall p :: p in RoundPlayers(round) ==> p < |players| && CanPlay(players[p], d)
    }

    /** `check_if_round_is_valid(r)` on the current schedule. */
    predicate CheckIfRoundIsValid(r: nat)
      reads this
      requires r < |schedule| && r < |dates|
    {
      RoundOk(schedule[r], dates[r])
    }

    /** Every round of `s` that is not fixed passes the check on its date. */
    predicate OpenValidOn(s: Schedule) {
      forall r: nat :: r < |s| && r < |dates| && r !in fixedRounds ==> RoundOk(s[r], dates[r])
    }

    /** Every round that is not fixed passes `check_if_round_is_valid`. */
    ghost predicate OpenRoundsValid()
      reads this
    {
      OpenValidOn(schedule)
    }

    /** Changing at most two rounds, each to one that passes the check, keeps the open rounds valid. */
    lemma OpenValidAfter(s: Schedule, t: Schedule, r1: nat, r2: nat)
      requires OpenValidOn(s) && |t| == |s|
      requires forall r :: 0 <= r < |s| && r != r1 && r != r2 ==> t[r] == s[r]
      requires r1 < |t| && r1 < |dates| && r1 !in fixedRounds ==> RoundOk(t[r1], dates[r1])
      requires r2 < |t| && r2 < |dates| && r2 !in fixedRounds ==> RoundOk(t[r2], dates[r2])
      ensures OpenValidOn(t)
    {
    }

    /**
     * For `numCourts` canonical games, the check holds exactly when no
     * player is in two of them and all of them can play on the date.
     */
    lemma FullRoundValidIff(round: Round, d: Day)
      requires |round| == numCourts && AllCanonical(round)
      requires forall i :: 0 <= i < |round| ==> round[i].second.Some?
      ensures RoundOk(round, d) <==> PairwiseDisjoint(round) && forall p :: p in RoundPlayers(round) ==> p < |players| && CanPlay(players[p], d)
    {
      GamesHaveTwoPlayers(round);
      RoundPlayersCount(round);
    }

    /** A round that passes the check and has `numCourts` matches has no player twice. */
    lemma RoundOkDisjoint(round: Round, d: Day)
      requires |round| == numCourts && RoundOk(round, d)
      ensures PairwiseDisjoint(round) && AllGames(round)
    {
      RoundPlayersCount(round);
    }

    /**
     * Exchanging a player of one match with a player of another match of a
     * round that passes the check raises nothing, keeps the round passing
     * it, and exchanging the same two players again restores the round.
     */
    lemma SwapAcrossKeepsRound(round: Round, d: Day, m1: nat, m2: nat, p: PlayerId, q: PlayerId)
      requires |round| == numCourts && RoundOk(round, d) && forall i :: 0 <= i < |round| ==> WellFormed(round[i])
      requires m1 < m2 < |round| && p in Members(round[m1]) && q in Members(round[m2])
      ensures p < |players| && q < |players|
      ensures !SwapEach(round, p, q).1 && RoundOk(SwapEach(round, p, q).0, d)
      ensures SwapEach(SwapEach(round, p, q).0, p, q) == (round, false)
    {
      RoundOkDisjoint(round, d);
      assert WellFormed(round[m1]) && WellFormed(round[m2]);
      SwapAcrossMatches(round, p, q, m1, m2);
      SwapEachTwice(round, p, q);
    }

    /** A partial round never passes the check: it has fewer than `2 * numCourts` players. */
    lemma PartialRoundFailsCheck(round: Round, d: Day)
      requires IsPartialDate(players, numCourts, d) && PartialRound(round, players, d)
      ensures !RoundOk(round, d)
    {
      EligibleSetSize(players, d);
    }

    /** What generation guarantees makes the schedule valid and every open round pass the check. */
    lemma GeneratedRoundFacts(round: Round, d: Day)
      requires GeneratedRound(round, players, numCourts, d)
      ensures forall m :: 0 <= m < |round| ==> WellFormed(round[m])
      ensures !IsPartialDate(players, numCourts, d) ==> |round| == numCourts && RoundOk(round, d)
    {
      assert AllCanonical(round) && forall p :: p in RoundPlayers(round) ==> p in EligibleSet(players, d);
      forall m | 0 <= m < |round| ensures WellFormed(round[m]) {
        assert Canonical(round[m]);
        assert round[m].first in RoundPlayers(round);
        if round[m].second.Some? {
          assert round[m].second.value in RoundPlayers(round);
        }
      }
      if !IsPartialDate(players, numCourts, d) {
        FullRoundValidIff(round, d);
      }
    }

    /**
     * The constructor on the inputs for which it does not raise (`NewSeason`
     * models the raise): the weekly dates from `start` to `end` without the
     * excluded ones, and one generated round per date, with `fixedRounds`
     * the increasing list of the partial ones. Times, title and cost are
     * left out.
     */
    constructor (players: seq<Player>, start: Day, end: Day, numCourts: int, excludedDates: seq<Day>,
                 shuffle: (nat, seq<PlayerId>) -> seq<PlayerId>)
      requires IsShuffler(shuffle)
      requires numCourts >= 0 || SeasonDates(start, end, excludedDates) == []
      ensures this.players == players && this.start == start && this.end == end
      ensures this.numCourts == numCourts && this.excludedDates == excludedDates
      ensures dates == SeasonDates(start, end, excludedDates)
      ensures schedule == generated
      ensures forall k :: 0 <= k < |fixedRounds| - 1 ==> fixedRounds[k] < fixedRounds[k + 1]
      ensures Valid() && OpenRoundsValid()
    {
      var ds := WeeklyDates(start, end, excludedDates);
      var res := GenerateSchedule(players, numCourts, ds, shuffle);
      var (s, f) := res.value;
      this.players, this.start, this.end := players, start, end;
      this.numCourts, this.excludedDates := numCourts, excludedDates;
      dates, fixedRounds := ds, f;
      generated := s;
      schedule := s;
      new;
      forall i | 0 <= i < |s| ensures (forall m :: 0 <= m < |s[i]| ==> WellFormed(s[i][m])) && (i !in f ==> |s[i]| == numCourts && RoundOk(s[i], ds[i])) {
        GeneratedRoundFacts(s[i], ds[i]);
      }
      forall k | 0 <= k < |f| ensures f[k] < |ds| {
        assert f[k] in f;
      }
    }

    /** `change_match`: put `newMatch` at `(r, m)` unless the round is fixed, keeping it only if the round stays valid. */
    method ChangeMatch(r: nat, m: nat, newMatch: Match) returns (ok: bool)
      requires Valid() && r < |schedule| && m < |schedule[r]| && WellFormed(newMatch)
      modifies this
      ensures Valid()
      ensures ok <==> r !in fixedRounds && RoundOk(old(schedule)[r][m := newMatch], dates[r])
      ensures schedule == if ok then old(schedule)[r := old(schedule)[r][m := newMatch]] else old(schedule)
    {
      if r in fixedRounds {
        return false;
      }
      var previous := schedule[r][m];
      schedule := schedule[r := schedule[r][m := newMatch]];
      if CheckIfRoundIsValid(r) {
        return true;
      }
      schedule := schedule[r := schedule[r][m := previous]];
      assert schedule[r] == old(schedule)[r];
      return false;
    }

    /** `check_schedule_is_valid`: every round of the schedule passes the check. */
    method CheckScheduleIsValid() returns (ok: bool)
      requires |schedule| == |dates|
      ensures ok <==> forall i: nat :: i < |schedule| ==> CheckIfRoundIsValid(i)
    {
      for i := 0 to |schedule|
        invariant forall j: nat :: j < i ==> CheckIfRoundIsValid(j)
      {
        var valid := CheckIfRoundIsValid(i);
        if !valid {
          return false;
        }
      }
      return true;
    }

    /** A season with a partial round never passes `check_schedule_is_valid`. */
    lemma PartialSeasonFailsCheck(r: nat)
      requires Valid() && r in fixedRounds
      ensures r < |schedule| && !CheckIfRoundIsValid(r)
    {
      PartialRoundFailsCheck(schedule[r], dates[r]);
    }

    /**
     * `swap_players_of_existing_matches`: on a round that is not fixed,
     * exchange `p` and `q` in every match in turn; a match holding both
     * raises `ValueError` (`Failure`) and leaves the rest of the round as it
     * was, the matches before it already swapped.
     */
    method SwapPlayersOfExistingMatches(r: nat, p: PlayerId, q: PlayerId) returns (res: Result<bool, MatchError>)
      requires Valid() && r < |schedule| && p < |players| && q < |players|
      modifies this
      ensures Valid()
      ensures r in fixedRounds ==> res == Success(false) && schedule == old(schedule)
      ensures r !in fixedRounds ==>
        && schedule == old(schedule)[r := SwapEach(old(schedule)[r], p, q).0]
        && res == if SwapEach(old(schedule)[r], p, q).1 then Failure(SamePlayer) else Success(true)
    {
      if r in fixedRounds {
        return Success(false);
      }
      var round, raised := SwapRound(schedule[r], p, q);
      WellFormedRound(schedule[r]);
      SwapEachBounded(schedule[r], p, q, |players|);
      WellFormedRound(round);
      schedule := schedule[r := round];
      return if raised then Failure(SamePlayer) else Success(true);
    }

    /**
     * `switch_matches`: exchange the matches at two coordinates unless a
     * round is fixed, keeping the exchange only if both rounds stay valid;
     * otherwise the same exchange is applied again, which restores them.
     */
    method SwitchMatches(r1: nat, m1: nat, r2: nat, m2: nat) returns (ok: bool)
      requires Valid() && r1 < |schedule| && m1 < |schedule[r1]| && r2 < |schedule| && m2 < |schedule[r2]|
      modifies this
      ensures Valid()
      ensures ok <==> (r1 !in fixedRounds && r2 !in fixedRounds
        && RoundOk(Switched(old(schedule), r1, m1, r2, m2)[r1], dates[r1])
        && RoundOk(Switched(old(schedule), r1, m1, r2, m2)[r2], dates[r2]))
      ensures schedule == if ok then Switched(old(schedule), r1, m1, r2, m2) else old(schedule)
    {
      if r1 in fixedRounds || r2 in fixedRounds {
        return false;
      }
      SwitchedEffect(schedule, r1, m1, r2, m2);
      schedule := Switched(schedule, r1, m1, r2, m2);
      if CheckIfRoundIsValid(r1) && CheckIfRoundIsValid(r2) {
        return true;
      }
      SwitchedTwice(old(schedule), r1, m1, r2, m2);
      schedule := Switched(schedule, r1, m1, r2, m2);
      return false;
    }
  }

  /**
   * `Season(...)` as a caller sees it: a negative court count raises the
   * `ValueError` of round generation once there is a date, and otherwise
   * the constructor runs.
   */
  method NewSeason(players: seq<Player>, start: Day, end: Day, numCourts: int, excludedDates: seq<Day>,
                   shuffle: (nat, seq<PlayerId>) -> seq<PlayerId>) returns (res: Result<Season, GenerationError>)
    requires IsShuffler(shuffle)
    ensures res.Failure? <==> numCourts < 0 && SeasonDates(start, end, excludedDates) != []
    ensures res.Success? ==> fresh(res.value) && res.value.Valid() && res.value.OpenRoundsValid()
    ensures res.Success? ==> res.value.players == players && res.value.numCourts == numCourts
    ensures res.Success? ==> res.value.dates == SeasonDates(start, end, excludedDates) && res.value.schedule == res.value.generated
  {
    var ds := WeeklyDates(start, end, excludedDates);
    if numCourts < 0 && ds != [] {
      return Failure(RoundTooShort);
    }
    var season := new Season(players, start, end, numCourts, excludedDates, shuffle);
    return Success(season);
  }

  /**
   * The schedule part of `from_dict`: every stored pair is passed through
   * `create_match`, so a stored pair of one player twice raises.
   */
  function RebuildRound(row: seq<Match>): (r: Result<Round, MatchError>)
    ensures r.Failure? <==> exists j :: 0 <= j < |row| && row[j].second == Some(row[j].first)
    ensures r.Success? ==> |r.value| == |row| && forall j :: 0 <= j < |row| ==>
      Canonical(r.value[j]) && Members(r.value[j]) == Members(row[j]) && r.value[j].second.None? == row[j].second.None?
  {
    if row == [] then Success([])
    else
      match CreateMatch(row[0].first, row[0].second)
      case Failure(e) => Failure(e)
      case Success(m) =>
        match RebuildRound(row[1..])
        case Failure(e) =>
          assert exists j :: 0 <= j < |row| - 1 && row[1..][j].second == Some(row[1..][j].first);
          var j :| 0 <= j < |row| - 1 && row[1..][j].second == Some(row[1..][j].first);
          assert row[j + 1] == row[1..][j];
          Failure(e)
        case Success(rest) =>
          assert forall j :: 1 <= j < |row| ==> row[j] == row[1..][j - 1];
          Success([m] + rest)
  }

  /** The schedule part of `from_dict`, row by row. */
  function RebuildSchedule(rows: seq<seq<Match>>): (r: Result<Schedule, MatchError>)
    ensures r.Failure? <==> exists i :: 0 <= i < |rows| && RebuildRound(rows[i]).Failure?
    ensures r.Success? ==> |r.value| == |rows| && forall i :: 0 <= i < |rows| ==> Success(r.value[i]) == RebuildRound(rows[i])
  {
    if rows == [] then Success([])
    else
      match RebuildRound(rows[0])
      case Failure(e) => Failure(e)
      case Success(first) =>
        match RebuildSchedule(rows[1..])
        case Failure(e) =>
          var i :| 0 <= i < |rows| - 1 && RebuildRound(rows[1..][i]).Failure?;
          assert rows[i + 1] == rows[1..][i];
          Failure(e)
        case Success(rest) =>
          assert forall i :: 1 <= i < |rows| ==> rows[i] == rows[1..][i - 1];
          Success([first] + rest)
  }

  /** Rebuilding a row of canonical matches gives the row back. */
  lemma {:induction false} RoundTripRow(row: Round)
    requires AllCanonical(row)
    ensures RebuildRound(row) == Success(row)
    decreases |row|
  {
    if row != [] {
      CreateMatchIdempotent(row[0]);
      assert AllCanonical(row[1..]) by {
        forall j | 0 <= j < |row| - 1 ensures Canonical(row[1..][j]) { assert row[1..][j] == row[j + 1]; }
      }
      RoundTripRow(row[1..]);
      assert [row[0]] + row[1..] == row;
    }
  }

  /**
   * `to_dict` stores the schedule itself; rebuilding it with `from_dict`
   * gives back exactly a schedule of canonical matches.
   */
  lemma {:induction false} RoundTrip(s: Schedule)
    requires forall i :: 0 <= i < |s| ==> AllCanonical(s[i])
    ensures RebuildSchedule(s) == Success(s)
    decreases |s|
  {
    if s != [] {
      RoundTripRow(s[0]);
      assert forall i :: 0 <= i < |s| - 1 ==> s[1..][i] == s[i + 1];
      RoundTrip(s[1..]);
      assert [s[0]] + s[1..] == s;
    }
  }

  /** The schedule of a valid season survives the round trip. */
  lemma SeasonRoundTrip(season: Season)
    requires season.Valid()
    ensures RebuildSchedule(season.schedule) == Success(season.schedule)
  {
    forall i | 0 <= i < |season.schedule| ensures AllCanonical(season.schedule[i]) {
      assert forall m :: 0 <= m < |season.schedule[i]| ==> season.WellFormed(season.schedule[i][m]);
    }
    RoundTrip(season.schedule);
  }
}
