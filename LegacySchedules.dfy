/**
 * Schedules of the earlier engine: a list of rounds that is valid when
 * every round is, the getters that list its matches, the match swap that
 * rolls back a failed exchange, and the factory that builds one round per
 * date.
 */
module LegacySchedules {
  import opened Wrappers
  import opened LegacyMatches
  import opened LegacyRounds

  /**
   * Why a schedule operation fails: a round operation failed (an index
   * outside a list, or a swap the round refused), or the schedule is not
   * valid (`NotValidSchedule`).
   */
  datatype ScheduleError = InRound(error: RoundError) | NotValidSchedule

  // The getters

  /** The row-major concatenation of lists of matches. */
  function Flatten(rows: seq<seq<Match>>): (r: seq<Match>)
    ensures forall m :: m in r <==> exists k :: 0 <= k < |rows| && m in rows[k]
  {
    if rows == [] then []
    else
      assert forall k :: 0 <= k < |rows| - 1 ==> rows[1..][k] == rows[k + 1];
      rows[0] + Flatten(rows[1..])
  }

  /** Flattening the rows of two schedules one after the other is flattening each and concatenating. */
  lemma {:induction false} FlattenAppend(a: seq<seq<Match>>, b: seq<seq<Match>>)
    ensures Flatten(a + b) == Flatten(a) + Flatten(b)
  {
    if a != [] {
      assert (a + b)[0] == a[0] && (a + b)[1..] == a[1..] + b;
      FlattenAppend(a[1..], b);
    } else {
      assert a + b == b;
    }
  }

  /** Match `j` of row `k` sits right after all the matches of the rows before it. */
  lemma FlattenIndex(rows: seq<seq<Match>>, k: nat, j: nat)
    requires k < |rows| && j < |rows[k]|
    ensures |Flatten(rows[..k])| + j < |Flatten(rows)|
    ensures Flatten(rows)[|Flatten(rows[..k])| + j] == rows[k][j]
  {
    assert rows == rows[..k] + ([rows[k]] + rows[k + 1..]);
    FlattenAppend(rows[..k], [rows[k]] + rows[k + 1..]);
    assert ([rows[k]] + rows[k + 1..])[1..] == rows[k + 1..];
  }

  /** The matches `keep` accepts, in their order. */
  function Filter(ms: seq<Match>, keep: Match -> bool): (r: seq<Match>)
    ensures |r| <= |ms|
  {
    if ms == [] then [] else (if keep(ms[0]) then [ms[0]] else []) + Filter(ms[1..], keep)
  }

  /** Filtering keeps every accepted match as often as it occurs, and no other. */
  lemma {:induction false} FilterCount(ms: seq<Match>, keep: Match -> bool)
    ensures forall m :: multiset(Filter(ms, keep))[m] == if keep(m) then multiset(ms)[m] else 0
  {
    if ms != [] {
      assert ms == [ms[0]] + ms[1..];
      FilterCount(ms[1..], keep);
    }
  }

  /** Filtering keeps the order: the filtered concatenation is the concatenation of the filtered parts. */
  lemma {:induction false} FilterAppend(a: seq<Match>, b: seq<Match>, keep: Match -> bool)
    ensures Filter(a + b, keep) == Filter(a, keep) + Filter(b, keep)
  {
    if a != [] {
      assert (a + b)[0] == a[0] && (a + b)[1..] == a[1..] + b;
      FilterAppend(a[1..], b, keep);
    } else {
      assert a + b == b;
    }
  }

  /**
   * For a two-player match, asking for a pair by set equality is asking for
   * both players, which is how the getter's tests phrase it.
   */
  lemma PairQuery(a: Player, b: Player, m: Match)
    requires a != b && |m.players| == 2
    ensures {a, b} == m.players <==> a in m.players && b in m.players
  {
    if a in m.players && b in m.players {
      var s := {a, b};
      PairSize(a, b);
      assert |m.players - s| == |m.players| - |m.players * s|;
      assert m.players * s == s;
      assert m.players - s == {};
      assert m.players == s;
    }
  }

  /** The match lists of a list of rounds, one row per round. */
  function MatchLists(rs: seq<Round>): (r: seq<seq<Match>>)
    reads rs
    ensures |r| == |rs| && forall k :: 0 <= k < |rs| ==> r[k] == rs[k].matches
  {
    if rs == [] then [] else [rs[0].matches] + MatchLists(rs[1..])
  }

  // The match swap

  /** The match lists of the two rounds a swap touches. */
  datatype Pair = Pair(first: seq<Match>, second: seq<Match>)

  /** Writes the first round; when both rounds are one object the second sees the same list. */
  function PutFirst(p: Pair, same: bool, ms: seq<Match>): (r: Pair)
    ensures r.first == ms && r.second == (if same then ms else p.second)
  {
    if same then Pair(ms, ms) else Pair(ms, p.second)
  }

  /** Writes the second round; when both rounds are one object the first sees the same list. */
  function PutSecond(p: Pair, same: bool, ms: seq<Match>): (r: Pair)
    ensures r.second == ms && r.first == (if same then ms else p.first)
  {
    if same then Pair(ms, ms) else Pair(p.first, ms)
  }

  /**
   * `swap_matches` on the two rounds it reads (`same` when they are one
   * object, as when both round indices agree): both slots are read, then
   * slot 1 is given match 2's players and slot 2 match 1's players; if
   * either `swap_players` fails, the original players are written back to
   * slot 1 and then to slot 2 and the first failure is raised again, unless
   * a write-back fails itself, whose failure is then raised instead.
   */
  function SwapMatchesEffect(p: Pair, same: bool, d1: Day, n1: int, d2: Day, n2: int, mi1: int, mi2: int): (r: (Result<(), RoundError>, Pair))
    requires same ==> p.first == p.second && d1 == d2 && n1 == n2
    ensures r.0 == Failure(IndexError) <==> Slot(mi1, |p.first|).None? || Slot(mi2, |p.second|).None?
    ensures r.0 == Failure(IndexError) ==> r.1 == p
    ensures same ==> r.1.first == r.1.second
    ensures |r.1.first| == |p.first| && |r.1.second| == |p.second|
    ensures r.0.Success? ==> RoundValid(r.1.first, d1, n1) && RoundValid(r.1.second, d2, n2)
  {
    match (Slot(mi1, |p.first|), Slot(mi2, |p.second|))
    case (None, _) => (Failure(IndexError), p)
    case (_, None) => (Failure(IndexError), p)
    case (Some(k1), Some(k2)) =>
      var m1, m2 := p.first[k1], p.second[k2];
      var (e1, s1) := SwapPlayersEffect(p.first, d1, n1, mi1, m2.players);
      var q1 := PutFirst(p, same, s1);
      var (e2, s2) := if e1.Success? then SwapPlayersEffect(q1.second, d2, n2, mi2, m1.players) else (e1, q1.second);
      var q2 := PutSecond(q1, same, s2);
      if e2.Success? then (Success(()), q2)
      else
        var (f1, t1) := SwapPlayersEffect(q2.first, d1, n1, mi1, m1.players);
        var q3 := PutFirst(q2, same, t1);
        if f1.Failure? then (f1, q3)
        else
          var (f2, t2) := SwapPlayersEffect(q3.second, d2, n2, mi2, m2.players);
          var q4 := PutSecond(q3, same, t2);
          if f2.Failure? then (f2, q4) else (e2, q4)
  }

  /**
   * Between two different rounds, a swap that goes through leaves slot 1
   * holding match 2's players on match 1's date and slot 2 holding match
   * 1's players on match 2's date, and every other slot as it was.
   */
  lemma SwapMatchesExchanges(p: Pair, d1: Day, n1: int, d2: Day, n2: int, mi1: int, mi2: int)
    requires Slot(mi1, |p.first|).Some? && Slot(mi2, |p.second|).Some?
    requires SwapMatchesEffect(p, false, d1, n1, d2, n2, mi1, mi2).0.Success?
    ensures var r := SwapMatchesEffect(p, false, d1, n1, d2, n2, mi1, mi2).1;
      var k1, k2 := Slot(mi1, |p.first|).value, Slot(mi2, |p.second|).value;
      && r.first[k1] == Match(p.second[k2].players, p.first[k1].date)
      && r.second[k2] == Match(p.first[k1].players, p.second[k2].date)
      && (forall k :: 0 <= k < |p.first| && k != k1 ==> r.first[k] == p.first[k])
      && (forall k :: 0 <= k < |p.second| && k != k2 ==> r.second[k] == p.second[k])
  {
  }

  /** Writing a match's own players back into a slot on its date succeeds and leaves that match there. */
  lemma WriteBack(ms: seq<Match>, date: Day, n: int, i: int, m: Match)
    requires Slot(i, |ms|).Some? && ms[Slot(i, |ms|).value].date == m.date
    requires Constructed(m) && RoundValid(ms[Slot(i, |ms|).value := m], date, n)
    ensures SwapPlayersEffect(ms, date, n, i, m.players) == (Success(()), ms[Slot(i, |ms|).value := m])
  {
  }

  /**
   * When both rounds are valid and the two slots hold proper matches, a
   * failed swap leaves both rounds as they were and raises the refusal of
   * the first `swap_players` that failed.
   */
  lemma SwapMatchesRestores(p: Pair, same: bool, d1: Day, n1: int, d2: Day, n2: int, mi1: int, mi2: int)
    requires same ==> p.first == p.second && d1 == d2 && n1 == n2
    requires RoundValid(p.first, d1, n1) && RoundValid(p.second, d2, n2)
    requires Slot(mi1, |p.first|).Some? && Slot(mi2, |p.second|).Some?
    requires Constructed(p.first[Slot(mi1, |p.first|).value]) && Constructed(p.second[Slot(mi2, |p.second|).value])
    ensures var r := SwapMatchesEffect(p, same, d1, n1, d2, n2, mi1, mi2);
      r.0.Failure? ==> r.1 == p && r.0.error in {MatchNotValid, SwapNotValid}
  {
    var k1, k2 := Slot(mi1, |p.first|).value, Slot(mi2, |p.second|).value;
    var m1, m2 := p.first[k1], p.second[k2];
    assert p.first[k1 := m1] == p.first;
    assert p.second[k2 := m2] == p.second;
    WriteBack(p.second, d2, n2, mi2, m2);
    var s1 := SwapPlayersEffect(p.first, d1, n1, mi1, m2.players).1;
    assert s1[k1 := m1] == p.first;
    WriteBack(s1, d1, n1, mi1, m1);
  }

  /**
   * Two different slots of one round cannot be swapped: the first write
   * puts match 2's players in the round twice, so nothing changes.
   */
  lemma SwapWithinRoundFails(ms: seq<Match>, d: Day, n: int, mi1: int, mi2: int)
    requires RoundValid(ms, d, n)
    requires Slot(mi1, |ms|).Some? && Slot(mi2, |ms|).Some? && Slot(mi1, |ms|) != Slot(mi2, |ms|)
    requires Constructed(ms[Slot(mi1, |ms|).value]) && Constructed(ms[Slot(mi2, |ms|).value])
    ensures SwapMatchesEffect(Pair(ms, ms), true, d, n, d, n, mi1, mi2) == (Failure(SwapNotValid), Pair(ms, ms))
  {
    var k1, k2 := Slot(mi1, |ms|).value, Slot(mi2, |ms|).value;
    var m1, m2 := ms[k1], ms[k2];
    var t := ms[k1 := Match(m2.players, d)];
    assert m2.players != {};
    var x :| x in m2.players;
    assert !Disjoint(t) by {
      if k1 < k2 {
        assert x in t[k1].players && x in t[k2].players;
      } else {
        assert x in t[k2].players && x in t[k1].players;
      }
    }
    assert SwapPlayersEffect(ms, d, n, mi1, m2.players) == (Failure(SwapNotValid), ms);
    assert ms[k1 := m1] == ms && ms[k2 := m2] == ms;
    WriteBack(ms, d, n, mi1, m1);
    WriteBack(ms, d, n, mi2, m2);
  }

  /** Swapping a slot of a valid round with itself succeeds and changes nothing. */
  lemma SwapWithItself(ms: seq<Match>, d: Day, n: int, mi1: int, mi2: int)
    requires RoundValid(ms, d, n)
    requires Slot(mi1, |ms|).Some? && Slot(mi1, |ms|) == Slot(mi2, |ms|)
    requires Constructed(ms[Slot(mi1, |ms|).value])
    ensures SwapMatchesEffect(Pair(ms, ms), true, d, n, d, n, mi1, mi2) == (Success(()), Pair(ms, ms))
  {
    var k := Slot(mi1, |ms|).value;
    assert ms[k := ms[k]] == ms;
    WriteBack(ms, d, n, mi1, ms[k]);
    WriteBack(ms, d, n, mi2, ms[k]);
  }

  /** At least two players per court can play on `d`. */
  predicate Feasible(players: seq<Player>, d: Day, numCourts: int) {
    0 <= numCourts && 2 * numCourts <= |AvailableSet(players, d)|
  }

  /** Every date has at least two players per court who can play. */
  predicate Schedulable(players: seq<Player>, dates: seq<Day>, numCourts: int) {
    forall k :: 0 <= k < |dates| ==> Feasible(players, dates[k], numCourts)
  }

  /** A schedule: rounds whose match lists the swap overwrites in place, and the players. */
  class Schedule {
    const rounds: seq<Round>
    const players: set<Player>

    /** `Schedule.__init__`: stores its arguments and checks nothing. */
    constructor(rs: seq<Round>, ps: set<Player>)
      ensures rounds == rs && players == ps
    {
      rounds := rs;
      players := ps;
    }

    /** Every round is valid. */
    predicate Valid()
      reads this, rounds
    {
      forall k :: 0 <= k < |rounds| ==> rounds[k].Valid()
    }

    /** `is_valid`: the rounds in turn, stopping at the first invalid one. */
    method IsValid() returns (ok: bool)
      ensures ok == Valid()
    {
      for k := 0 to |rounds|
        invariant forall j :: 0 <= j < k ==> rounds[j].Valid()
      {
        var valid := rounds[k].IsValid();
        if !valid {
          return false;
        }
      }
      return true;
    }

    /** `get_matches`: every match, round by round (`FlattenIndex` says where each one lands). */
    function GetMatches(): (r: seq<Match>)
      reads this, rounds
      ensures forall m :: m in r <==> exists k :: 0 <= k < |rounds| && m in rounds[k].matches
    {
      Flatten(MatchLists(rounds))
    }

    /** `get_matches_of_player`: the matches the player is in, each as often as in the schedule. */
    function GetMatchesOfPlayer(p: Player): (r: seq<Match>)
      reads this, rounds
      ensures forall m :: multiset(r)[m] == if p in m.players then multiset(GetMatches())[m] else 0
      ensures (forall k :: 0 <= k < |rounds| ==> p !in PlayersOf(rounds[k].matches)) ==> r == []
    {
      var r := Filter(GetMatches(), (m: Match) => p in m.players);
      FilterCount(GetMatches(), (m: Match) => p in m.players);
      if forall k :: 0 <= k < |rounds| ==> p !in PlayersOf(rounds[k].matches) then
        assert forall m :: m in GetMatches() ==> p !in m.players;
        assert forall m :: multiset(r)[m] == 0;
        r
      else
        r
    }

    /** `get_matches_of_players`: the matches of exactly these players, each as often as in the schedule. */
    function GetMatchesOfPlayers(ps: set<Player>): (r: seq<Match>)
      reads this, rounds
      ensures forall m :: multiset(r)[m] == if m.players == ps then multiset(GetMatches())[m] else 0
    {
      FilterCount(GetMatches(), (m: Match) => m.players == ps);
      Filter(GetMatches(), (m: Match) => m.players == ps)
    }

    /**
     * `swap_matches`: see `SwapMatchesEffect`; after a swap that went
     * through, the whole schedule is checked and `NotValidSchedule` raised,
     * without rolling back, if some round is invalid.
     */
    method SwapMatches(ri1: int, mi1: int, ri2: int, mi2: int) returns (res: Result<(), ScheduleError>)
      modifies rounds
      ensures Slot(ri1, |rounds|).None? || Slot(ri2, |rounds|).None? ==>
        res == Failure(InRound(IndexError)) && forall k :: 0 <= k < |rounds| ==> rounds[k].matches == old(rounds[k].matches)
      ensures Slot(ri1, |rounds|).Some? && Slot(ri2, |rounds|).Some? ==>
        var r1, r2 := rounds[Slot(ri1, |rounds|).value], rounds[Slot(ri2, |rounds|).value];
        var e := SwapMatchesEffect(Pair(old(r1.matches), old(r2.matches)), r1 == r2, r1.date, r1.numMatches, r2.date, r2.numMatches, mi1, mi2);
        && r1.matches == e.1.first && r2.matches == e.1.second
        && (forall k :: 0 <= k < |rounds| && rounds[k] != r1 && rounds[k] != r2 ==> rounds[k].matches == old(rounds[k].matches))
        && res == (if e.0.Failure? then Failure(InRound(e.0.error)) else if Valid() then Success(()) else Failure(NotValidSchedule))
    {
      var s1 := Slot(ri1, |rounds|);
      var s2 := Slot(ri2, |rounds|);
      if s1.None? || s2.None? {
        return Failure(InRound(IndexError));
      }
      var round1, round2 := rounds[s1.value], rounds[s2.value];
      ghost var same := round1 == round2;
      ghost var p := Pair(round1.matches, round2.matches);
      var k1 := Slot(mi1, |round1.matches|);
      var k2 := Slot(mi2, |round2.matches|);
      if k1.None? || k2.None? {
        return Failure(InRound(IndexError));
      }
      var match1, match2 := round1.matches[k1.value], round2.matches[k2.value];
      var e := round1.SwapPlayers(mi1, match2.players);
      if e.Success? {
        e := round2.SwapPlayers(mi2, match1.players);
      }
      if e.Failure? {
        var f := round1.SwapPlayers(mi1, match1.players);
        if f.Failure? {
          return Failure(InRound(f.error));
        }
        f := round2.SwapPlayers(mi2, match2.players);
        if f.Failure? {
          return Failure(InRound(f.error));
        }
        return Failure(InRound(e.error));
      }
      var valid := IsValid();
      if !valid {
        return Failure(NotValidSchedule);
      }
      return Success(());
    }
  }

  /**
   * `generate_valid_schedule`: one generated round per date, in order, or
   * `NotValidSchedule` at the first date without one. The final validity
   * check always passes, since every generated round is valid.
   */
  method GenerateValidSchedule(players: seq<Player>, dates: seq<Day>, numCourts: int) returns (res: Result<Schedule, ScheduleError>)
    ensures res.Success? <==> Schedulable(players, dates, numCourts)
    ensures res.Success? ==> var s := res.value;
      && fresh(s) && s.players == (set p | p in players) && |s.rounds| == |dates| && s.Valid()
      && forall k :: 0 <= k < |dates| ==> (fresh(s.rounds[k]) && s.rounds[k].date == dates[k] && s.rounds[k].numMatches == numCourts
        && s.rounds[k].matches == Proposed(players, dates[k], numCourts))
    ensures res.Failure? ==> res.error == NotValidSchedule
  {
    var rounds: seq<Round> := [];
    for k := 0 to |dates|
      invariant |rounds| == k
      invariant forall j :: 0 <= j < k ==> (fresh(rounds[j]) && rounds[j].date == dates[j] && rounds[j].numMatches == numCourts
        && rounds[j].matches == Proposed(players, dates[j], numCourts))
      invariant forall j :: 0 <= j < k ==> Feasible(players, dates[j], numCourts)
      invariant forall j :: 0 <= j < k ==> rounds[j].Valid()
    {
      GreedySucceedsIff(players, dates[k], numCourts);
      var r := GenerateValidRound(players, dates[k], numCourts);
      if r.Failure? {
        return Failure(NotValidSchedule);
      }
      rounds := rounds + [r.value];
    }
    var s := new Schedule(rounds, set p | p in players);
    var valid := s.IsValid();
    res := if valid then Success(s) else Failure(NotValidSchedule);
  }
}
