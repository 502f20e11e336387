/**
 * Rounds of the earlier engine: a list of matches on one date that is
 * valid when it has the expected number of matches, no player twice, and
 * every match on the round's date; plus the swaps that overwrite slots in
 * place and roll back, and the greedy round generator.
 */
module LegacyRounds {
  import opened Wrappers
  import opened LegacyMatches

  /**
   * Why a round operation fails: an index outside the list (`IndexError`),
   * a replacement the match constructor refuses or a swap that leaves the
   * round invalid (both `NotValidSwapError`), or no valid round could be
   * generated (`NotValidRoundError`).
   */
  datatype RoundError = IndexError | MatchNotValid | SwapNotValid | NoValidRound

  /** Python list indexing: `-n <= i < 0` counts from the end, anything else outside `[0, n)` is an `IndexError`. */
  function Slot(i: int, n: nat): (r: Option<nat>)
    ensures r.Some? <==> -(n as int) <= i < n
    ensures r.Some? ==> r.value < n && (r.value == i || r.value == n + i)
  {
    if 0 <= i < n then Some(i) else if -(n as int) <= i < 0 then Some(n + i) else None
  }

  /** `get_players`: every player of every match. */
  function PlayersOf(ms: seq<Match>): (r: set<Player>)
    ensures forall p :: p in r <==> exists k :: 0 <= k < |ms| && p in ms[k].players
  {
    if ms == [] then {}
    else
      var init := ms[..|ms| - 1];
      assert forall k :: 0 <= k < |init| ==> init[k] == ms[k];
      PlayersOf(init) + ms[|ms| - 1].players
  }

  /** No player is in two matches. */
  predicate Disjoint(ms: seq<Match>) {
    forall a, b :: 0 <= a < b < |ms| ==> ms[a].players !! ms[b].players
  }

  /** `Round.is_valid`: the expected number of matches, no player twice, and every match on the round's date. */
  predicate RoundValid(ms: seq<Match>, date: Day, n: int) {
    |ms| == n && Disjoint(ms) && forall k :: 0 <= k < |ms| ==> ms[k].date == date
  }

  /** A match joins a list without a repeated player exactly when it shares nobody with the list. */
  lemma DisjointAppend(ms: seq<Match>, m: Match)
    ensures Disjoint(ms + [m]) <==> Disjoint(ms) && PlayersOf(ms) !! m.players
  {
    var t := ms + [m];
    assert forall k :: 0 <= k < |ms| ==> t[k] == ms[k];
    if Disjoint(t) {
      forall p | p in PlayersOf(ms) ensures p !in m.players {
        var k :| 0 <= k < |ms| && p in ms[k].players;
        assert t[k].players !! t[|ms|].players;
      }
    }
  }

  /** With no player twice, the round's player set is as large as all its matches together. */
  lemma {:induction false} DisjointPlayerCount(ms: seq<Match>)
    requires Disjoint(ms) && forall k :: 0 <= k < |ms| ==> |ms[k].players| == 2
    ensures |PlayersOf(ms)| == 2 * |ms|
    decreases |ms|
  {
    if ms != [] {
      var init := ms[..|ms| - 1];
      assert ms == init + [ms[|ms| - 1]];
      DisjointAppend(init, ms[|ms| - 1]);
      DisjointPlayerCount(init);
    }
  }

  /** The players of `a` with those of `s` toggled: `set.symmetric_difference`. */
  function Toggled(a: set<Player>, s: set<Player>): (r: set<Player>)
    ensures forall p :: p in r <==> (p in a) != (p in s)
  {
    (a - s) + (s - a)
  }

  /**
   * `swap_players`: slot `i` is replaced by a new match of `players` on the
   * date of the match it replaces; a refused match, or a round that is no
   * longer valid, fails and leaves the list as it was.
   */
  function SwapPlayersEffect(ms: seq<Match>, date: Day, n: int, i: int, players: set<Player>): (r: (Result<(), RoundError>, seq<Match>))
    ensures r.0.Failure? ==> r.1 == ms
    ensures r.0 == Failure(IndexError) <==> Slot(i, |ms|).None?
    ensures r.0.Success? <==> (Slot(i, |ms|).Some? && Admissible(players, ms[Slot(i, |ms|).value].date)
      && RoundValid(ms[Slot(i, |ms|).value := Match(players, ms[Slot(i, |ms|).value].date)], date, n))
    ensures r.0.Success? ==> (RoundValid(r.1, date, n) && |r.1| == |ms|
      && r.1[Slot(i, |ms|).value] == Match(players, ms[Slot(i, |ms|).value].date)
      && forall k :: 0 <= k < |ms| && k != Slot(i, |ms|).value ==> r.1[k] == ms[k])
  {
    match Slot(i, |ms|)
    case None => (Failure(IndexError), ms)
    case Some(k) =>
      match Construct(players, ms[k].date)
      case None => (Failure(MatchNotValid), ms)
      case Some(m) =>
        if RoundValid(ms[k := m], date, n) then (Success(()), ms[k := m]) else (Failure(SwapNotValid), ms)
  }

  /**
   * `swap_players_of_existing_matches`: both slots are read first, then
   * both new matches (each the old players toggled by `players`, on the
   * round's date) are built, then both are written; a refused match fails
   * before anything is written, and an invalid result is rolled back.
   */
  function SwapExistingEffect(ms: seq<Match>, date: Day, n: int, i1: int, i2: int, players: set<Player>): (r: (Result<(), RoundError>, seq<Match>))
    ensures r.0.Failure? ==> r.1 == ms
    ensures r.0 == Failure(IndexError) <==> Slot(i1, |ms|).None? || Slot(i2, |ms|).None?
    ensures r.0.Success? <==> (Slot(i1, |ms|).Some? && Slot(i2, |ms|).Some?
      && Admissible(Toggled(ms[Slot(i1, |ms|).value].players, players), date)
      && Admissible(Toggled(ms[Slot(i2, |ms|).value].players, players), date)
      && RoundValid(ms[Slot(i1, |ms|).value := Match(Toggled(ms[Slot(i1, |ms|).value].players, players), date)]
                      [Slot(i2, |ms|).value := Match(Toggled(ms[Slot(i2, |ms|).value].players, players), date)], date, n))
    ensures r.0.Success? ==> RoundValid(r.1, date, n) && |r.1| == |ms|
    ensures r.0.Success? ==>
      var k1, k2 := Slot(i1, |ms|).value, Slot(i2, |ms|).value;
      && r.1[k1] == Match(Toggled(ms[k1].players, players), date)
      && r.1[k2] == Match(Toggled(ms[k2].players, players), date)
      && forall k :: 0 <= k < |ms| && k != k1 && k != k2 ==> r.1[k] == ms[k]
  {
    match (Slot(i1, |ms|), Slot(i2, |ms|))
    case (None, _) => (Failure(IndexError), ms)
    case (_, None) => (Failure(IndexError), ms)
    case (Some(k1), Some(k2)) =>
      match (Construct(Toggled(ms[k1].players, players), date), Construct(Toggled(ms[k2].players, players), date))
      case (None, _) => (Failure(MatchNotValid), ms)
      case (_, None) => (Failure(MatchNotValid), ms)
      case (Some(m1), Some(m2)) =>
        var t := ms[k1 := m1][k2 := m2];
        if RoundValid(t, date, n) then (Success(()), t) else (Failure(SwapNotValid), ms)
  }

  /** Writing two slots and then their old matches back, in the same order, restores the list. */
  lemma RestoreTwoSlots(ms: seq<Match>, k1: nat, k2: nat, m1: Match, m2: Match)
    requires k1 < |ms| && k2 < |ms|
    ensures ms[k1 := m1][k2 := m2][k1 := ms[k1]][k2 := ms[k2]] == ms
  {
  }

  /**
   * Exchanging a player of one match with a player of another toggles the
   * two players in both matches: the swap of the tests, John and Bob out of
   * John against Jane and Bob against Alice.
   */
  lemma ExchangeAcross(ms: seq<Match>, date: Day, k1: nat, k2: nat, p: Player, q: Player)
    requires RoundValid(ms, date, |ms|) && k1 < |ms| && k2 < |ms| && k1 != k2
    requires Constructed(ms[k1]) && Constructed(ms[k2])
    requires p in ms[k1].players && q in ms[k2].players
    ensures Toggled(ms[k1].players, {p, q}) == ms[k1].players - {p} + {q}
    ensures Toggled(ms[k2].players, {p, q}) == ms[k2].players - {q} + {p}
  {
    if k1 < k2 {
      assert ms[k1].players !! ms[k2].players;
    } else {
      assert ms[k2].players !! ms[k1].players;
    }
  }

  /**
   * In a valid round, exchanging a player of one match with a player of
   * another goes through: each match gets the other's player on the
   * round's date, nothing else changes, and the round stays valid (the
   * tests' swap of John and Bob gives Bob against Jane and John against
   * Alice).
   */
  lemma ExchangeSucceeds(ms: seq<Match>, date: Day, k1: nat, k2: nat, p: Player, q: Player)
    requires RoundValid(ms, date, |ms|) && k1 < |ms| && k2 < |ms| && k1 != k2
    requires Constructed(ms[k1]) && Constructed(ms[k2])
    requires p in ms[k1].players && q in ms[k2].players
    ensures SwapExistingEffect(ms, date, |ms|, k1, k2, {p, q})
      == (Success(()), ms[k1 := Match(ms[k1].players - {p} + {q}, date)][k2 := Match(ms[k2].players - {q} + {p}, date)])
  {
    var a1, a2 := ms[k1].players, ms[k2].players;
    assert a1 !! a2 by {
      if k1 < k2 { assert ms[k1].players !! ms[k2].players; } else { assert ms[k2].players !! ms[k1].players; }
    }
    var b1, b2 := a1 - {p} + {q}, a2 - {q} + {p};
    ExchangePairs(a1, a2, p, q, date);
    var t := ms[k1 := Match(b1, date)][k2 := Match(b2, date)];
    assert RoundValid(t, date, |ms|) by {
      ExchangeKeepsDisjoint(ms, k1, k2, Match(b1, date), Match(b2, date));
    }
    assert Slot(k1, |ms|) == Some(k1) && Slot(k2, |ms|) == Some(k2);
    assert Construct(Toggled(a1, {p, q}), date) == Some(Match(b1, date));
    assert Construct(Toggled(a2, {p, q}), date) == Some(Match(b2, date));
  }

  /** The two player sets of an exchange between two disjoint admissible pairs: both admissible, disjoint, and drawn from the old players. */
  lemma ExchangePairs(a1: set<Player>, a2: set<Player>, p: Player, q: Player, date: Day)
    requires Admissible(a1, date) && Admissible(a2, date) && a1 !! a2 && p in a1 && q in a2
    ensures Toggled(a1, {p, q}) == a1 - {p} + {q} && Toggled(a2, {p, q}) == a2 - {q} + {p}
    ensures Admissible(a1 - {p} + {q}, date) && Admissible(a2 - {q} + {p}, date)
    ensures a1 - {p} + {q} !! a2 - {q} + {p}
    ensures a1 - {p} + {q} <= a1 + a2 && a2 - {q} + {p} <= a1 + a2
  {
    OneReplaced(a1, p, q);
    OneReplaced(a2, q, p);
  }

  /** Writing two players-disjoint matches drawn from the players of slots `k1` and `k2` into those slots keeps a round disjoint. */
  lemma ExchangeKeepsDisjoint(ms: seq<Match>, k1: nat, k2: nat, m1: Match, m2: Match)
    requires Disjoint(ms) && k1 < |ms| && k2 < |ms| && k1 != k2
    requires m1.players <= ms[k1].players + ms[k2].players && m2.players <= ms[k1].players + ms[k2].players
    requires m1.players !! m2.players
    ensures Disjoint(ms[k1 := m1][k2 := m2])
  {
    var t := ms[k1 := m1][k2 := m2];
    forall a, b | 0 <= a < b < |t| ensures t[a].players !! t[b].players {
      if a != k1 && a != k2 && b != k1 && b != k2 {
        assert t[a] == ms[a] && t[b] == ms[b];
      } else if (a == k1 || a == k2) && (b == k1 || b == k2) {
      } else {
        var o, k := if a == k1 || a == k2 then b else a, if a == k1 || a == k2 then a else b;
        assert ms[o].players !! ms[k1].players + ms[k2].players by {
          if o < k1 { assert ms[o].players !! ms[k1].players; } else { assert ms[k1].players !! ms[o].players; }
          if o < k2 { assert ms[o].players !! ms[k2].players; } else { assert ms[k2].players !! ms[o].players; }
        }
        assert t[o] == ms[o];
      }
    }
  }

  /** Replacing the member `p` of a pair by an outsider `q` leaves a pair. */
  lemma OneReplaced(a: set<Player>, p: Player, q: Player)
    requires |a| == 2 && p in a && q !in a
    ensures |a - {p} + {q}| == 2
  {
    assert a * {p} == {p};
    assert |a - {p}| == 1;
    assert (a - {p}) * {q} == {};
  }

  /** Two players of the same match cannot be exchanged: that match would be left without players. */
  lemma SwapWithinMatchFails(ms: seq<Match>, date: Day, n: int, i1: int, i2: int, p: Player, q: Player)
    requires Slot(i1, |ms|).Some? && Slot(i2, |ms|).Some?
    requires ms[Slot(i1, |ms|).value].players == {p, q}
    ensures SwapExistingEffect(ms, date, n, i1, i2, {p, q}) == (Failure(MatchNotValid), ms)
  {
    assert Toggled({p, q}, {p, q}) == {};
  }

  /** A player who is in neither match cannot be exchanged in: the second match would get four players. */
  lemma SwapWithOutsiderFails(ms: seq<Match>, date: Day, n: int, i1: int, i2: int, p: Player, q: Player)
    requires Slot(i1, |ms|).Some? && Slot(i2, |ms|).Some?
    requires |ms[Slot(i2, |ms|).value].players| == 2 && p !in ms[Slot(i2, |ms|).value].players && q !in ms[Slot(i2, |ms|).value].players && p != q
    ensures SwapExistingEffect(ms, date, n, i1, i2, {p, q}).0 == Failure(MatchNotValid)
  {
    var a := ms[Slot(i2, |ms|).value].players;
    var t := Toggled(a, {p, q});
    assert t == a + {p, q};
    assert |a + {p}| == 3;
    assert |t| == 4;
  }

  /** The mirror case: a player in neither match cannot be exchanged in from the first match's side either, which would get four players. */
  lemma SwapWithOutsiderFirstFails(ms: seq<Match>, date: Day, n: int, i1: int, i2: int, p: Player, q: Player)
    requires Slot(i1, |ms|).Some? && Slot(i2, |ms|).Some?
    requires |ms[Slot(i1, |ms|).value].players| == 2 && p !in ms[Slot(i1, |ms|).value].players && q !in ms[Slot(i1, |ms|).value].players && p != q
    ensures SwapExistingEffect(ms, date, n, i1, i2, {p, q}).0 == Failure(MatchNotValid)
  {
    var a := ms[Slot(i1, |ms|).value].players;
    var t := Toggled(a, {p, q});
    assert t == a + {p, q};
    assert |a + {p}| == 3;
    assert |t| == 4;
  }

  /** A round: a list of matches that the swaps overwrite in place, its date, and the number of matches it should have. */
  class Round {
    var matches: seq<Match>
    const date: Day
    const numMatches: int

    /** `Round.__init__`: stores its arguments and checks nothing. */
    constructor(ms: seq<Match>, d: Day, n: int)
      ensures matches == ms && date == d && numMatches == n
    {
      matches := ms;
      date := d;
      numMatches := n;
    }

    /** The round as `is_valid` judges it. */
    predicate Valid()
      reads this
    {
      RoundValid(matches, date, numMatches)
    }

    /**
     * `is_valid`: the count, then every player of every match against the
     * list of players seen so far, then every match's date.
     */
    method IsValid() returns (ok: bool)
      ensures ok == Valid()
    {
      if |matches| != numMatches {
        return false;
      }
      var seen: seq<Player> := [];
      for k := 0 to |matches|
        invariant Disjoint(matches[..k])
        invariant forall p :: p in seen <==> p in PlayersOf(matches[..k])
      {
        var rest := matches[k].players;
        while rest != {}
          invariant rest <= matches[k].players
          invariant forall p :: p in seen <==> p in PlayersOf(matches[..k]) || p in matches[k].players - rest
          invariant PlayersOf(matches[..k]) !! matches[k].players - rest
          decreases rest
        {
          var p :| p in rest;
          if p in seen {
            var a :| 0 <= a < k && p in matches[..k][a].players;
            assert !(matches[a].players !! matches[k].players);
            return false;
          }
          seen := seen + [p];
          rest := rest - {p};
        }
        assert matches[..k + 1] == matches[..k] + [matches[k]];
        DisjointAppend(matches[..k], matches[k]);
      }
      assert matches[..|matches|] == matches;
      for k := 0 to |matches|
        invariant forall j :: 0 <= j < k ==> matches[j].date == date
      {
        if matches[k].date != date {
          return false;
        }
      }
      return true;
    }

    /** `swap_players`: see `SwapPlayersEffect`. */
    method SwapPlayers(i: int, players: set<Player>) returns (res: Result<(), RoundError>)
      modifies this
      ensures (res, matches) == SwapPlayersEffect(old(matches), date, numMatches, i, players)
    {
      var slot := Slot(i, |matches|);
      if slot.None? {
        return Failure(IndexError);
      }
      var k := slot.value;
      var current := matches[k];
      var made := NewMatch(players, matches[k].date);
      if made.Failure? {
        return Failure(MatchNotValid);
      }
      matches := matches[k := made.value];
      var valid := IsValid();
      if !valid {
        matches := matches[k := current];
        assert matches == old(matches);
        return Failure(SwapNotValid);
      }
      return Success(());
    }

    /** `swap_players_of_existing_matches`: see `SwapExistingEffect`. */
    method SwapPlayersOfExistingMatches(i1: int, i2: int, players: set<Player>) returns (res: Result<(), RoundError>)
      modifies this
      ensures (res, matches) == SwapExistingEffect(old(matches), date, numMatches, i1, i2, players)
    {
      var slot1, slot2 := Slot(i1, |matches|), Slot(i2, |matches|);
      if slot1.None? || slot2.None? {
        return Failure(IndexError);
      }
      var k1, k2 := slot1.value, slot2.value;
      var current1, current2 := matches[k1], matches[k2];
      var made1 := NewMatch(Toggled(current1.players, players), date);
      if made1.Failure? {
        return Failure(MatchNotValid);
      }
      var made2 := NewMatch(Toggled(current2.players, players), date);
      if made2.Failure? {
        return Failure(MatchNotValid);
      }
      matches := matches[k1 := made1.value];
      matches := matches[k2 := made2.value];
      var valid := IsValid();
      if !valid {
        matches := matches[k1 := current1];
        matches := matches[k2 := current2];
        RestoreTwoSlots(old(matches), k1, k2, made1.value, made2.value);
        return Failure(SwapNotValid);
      }
      return Success(());
    }

    /** `get_players`: the union of the players of all matches. */
    function GetPlayers(): (r: set<Player>)
      reads this
      ensures forall p :: p in r <==> exists k :: 0 <= k < |matches| && p in matches[k].players
      ensures Valid() && (forall k :: 0 <= k < |matches| ==> Constructed(matches[k])) ==> |r| == 2 * numMatches
    {
      if Valid() && (forall k :: 0 <= k < |matches| ==> Constructed(matches[k])) then
        DisjointPlayerCount(matches);
        PlayersOf(matches)
      else
        PlayersOf(matches)
    }
  }

  // The round generator

  /** One pass of the inner loop for court `i`: each candidate in turn joins if the list grown by it is a valid round of `i + 1` matches. */
  function CourtPass(cands: seq<Match>, ms: seq<Match>, i: nat, d: Day): (r: seq<Match>)
    decreases |cands|
  {
    if cands == [] then ms
    else CourtPass(cands[1..], if RoundValid(ms + [cands[0]], d, i + 1) then ms + [cands[0]] else ms, i, d)
  }

  /** The matches after the passes for courts `0` to `k - 1`. */
  function Greedy(cands: seq<Match>, d: Day, k: nat): seq<Match> {
    if k == 0 then [] else CourtPass(cands, Greedy(cands, d, k - 1), k - 1, d)
  }

  /**
   * The pass for court `i` either keeps the list or, when the list has `i`
   * matches, appends the first candidate that keeps it valid; it appends
   * one whenever some candidate would.
   */
  lemma {:induction false} CourtPassFacts(cands: seq<Match>, ms: seq<Match>, i: nat, d: Day)
    requires Disjoint(ms) && |ms| <= i && forall k :: 0 <= k < |ms| ==> ms[k].date == d
    ensures var r := CourtPass(cands, ms, i, d);
      && Disjoint(r) && (forall k :: 0 <= k < |r| ==> r[k].date == d)
      && (r == ms || (|ms| == i && |r| == i + 1 && r[..i] == ms && r[i] in cands))
    ensures (|ms| == i && exists c :: c in cands && RoundValid(ms + [c], d, i + 1)) ==> |CourtPass(cands, ms, i, d)| == i + 1
    decreases |cands|
  {
    if cands != [] {
      var c := cands[0];
      var rest := cands[1..];
      assert forall x :: x in rest ==> x in cands;
      if RoundValid(ms + [c], d, i + 1) {
        var grown := ms + [c];
        assert grown[..i] == ms;
        CourtPassRejectsAll(rest, grown, i, d);
      } else {
        CourtPassFacts(rest, ms, i, d);
        if |ms| == i && exists x :: x in cands && RoundValid(ms + [x], d, i + 1) {
          var x :| x in cands && RoundValid(ms + [x], d, i + 1);
          assert x in rest;
        }
      }
    }
  }

  /** Once the list is longer than `i`, the pass for court `i` accepts nothing more. */
  lemma {:induction false} CourtPassRejectsAll(cands: seq<Match>, ms: seq<Match>, i: nat, d: Day)
    requires |ms| == i + 1
    ensures CourtPass(cands, ms, i, d) == ms
    decreases |cands|
  {
    if cands != [] {
      CourtPassRejectsAll(cands[1..], ms, i, d);
    }
  }

  /** The first `k` passes leave a list of at most `k` matches on `d`, no player twice, each a candidate. */
  lemma {:induction false} GreedyFacts(cands: seq<Match>, d: Day, k: nat)
    ensures var g := Greedy(cands, d, k);
      && Disjoint(g) && |g| <= k
      && (forall j :: 0 <= j < |g| ==> g[j].date == d && g[j] in cands)
  {
    if k > 0 {
      var prev := Greedy(cands, d, k - 1);
      GreedyFacts(cands, d, k - 1);
      CourtPassFacts(cands, prev, k - 1, d);
      var g := Greedy(cands, d, k);
      if g != prev {
        forall j | 0 <= j < |g| ensures g[j] in cands {
          if j < k - 1 {
            assert g[j] == g[..k - 1][j];
          }
        }
      }
    }
  }

  /** The matches `generate_valid_round` ends with: its loops run over `range(num_courts)`, empty for a negative count. */
  function Proposed(players: seq<Player>, d: Day, numCourts: int): seq<Match> {
    Greedy(Candidates(players, d), d, if numCourts < 0 then 0 else numCourts)
  }

  /** The players of `players` who can play on `d`. */
  function AvailableSet(players: seq<Player>, d: Day): (r: set<Player>)
    ensures forall p :: p in r <==> exists i :: 0 <= i < |players| && players[i] == p && Available(p, d)
  {
    set i | 0 <= i < |players| && Available(players[i], d) :: players[i]
  }

  /** A yielded match is two of the given players who can play on `d`. */
  lemma CandidatePlayers(players: seq<Player>, d: Day, m: Match)
    requires m in Candidates(players, d)
    ensures |m.players| == 2 && m.players <= AvailableSet(players, d)
  {
    CandidatesMember(players, d, m);
    var a, b :| 0 <= a < b < |players| && Admissible({players[a], players[b]}, d) && m == Match({players[a], players[b]}, d);
    var pa, pb := players[a], players[b];
    assert pa in AvailableSet(players, d) && pb in AvailableSet(players, d);
  }

  /** The generated matches are on `d`, share nobody, and each is two players who can play on `d`. */
  lemma GreedyPlayersAvailable(players: seq<Player>, d: Day, k: nat)
    ensures var g := Greedy(Candidates(players, d), d, k);
      && Disjoint(g) && (forall j :: 0 <= j < |g| ==> g[j].date == d)
      && (forall j :: 0 <= j < |g| ==> |g[j].players| == 2)
      && PlayersOf(g) <= AvailableSet(players, d)
  {
    var cands := Candidates(players, d);
    var g := Greedy(cands, d, k);
    GreedyFacts(cands, d, k);
    forall j | 0 <= j < |g| ensures |g[j].players| == 2 && g[j].players <= AvailableSet(players, d) {
      CandidatePlayers(players, d, g[j]);
    }
  }

  /** Two players who can play on `d` always make a yielded match. */
  lemma PairCandidate(players: seq<Player>, d: Day, x: Player, y: Player)
    requires x in AvailableSet(players, d) && y in AvailableSet(players, d) && x != y
    ensures Match({x, y}, d) in Candidates(players, d)
  {
    var ix :| 0 <= ix < |players| && players[ix] == x && Available(x, d);
    var iy :| 0 <= iy < |players| && players[iy] == y && Available(y, d);
    PairSize(x, y);
    assert Admissible({x, y}, d);
    assert {x, y} == {y, x};
    CandidatesMember(players, d, Match({x, y}, d));
  }

  /** A set at least two larger than a subset of it has two distinct elements outside the subset. */
  lemma TwoOutside(avail: set<Player>, used: set<Player>) returns (x: Player, y: Player)
    requires used <= avail && |used| + 2 <= |avail|
    ensures x in avail && y in avail && x != y && x !in used && y !in used
  {
    assert |avail - used| == |avail| - |avail * used|;
    assert avail * used == used;
    x :| x in avail - used;
    assert |avail - used - {x}| >= 1;
    y :| y in avail - used - {x};
  }

  /** A match on `d` that shares nobody with a valid list extends it to a valid round one match longer. */
  lemma AppendValid(ms: seq<Match>, c: Match, d: Day)
    requires Disjoint(ms) && (forall j :: 0 <= j < |ms| ==> ms[j].date == d)
    requires PlayersOf(ms) !! c.players && c.date == d
    ensures RoundValid(ms + [c], d, |ms| + 1)
  {
    DisjointAppend(ms, c);
    var grown := ms + [c];
    forall j | 0 <= j < |grown| ensures grown[j].date == d {
      if j < |ms| {
        assert grown[j] == ms[j];
      }
    }
  }

  /** With two more available players than the first `k` passes use, pass `k` adds a match. */
  lemma GrowStep(players: seq<Player>, d: Day, k: nat)
    requires |Greedy(Candidates(players, d), d, k)| == k
    requires 2 * (k + 1) <= |AvailableSet(players, d)|
    ensures |Greedy(Candidates(players, d), d, k + 1)| == k + 1
  {
    var prev := Greedy(Candidates(players, d), d, k);
    GreedyPlayersAvailable(players, d, k);
    var used := PlayersOf(prev);
    DisjointPlayerCount(prev);
    var x, y := TwoOutside(AvailableSet(players, d), used);
    PairCandidate(players, d, x, y);
    var c := Match({x, y}, d);
    AppendValid(prev, c, d);
    CourtPassFacts(Candidates(players, d), prev, k, d);
  }

  /** While at least two players per court can play, each pass adds a match. */
  lemma {:induction false} GreedyGrows(players: seq<Player>, d: Day, k: nat)
    requires 2 * k <= |AvailableSet(players, d)|
    ensures |Greedy(Candidates(players, d), d, k)| == k
  {
    if k > 0 {
      GreedyGrows(players, d, k - 1);
      GrowStep(players, d, k - 1);
    }
  }

  /**
   * The greedy generator finds a valid round of `numCourts` matches exactly
   * when `numCourts` is not negative and at least `2 * numCourts` players
   * can play on `d`.
   */
  lemma GreedySucceedsIff(players: seq<Player>, d: Day, numCourts: int)
    ensures RoundValid(Proposed(players, d, numCourts), d, numCourts)
      <==> 0 <= numCourts && 2 * numCourts <= |AvailableSet(players, d)|
  {
    var k := if numCourts < 0 then 0 else numCourts;
    var g := Greedy(Candidates(players, d), d, k);
    GreedyFacts(Candidates(players, d), d, k);
    if RoundValid(g, d, numCourts) {
      GreedyPlayersAvailable(players, d, k);
      DisjointPlayerCount(g);
      var avail := AvailableSet(players, d);
      assert |avail - PlayersOf(g)| == |avail| - |avail * PlayersOf(g)|;
      assert avail * PlayersOf(g) == PlayersOf(g);
    } else if 0 <= numCourts && 2 * numCourts <= |AvailableSet(players, d)| {
      GreedyGrows(players, d, k);
    }
  }

  /**
   * The two loops of `generate_valid_round` without the final check: for
   * each court, every candidate of the factory in turn.
   */
  method GreedyMatches(players: seq<Player>, d: Day, numCourts: int) returns (ms: seq<Match>)
    ensures ms == Proposed(players, d, numCourts)
  {
    var cands := Candidates(players, d);
    ms := [];
    var courts := if numCourts < 0 then 0 else numCourts;
    for i := 0 to courts
      invariant ms == Greedy(cands, d, i)
    {
      ghost var before := ms;
      for j := 0 to |cands|
        invariant CourtPass(cands, before, i, d) == CourtPass(cands[j..], ms, i, d)
      {
        assert cands[j..][1..] == cands[j + 1..];
        var proposed := ms + [cands[j]];
        var valid := RoundValid(proposed, d, i + 1);
        if valid {
          ms := proposed;
        }
      }
      assert cands[|cands|..] == [];
    }
  }

  /**
   * `generate_valid_round`: the greedy matches as a round of `numCourts`
   * matches on `d`, or `NotValidRoundError` if that round is not valid.
   */
  method GenerateValidRound(players: seq<Player>, d: Day, numCourts: int) returns (res: Result<Round, RoundError>)
    ensures var ms := Proposed(players, d, numCourts);
      && (res.Success? <==> RoundValid(ms, d, numCourts))
      && (res.Success? ==> fresh(res.value) && res.value.matches == ms && res.value.date == d && res.value.numMatches == numCourts)
      && (res.Failure? ==> res.error == NoValidRound)
  {
    var ms := GreedyMatches(players, d, numCourts);
    var r := new Round(ms, d, numCourts);
    var valid := r.IsValid();
    if valid {
      return Success(r);
    }
    return Failure(NoValidRound);
  }
}
