/**
 * Facts about the rounds of the current engine that do not depend on a
 * season: the set of real players of a round (the module-level
 * `get_players_of_round` the season calls), how it is counted, and the
 * in-round swap of two players built from `replace_player_in_match`.
 */
module Rounds {
  import opened Wrappers
  import opened Matches
  import opened Indices

  /** The set of real players of a round; byes contribute only their player. */
  function RoundPlayers(round: Round): (r: set<PlayerId>)
    ensures forall p :: p in r <==> exists i :: 0 <= i < |round| && p in Members(round[i])
  {
    if round == [] then {}
    else
      var rest := RoundPlayers(round[1..]);
      assert forall i :: 1 <= i < |round| ==> round[i] == round[1..][i - 1];
      Members(round[0]) + rest
  }

  /** No player is in two different matches of the round. */
  predicate PairwiseDisjoint(round: Round) {
    forall i, j :: 0 <= i < j < |round| ==> Members(round[i]) !! Members(round[j])
  }

  /** Every match of the round is a game of two different players. */
  predicate AllGames(round: Round) {
    forall i :: 0 <= i < |round| ==> |Members(round[i])| == 2
  }

  /** The players of two concatenated rounds are those of either part. */
  lemma RoundPlayersConcat(a: Round, b: Round)
    ensures RoundPlayers(a + b) == RoundPlayers(a) + RoundPlayers(b)
  {
    forall p ensures p in RoundPlayers(a + b) <==> p in RoundPlayers(a) || p in RoundPlayers(b) {
      if p in RoundPlayers(a + b) {
        var i :| 0 <= i < |a + b| && p in Members((a + b)[i]);
        if i < |a| { assert (a + b)[i] == a[i]; } else { assert (a + b)[i] == b[i - |a|]; }
      }
      if p in RoundPlayers(a) {
        var i :| 0 <= i < |a| && p in Members(a[i]);
        assert (a + b)[i] == a[i];
      }
      if p in RoundPlayers(b) {
        var i :| 0 <= i < |b| && p in Members(b[i]);
        assert (a + b)[i + |a|] == b[i];
      }
    }
  }

  /** Two rounds concatenate to one without a repeated player exactly when each has none and they share none. */
  lemma DisjointConcat(a: Round, b: Round)
    ensures PairwiseDisjoint(a + b) <==> PairwiseDisjoint(a) && PairwiseDisjoint(b) && RoundPlayers(a) !! RoundPlayers(b)
  {
    var c := a + b;
    forall i | 0 <= i < |a| ensures c[i] == a[i] { }
    forall j | 0 <= j < |b| ensures c[|a| + j] == b[j] { }
    if PairwiseDisjoint(c) {
      forall i, j | 0 <= i < j < |b| ensures Members(b[i]) !! Members(b[j]) {
        assert Members(c[|a| + i]) !! Members(c[|a| + j]);
      }
      forall i, j | 0 <= i < |a| && 0 <= j < |b| ensures Members(a[i]) !! Members(b[j]) {
        assert Members(c[i]) !! Members(c[|a| + j]);
      }
    }
    if PairwiseDisjoint(a) && PairwiseDisjoint(b) && RoundPlayers(a) !! RoundPlayers(b) {
      forall i, j | 0 <= i < j < |c| ensures Members(c[i]) !! Members(c[j]) {
        if j < |a| {
          assert Members(a[i]) !! Members(a[j]);
        } else if i >= |a| {
          assert Members(b[i - |a|]) !! Members(b[j - |a|]);
        } else {
          forall p | p in Members(c[i]) ensures p !in Members(c[j]) {
            assert p in RoundPlayers(a);
            assert c[j] == b[j - |a|];
          }
        }
      }
    }
  }

  /** A round of one match has that match's players. */
  lemma RoundPlayersSingle(m: Match)
    ensures RoundPlayers([m]) == Members(m)
  {
    assert [m][1..] == [];
  }

  /**
   * A round of `n` matches has at most `2n` players, and exactly `2n` if and
   * only if all its matches are games and no player is in two of them.
   */
  lemma {:induction false} RoundPlayersCount(round: Round)
    ensures |RoundPlayers(round)| <= 2 * |round|
    ensures |RoundPlayers(round)| == 2 * |round| <==> AllGames(round) && PairwiseDisjoint(round)
  {
    if round != [] {
      var head, tail := Members(round[0]), round[1..];
      RoundPlayersCount(tail);
      ConsPlayers(round);
      AllGamesCons(round);
      UnionCount(head, RoundPlayers(tail), |tail|);
    }
  }

  /** The union of at most two players with at most `2n` others has at most `2n + 2`, exactly when both are full and disjoint. */
  lemma UnionCount(h: set<PlayerId>, t: set<PlayerId>, n: nat)
    requires |h| <= 2 && |t| <= 2 * n
    ensures |h + t| <= 2 * n + 2
    ensures |h + t| == 2 * n + 2 <==> |h| == 2 && |t| == 2 * n && h !! t
  {
    assert |h + t| + |h * t| == |h| + |t|;
    if |h * t| == 0 {
      forall x | x in h ensures x !in t {
        assert x in t ==> x in h * t;
      }
    } else {
      var x :| x in h * t;
    }
  }

  /** A non-empty round has the players of its first match and of the rest, and is disjoint exactly when those are. */
  lemma ConsPlayers(round: Round)
    requires round != []
    ensures RoundPlayers(round) == Members(round[0]) + RoundPlayers(round[1..])
    ensures PairwiseDisjoint(round) <==> Members(round[0]) !! RoundPlayers(round[1..]) && PairwiseDisjoint(round[1..])
  {
    assert round == [round[0]] + round[1..];
    RoundPlayersConcat([round[0]], round[1..]);
    DisjointConcat([round[0]], round[1..]);
    RoundPlayersSingle(round[0]);
  }

  /** A non-empty round is all games exactly when its first match and the rest are. */
  lemma AllGamesCons(round: Round)
    requires round != []
    ensures AllGames(round) <==> |Members(round[0])| == 2 && AllGames(round[1..])
  {
    forall i | 1 <= i < |round| ensures round[i] == round[1..][i - 1] { }
  }

  /**
   * One match's part of `swap_players_of_existing_matches`: replace `p` by
   * `q`, and only if `p` was absent replace `q` by `p`.
   */
  function SwapInMatch(m: Match, p: PlayerId, q: PlayerId): (r: Result<Match, MatchError>)
    ensures Canonical(m) ==> (r.Failure? <==> p != q && p in Members(m) && q in Members(m))
    ensures Canonical(m) && r.Success? ==> Canonical(r.value) && r.value.second.None? == m.second.None?
    ensures Canonical(m) && r.Success? ==> Members(r.value) == Transposed(Members(m), p, q)
  {
    match ReplacePlayerInMatch(m, p, q)
    case Failure(e) => Failure(e)
    case Success((n, swapped)) =>
      if swapped then Success(n)
      else
        match ReplacePlayerInMatch(m, q, p)
        case Failure(e) => Failure(e)
        case Success((n', _)) => Success(n')
  }

  /** The image of a player under the exchange of `p` and `q`. */
  function Exchange(x: PlayerId, p: PlayerId, q: PlayerId): PlayerId {
    if x == p then q else if x == q then p else x
  }

  /**
   * The image of a set of players under the exchange of `p` and `q`: only a
   * set holding exactly one of them changes.
   */
  function Transposed(s: set<PlayerId>, p: PlayerId, q: PlayerId): set<PlayerId> {
    if p in s && q !in s then s - {p} + {q}
    else if q in s && p !in s then s - {q} + {p}
    else s
  }

  /** A player is in the transposed set exactly when their exchange partner is in the set. */
  lemma TransposedMember(s: set<PlayerId>, p: PlayerId, q: PlayerId, x: PlayerId)
    ensures x in Transposed(s, p, q) <==> Exchange(x, p, q) in s
  {
  }

  /**
   * `swap_players_of_existing_matches` on one round: each match in turn is
   * swapped; the first `ValueError` stops the loop, leaving the matches
   * before it swapped and the rest as they were. The flag says whether the
   * error was raised.
   */
  function SwapEach(round: Round, p: PlayerId, q: PlayerId): (r: (Round, bool))
    ensures |r.0| == |round|
  {
    if round == [] then ([], false)
    else
      match SwapInMatch(round[0], p, q)
      case Failure(_) => (round, true)
      case Success(n) =>
        var rest := SwapEach(round[1..], p, q);
        ([n] + rest.0, rest.1)
  }

  /**
   * The loop of `swap_players_of_existing_matches` over one round: every
   * match in turn, stopping at the first `ValueError`.
   */
  method SwapRound(round: Round, p: PlayerId, q: PlayerId) returns (result: Round, raised: bool)
    ensures (result, raised) == SwapEach(round, p, q)
  {
    result := round;
    var i := 0;
    assert round[i..] == round && result[..i] + SwapEach(round, p, q).0 == SwapEach(round, p, q).0;
    while i < |round|
      invariant 0 <= i <= |round| && |result| == |round|
      invariant result[i..] == round[i..]
      invariant SwapEach(round, p, q) == (result[..i] + SwapEach(round[i..], p, q).0, SwapEach(round[i..], p, q).1)
    {
      var current := result[i];
      assert current == round[i] by { assert result[i..][0] == round[i..][0]; }
      var swapped := SwapInMatch(current, p, q);
      if swapped.Failure? {
        SwapEachStops(round, p, q, i);
        assert result == result[..i] + result[i..];
        return result, true;
      }
      var n := swapped.value;
      SwapEachAdvances(round, p, q, i, n);
      PrefixStep(result, round, i, n, SwapEach(round[i + 1..], p, q).0);
      result := result[i := n];
      i := i + 1;
    }
    assert round[i..] == [];
    assert result[..i] + [] == result;
    return result, false;
  }

  /** A failing match stops the swap there, leaving that match and the rest as they were. */
  lemma SwapEachStops(round: Round, p: PlayerId, q: PlayerId, i: nat)
    requires i < |round| && SwapInMatch(round[i], p, q).Failure?
    ensures SwapEach(round[i..], p, q) == (round[i..], true)
  {
    assert round[i..][0] == round[i];
  }

  /** A swapped match is followed by the swap of the rest. */
  lemma SwapEachAdvances(round: Round, p: PlayerId, q: PlayerId, i: nat, n: Match)
    requires i < |round| && SwapInMatch(round[i], p, q) == Success(n)
    ensures SwapEach(round[i..], p, q) == ([n] + SwapEach(round[i + 1..], p, q).0, SwapEach(round[i + 1..], p, q).1)
  {
    assert round[i..][0] == round[i] && round[i..][1..] == round[i + 1..];
  }

  /** Writing slot `i` moves it from the untouched suffix to the done prefix. */
  lemma PrefixStep(result: Round, round: Round, i: nat, n: Match, rest: Round)
    requires i < |result| == |round| && result[i..] == round[i..]
    ensures result[..i] + ([n] + rest) == result[i := n][..i + 1] + rest
    ensures result[i := n][i + 1..] == round[i + 1..]
  {
    assert result[i := n][..i + 1] == result[..i] + [n];
    assert result[i + 1..] == result[i..][1..];
  }

  lemma {:induction false} SwapEachBounded(round: Round, p: PlayerId, q: PlayerId, n: nat)
    requires AllCanonical(round) && p < n && q < n
    requires forall i, x :: 0 <= i < |round| && x in Members(round[i]) ==> x < n
    ensures AllCanonical(SwapEach(round, p, q).0)
    ensures forall i, x :: 0 <= i < |round| && x in Members(SwapEach(round, p, q).0[i]) ==> x < n
    decreases |round|
  {
    if round != [] && SwapInMatch(round[0], p, q).Success? {
      var head := SwapInMatch(round[0], p, q).value;
      var tail := round[1..];
      forall i | 0 <= i < |tail| ensures tail[i] == round[i + 1] { }
      SwapEachBounded(tail, p, q, n);
      forall x | x in Members(head) ensures x < n {
        TransposedMember(Members(round[0]), p, q, x);
      }
      var r := SwapEach(round, p, q).0;
      assert r == [head] + SwapEach(tail, p, q).0;
      forall i | 1 <= i < |r| ensures r[i] == SwapEach(tail, p, q).0[i - 1] { }
    }
  }

  /** Every match of the round is in canonical form. */
  predicate AllCanonical(round: Round) {
    forall i :: 0 <= i < |round| ==> Canonical(round[i])
  }

  /**
   * On a canonical round the swap raises exactly when one match holds both
   * players; otherwise every match has its players exchanged, in place.
   */
  lemma {:induction false} SwapEachEffect(round: Round, p: PlayerId, q: PlayerId)
    requires AllCanonical(round)
    ensures SwapEach(round, p, q).1 <==> p != q && exists i :: 0 <= i < |round| && p in Members(round[i]) && q in Members(round[i])
    ensures !SwapEach(round, p, q).1 ==> forall i :: 0 <= i < |round| ==> SwapInMatch(round[i], p, q) == Success(SwapEach(round, p, q).0[i])
  {
    if round != [] {
      var tail := round[1..];
      assert AllCanonical(tail) by {
        forall i | 0 <= i < |tail| ensures Canonical(tail[i]) { assert tail[i] == round[i + 1]; }
      }
      SwapEachEffect(tail, p, q);
      forall i | 1 <= i < |round| ensures round[i] == tail[i - 1] { }
      var r := SwapEach(round, p, q);
      if SwapInMatch(round[0], p, q).Success? {
        assert r.0 == [SwapInMatch(round[0], p, q).value] + SwapEach(tail, p, q).0;
        if !r.1 {
          forall i | 0 <= i < |round| ensures SwapInMatch(round[i], p, q) == Success(r.0[i]) {
            if i > 0 { assert r.0[i] == SwapEach(tail, p, q).0[i - 1]; }
          }
        }
        if r.1 {
          var i :| 0 <= i < |tail| && p in Members(tail[i]) && q in Members(tail[i]);
          assert p in Members(round[i + 1]) && q in Members(round[i + 1]);
        }
      }
    }
  }

  /** Swapping within a match twice restores it when the first swap did not raise. */
  lemma SwapInMatchTwice(m: Match, p: PlayerId, q: PlayerId)
    requires Canonical(m) && SwapInMatch(m, p, q).Success?
    ensures SwapInMatch(SwapInMatch(m, p, q).value, p, q) == Success(m)
  {
    var n := SwapInMatch(m, p, q).value;
    var back := SwapInMatch(n, p, q);
    assert back.Success?;
    assert Members(back.value) == Members(m);
    CanonicalUnique(back.value, m);
  }

  /** Applying the in-round swap twice restores a canonical round. */
  lemma SwapEachTwice(round: Round, p: PlayerId, q: PlayerId)
    requires AllCanonical(round) && !SwapEach(round, p, q).1
    ensures AllCanonical(SwapEach(round, p, q).0)
    ensures SwapEach(SwapEach(round, p, q).0, p, q) == (round, false)
  {
    var once := SwapEach(round, p, q).0;
    SwapEachEffect(round, p, q);
    forall i | 0 <= i < |once|
      ensures Canonical(once[i]) && SwapInMatch(once[i], p, q) == Success(round[i])
    {
      SwapInMatchTwice(round[i], p, q);
    }
    SwapEachEffect(once, p, q);
    var twice := SwapEach(once, p, q);
    assert !twice.1;
    assert twice.0 == round;
  }

  /** The players of the swapped round are those of the round with `p` and `q` exchanged. */
  lemma SwapEachPlayers(round: Round, p: PlayerId, q: PlayerId)
    requires AllCanonical(round) && !SwapEach(round, p, q).1
    ensures AllCanonical(SwapEach(round, p, q).0)
    ensures RoundPlayers(SwapEach(round, p, q).0) == Transposed(RoundPlayers(round), p, q)
  {
    var once := SwapEach(round, p, q).0;
    SwapEachEffect(round, p, q);
    forall x ensures x in RoundPlayers(once) <==> x in Transposed(RoundPlayers(round), p, q) {
      TransposedMember(RoundPlayers(round), p, q, x);
      if x in RoundPlayers(once) {
        var i :| 0 <= i < |once| && x in Members(once[i]);
        TransposedMember(Members(round[i]), p, q, x);
        assert Exchange(x, p, q) in Members(round[i]);
      }
      if Exchange(x, p, q) in RoundPlayers(round) {
        var i :| 0 <= i < |round| && Exchange(x, p, q) in Members(round[i]);
        TransposedMember(Members(round[i]), p, q, x);
        assert x in Members(once[i]);
      }
    }
  }

  /** Whether `p` and `q` sit in matches `i` and `j` of a round where no player is in two matches. */
  predicate InDifferentMatches(round: Round, p: PlayerId, q: PlayerId, i: nat, j: nat) {
    PairwiseDisjoint(round) && i < |round| && j < |round| && i != j
    && p in Members(round[i]) && q in Members(round[j])
  }

  /** Under `InDifferentMatches`, only matches `i` and `j` hold `p` or `q`, and `p != q`. */
  lemma InDifferentMatchesOnly(round: Round, p: PlayerId, q: PlayerId, i: nat, j: nat, k: nat)
    requires InDifferentMatches(round, p, q, i, j) && k < |round|
    ensures p != q
    ensures p in Members(round[k]) <==> k == i
    ensures q in Members(round[k]) <==> k == j
  {
    if i < j { assert Members(round[i]) !! Members(round[j]); }
    else { assert Members(round[j]) !! Members(round[i]); }
    if k < i { assert Members(round[k]) !! Members(round[i]); }
    if k > i { assert Members(round[i]) !! Members(round[k]); }
    if k < j { assert Members(round[k]) !! Members(round[j]); }
    if k > j { assert Members(round[j]) !! Members(round[k]); }
  }

  /**
   * When `p` and `q` play in two different matches of a round in which no
   * player is in two matches, the swap does not raise, exchanges the two
   * players between those matches, and keeps the round's player set.
   */
  lemma SwapAcrossMatches(round: Round, p: PlayerId, q: PlayerId, i: nat, j: nat)
    requires AllCanonical(round) && InDifferentMatches(round, p, q, i, j)
    ensures !SwapEach(round, p, q).1
    ensures var once := SwapEach(round, p, q).0;
      && Members(once[i]) == Members(round[i]) - {p} + {q}
      && Members(once[j]) == Members(round[j]) - {q} + {p}
      && (forall k :: 0 <= k < |round| && k != i && k != j ==> once[k] == round[k])
      && RoundPlayers(once) == RoundPlayers(round)
  {
    InDifferentMatchesOnly(round, p, q, i, j, i);
    SwapEachEffect(round, p, q);
    if SwapEach(round, p, q).1 {
      var k :| 0 <= k < |round| && p in Members(round[k]) && q in Members(round[k]);
      InDifferentMatchesOnly(round, p, q, i, j, k);
    }
    var once := SwapEach(round, p, q).0;
    InDifferentMatchesOnly(round, p, q, i, j, j);
    forall k | 0 <= k < |round| && k != i && k != j ensures once[k] == round[k] {
      InDifferentMatchesOnly(round, p, q, i, j, k);
      CanonicalUnique(once[k], round[k]);
    }
    SwapEachPlayers(round, p, q);
    assert p in RoundPlayers(round) && q in RoundPlayers(round);
  }

  /** `switch_matches`' exchange of the matches at two coordinates (in place, left slot first). */
  function Switched(s: Schedule, r1: nat, m1: nat, r2: nat, m2: nat): (t: Schedule)
    requires r1 < |s| && m1 < |s[r1]| && r2 < |s| && m2 < |s[r2]|
    ensures |t| == |s| && forall i :: 0 <= i < |s| ==> |t[i]| == |s[i]|
  {
    var a, b := s[r1][m1], s[r2][m2];
    var s1 := s[r1 := s[r1][m1 := b]];
    s1[r2 := s1[r2][m2 := a]]
  }

  /** Switching two coordinates moves each match to the other coordinate and touches nothing else. */
  lemma SwitchedEffect(s: Schedule, r1: nat, m1: nat, r2: nat, m2: nat)
    requires r1 < |s| && m1 < |s[r1]| && r2 < |s| && m2 < |s[r2]|
    ensures var t := Switched(s, r1, m1, r2, m2);
      && t[r1][m1] == s[r2][m2] && t[r2][m2] == s[r1][m1]
      && (forall i, j :: 0 <= i < |s| && 0 <= j < |s[i]| && (i, j) != (r1, m1) && (i, j) != (r2, m2) ==> t[i][j] == s[i][j])
  {
  }

  /** Switching the same two coordinates again restores the schedule. */
  lemma SwitchedTwice(s: Schedule, r1: nat, m1: nat, r2: nat, m2: nat)
    requires r1 < |s| && m1 < |s[r1]| && r2 < |s| && m2 < |s[r2]|
    ensures Switched(Switched(s, r1, m1, r2, m2), r1, m1, r2, m2) == s
  {
    var t := Switched(s, r1, m1, r2, m2);
    SwitchedEffect(s, r1, m1, r2, m2);
    SwitchedEffect(t, r1, m1, r2, m2);
    var u := Switched(t, r1, m1, r2, m2);
    assert |u| == |s|;
    forall i | 0 <= i < |s| ensures u[i] == s[i] {
      assert |u[i]| == |s[i]|;
      forall j | 0 <= j < |s[i]| ensures u[i][j] == s[i][j] { }
    }
  }
}
