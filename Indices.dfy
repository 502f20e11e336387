/**
 * Coordinate lookups on a schedule of the current engine: a schedule is a
 * list of rounds, a round a list of matches, and a coordinate is the pair
 * (round index, slot index).
 */
module Indices {
  import opened Wrappers
  import opened Matches

  type Round = seq<Match>
  type Schedule = seq<Round>
  type Coord = (nat, nat)

  /** Strict row-major order on coordinates. */
  predicate Before(a: Coord, b: Coord) {
    a.0 < b.0 || (a.0 == b.0 && a.1 < b.1)
  }

  /** A list of coordinates in strictly increasing row-major order. */
  predicate RowMajor(cs: seq<Coord>) {
    forall k :: 0 <= k < |cs| - 1 ==> Before(cs[k], cs[k + 1])
  }

  /** The coordinates `(ri, j)` with `j >= mi` whose match satisfies `keep`, in slot order. */
  function SlotsWhere(row: Round, keep: Match -> bool, ri: nat, mi: nat): (r: seq<Coord>)
    requires mi <= |row|
    ensures RowMajor(r)
    ensures forall c :: c in r <==> c.0 == ri && mi <= c.1 < |row| && keep(row[c.1])
    decreases |row| - mi
  {
    if mi == |row| then []
    else
      var rest := SlotsWhere(row, keep, ri, mi + 1);
      assert forall c :: c in rest ==> c.1 > mi;
      if keep(row[mi]) then [(ri, mi)] + rest else rest
  }

  /** The coordinates in rounds `ri` onward whose match satisfies `keep`, row-major. */
  function CoordsWhere(s: Schedule, keep: Match -> bool, ri: nat): (r: seq<Coord>)
    requires ri <= |s|
    ensures RowMajor(r)
    ensures forall c :: c in r <==> ri <= c.0 < |s| && c.1 < |s[c.0]| && keep(s[c.0][c.1])
    decreases |s| - ri
  {
    if ri == |s| then []
    else
      var here := SlotsWhere(s[ri], keep, ri, 0);
      var rest := CoordsWhere(s, keep, ri + 1);
      RowMajorConcat(here, rest, ri);
      here + rest
  }

  /** Coordinates of round `ri` followed by coordinates of later rounds stay in row-major order. */
  lemma RowMajorConcat(a: seq<Coord>, b: seq<Coord>, ri: nat)
    requires RowMajor(a) && RowMajor(b)
    requires forall c :: c in a ==> c.0 == ri
    requires forall c :: c in b ==> c.0 > ri
    ensures RowMajor(a + b)
  {
    if a != [] && b != [] {
      assert a[|a| - 1] in a && b[0] in b;
    }
    forall k | 0 <= k < |a + b| - 1 ensures Before((a + b)[k], (a + b)[k + 1]) {
      if k + 1 < |a| {
        assert (a + b)[k] == a[k] && (a + b)[k + 1] == a[k + 1];
      } else if k >= |a| {
        assert (a + b)[k] == b[k - |a|] && (a + b)[k + 1] == b[k + 1 - |a|];
      }
    }
  }

  /** Replacing a slot and then putting its old match back restores the schedule. */
  lemma ReplaceRestores(s: Schedule, r: nat, m: nat, x: Match)
    requires r < |s| && m < |s[r]|
    ensures var t := s[r := s[r][m := x]]; t[r][m := s[r][m]] == s[r] && t[r := t[r][m := s[r][m]]] == s
  {
    var t := s[r := s[r][m := x]];
    assert t[r][m := s[r][m]] == s[r];
  }

  /** Replacing a round and then putting the old round back restores the schedule. */
  lemma ReplaceRoundRestores(s: Schedule, r: nat, x: Round)
    requires r < |s|
    ensures s[r := x][r] == x && s[r := x][r := s[r]] == s
  {
  }

  /** Whether player `p` plays in (or has the bye of) match `m`. */
  predicate HasPlayer(p: PlayerId, m: Match) {
    p in PlayersOf(m)
  }

  /** `get_match_indizes_of_player`: every coordinate whose match contains `p`, row-major. */
  function MatchIndicesOfPlayer(s: Schedule, p: PlayerId): (r: seq<Coord>)
    ensures RowMajor(r)
    ensures forall c :: c in r <==> c.0 < |s| && c.1 < |s[c.0]| && p in Members(s[c.0][c.1])
  {
    CoordsWhere(s, m => HasPlayer(p, m), 0)
  }

  /** `get_match_indizes_of_match`: every coordinate holding a match equal to `m`, row-major. */
  function MatchIndicesOfMatch(s: Schedule, m: Match): (r: seq<Coord>)
    ensures RowMajor(r)
    ensures forall c :: c in r <==> c.0 < |s| && c.1 < |s[c.0]| && s[c.0][c.1] == m
  {
    CoordsWhere(s, n => n == m, 0)
  }

  /** Row-major order makes the round indices of the coordinates non-decreasing. */
  lemma {:induction false} RowMajorRoundsMonotone(cs: seq<Coord>, i: nat, j: nat)
    requires RowMajor(cs) && i <= j < |cs|
    ensures cs[i].0 <= cs[j].0
    ensures i < j ==> Before(cs[i], cs[j])
    decreases j - i
  {
    if i < j {
      RowMajorRoundsMonotone(cs, i, j - 1);
    }
  }

  /** Every round of `s` holds player `p` at most once. */
  predicate AtMostOncePerRound(s: Schedule, p: PlayerId) {
    forall ri, a, b :: 0 <= ri < |s| && 0 <= a < b < |s[ri]| ==> !(p in Members(s[ri][a]) && p in Members(s[ri][b]))
  }

  /**
   * When every round holds the player at most once, the round indices of the
   * player's coordinates are strictly increasing, so there are at most as
   * many of them as there are rounds.
   */
  lemma PlayerRoundsStrictlyIncrease(s: Schedule, p: PlayerId)
    requires AtMostOncePerRound(s, p)
    ensures var r := MatchIndicesOfPlayer(s, p);
      (forall k :: 0 <= k < |r| - 1 ==> r[k].0 < r[k + 1].0) && |r| <= |s|
  {
    var r := MatchIndicesOfPlayer(s, p);
    forall k | 0 <= k < |r| - 1
      ensures r[k].0 < r[k + 1].0
    {
      assert r[k] in r && r[k + 1] in r;
    }
    StrictlyIncreasingBounded(r, |s|);
  }

  /** A strictly increasing list of round indices below `n` has at most `n` entries. */
  lemma {:induction false} StrictlyIncreasingBounded(cs: seq<Coord>, n: nat)
    requires forall k :: 0 <= k < |cs| - 1 ==> cs[k].0 < cs[k + 1].0
    requires forall c :: c in cs ==> c.0 < n
    ensures |cs| <= n
    ensures cs != [] ==> |cs| <= n - cs[0].0
  {
    if cs != [] {
      assert cs[0] in cs;
      if |cs| > 1 {
        assert forall c :: c in cs[1..] ==> c in cs;
        StrictlyIncreasingBounded(cs[1..], n);
        assert cs[1..][0] == cs[1];
      }
    }
  }
}
