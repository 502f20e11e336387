/**
 * The match primitive of the current engine: a pair of roster indices,
 * stored smaller index first, or one index and a bye.
 */
module Matches {
  import opened Wrappers

  /** An index into the season's roster. */
  type PlayerId = nat

  /** `Match(a, Some(b))` is a game between `a` and `b`; `Match(a, None)` is a bye for `a`. */
  datatype Match = Match(first: PlayerId, second: Option<PlayerId>)

  /** The only way `create_match` fails: pairing a player with themself (a `ValueError`). */
  datatype MatchError = SamePlayer

  /** The form `create_match` produces: a bye, or the smaller index first. */
  predicate Canonical(m: Match) {
    m.second.Some? ==> m.first < m.second.value
  }

  /** The real players of a match; the bye marker is not one of them. */
  function Members(m: Match): set<PlayerId> {
    if m.second.Some? then {m.first, m.second.value} else {m.first}
  }

  /** Builds the canonical match of two players, or the bye of the first one. */
  function CreateMatch(a: PlayerId, b: Option<PlayerId>): (r: Result<Match, MatchError>)
    ensures r.Failure? <==> b == Some(a)
    ensures r.Success? ==> Canonical(r.value) && r.value.second.None? == b.None?
    ensures r.Success? ==> Members(r.value) == {a} + (if b.Some? then {b.value} else {})
  {
    if b.None? then Success(Match(a, None))
    else if a == b.value then Failure(SamePlayer)
    else if a < b.value then Success(Match(a, b))
    else Success(Match(b.value, Some(a)))
  }

  /** A canonical match is determined by whether it is a bye and by its players. */
  lemma CanonicalUnique(m: Match, n: Match)
    requires Canonical(m) && Canonical(n)
    requires m.second.None? == n.second.None? && Members(m) == Members(n)
    ensures m == n
  {
    if m.second.Some? {
      assert m.first in Members(n) && m.second.value in Members(n);
      assert n.first in Members(m) && n.second.value in Members(m);
    } else {
      assert m.first in Members(n);
    }
  }

  /** The argument order of two different players does not matter. */
  lemma CreateMatchSymmetric(a: PlayerId, b: PlayerId)
    requires a != b
    ensures CreateMatch(a, Some(b)) == CreateMatch(b, Some(a))
    ensures CreateMatch(a, Some(b)).Success?
  {
    var m, n := CreateMatch(a, Some(b)).value, CreateMatch(b, Some(a)).value;
    CanonicalUnique(m, n);
  }

  /** `create_match` is the identity on its own outputs. */
  lemma CreateMatchIdempotent(m: Match)
    requires Canonical(m)
    ensures CreateMatch(m.first, m.second) == Success(m)
  {
    var r := CreateMatch(m.first, m.second);
    assert r.Success?;
    CanonicalUnique(r.value, m);
  }

  /** The values stored in the two slots of a match, the bye marker included. */
  function Slots(m: Match): seq<Option<PlayerId>> {
    [Some(m.first), m.second]
  }

  /** Whether any slot value of `m` occurs in `other` (the source's `p in r`). */
  predicate SharesSlot(other: Match, m: Match) {
    Slots(m)[0] in Slots(other) || Slots(m)[1] in Slots(other)
  }

  /**
   * Whether `m` may join the listed matches: none of its slot values occurs
   * in any of them. For a game this means no player is already taken; for a
   * bye it also means no listed match is a bye.
   */
  function CanMatchBeAdded(ms: seq<Match>, m: Match): (r: bool)
    ensures r <==> forall i :: 0 <= i < |ms| ==> Members(ms[i]) !! Members(m) && !(m.second.None? && ms[i].second.None?)
  {
    if ms == [] then true
    else !SharesSlot(ms[0], m) && CanMatchBeAdded(ms[1..], m)
  }

  /** The real players of a match, in slot order. */
  function PlayersOf(m: Match): (r: seq<PlayerId>)
    ensures 1 <= |r| <= 2 && r[0] == m.first
    ensures |r| == 2 <==> m.second.Some?
    ensures |r| == 2 ==> r[1] == m.second.value
    ensures forall p :: p in r <==> p in Members(m)
  {
    if m.second.Some? then [m.first, m.second.value] else [m.first]
  }

  /**
   * Replaces `outgoing` by `incoming` in `m`, flagging whether `outgoing` was there.
   * Fails like `create_match` when `incoming` is the other player of `m`.
   */
  function ReplacePlayerInMatch(m: Match, outgoing: PlayerId, incoming: PlayerId): (r: Result<(Match, bool), MatchError>)
    ensures outgoing !in Members(m) ==> r == Success((m, false))
    ensures outgoing in Members(m) && Canonical(m) ==>
      (r.Success? <==> incoming !in Members(m) - {outgoing})
    ensures outgoing in Members(m) && Canonical(m) && r.Success? ==>
      && r.value.1
      && Canonical(r.value.0)
      && r.value.0.second.None? == m.second.None?
      && Members(r.value.0) == Members(m) - {outgoing} + {incoming}
  {
    if outgoing in PlayersOf(m) then
      var other := if m.first != outgoing then Some(m.first) else m.second;
      match CreateMatch(incoming, other)
      case Success(n) => Success((n, true))
      case Failure(e) => Failure(e)
    else
      Success((m, false))
  }

  /** Replacing a player and then replacing them back restores a canonical match. */
  lemma ReplaceTwiceRestores(m: Match, outgoing: PlayerId, incoming: PlayerId)
    requires Canonical(m) && outgoing in Members(m) && incoming !in Members(m) - {outgoing}
    ensures ReplacePlayerInMatch(m, outgoing, incoming).Success?
    ensures ReplacePlayerInMatch(ReplacePlayerInMatch(m, outgoing, incoming).value.0, incoming, outgoing) == Success((m, true))
  {
    var n := ReplacePlayerInMatch(m, outgoing, incoming).value.0;
    assert incoming in Members(n);
    var back := ReplacePlayerInMatch(n, incoming, outgoing);
    assert back.Success?;
    CanonicalUnique(back.value.0, m);
  }
}
