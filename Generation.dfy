/**
 * How the current engine builds a season: the weekly date list, the players
 * eligible on a date, the greedy pick of one match, and the full or partial
 * round generated for every date. Each `random.shuffle` is the shuffler's
 * answer for the next draw number.
 */
module Generation {
  import opened Wrappers
  import opened Players
  import opened Matches
  import opened Indices
  import opened Rounds
  import opened Randomness

  /** Days between two consecutive season dates. */
  const Week: int := 7

  /** The weekly dates from `start` up to `end`, leaving out the excluded ones. */
  function SeasonDates(start: Day, end: Day, excluded: seq<Day>): (r: seq<Day>)
    ensures forall i :: 0 <= i < |r| ==> start <= r[i] <= end && (r[i] - start) % Week == 0 && r[i] !in excluded
    ensures forall i, j :: 0 <= i < j < |r| ==> r[i] < r[j]
    decreases end - start
  {
    if start > end then []
    else
      var rest := SeasonDates(start + Week, end, excluded);
      if start in excluded then rest else [start] + rest
  }

  /** Every non-excluded day `start + 7k` not after `end` is a season date. */
  lemma {:induction false} SeasonDatesComplete(start: Day, end: Day, excluded: seq<Day>, d: Day)
    requires start <= d <= end && (d - start) % Week == 0 && d !in excluded
    ensures d in SeasonDates(start, end, excluded)
    decreases d - start
  {
    if d != start {
      assert d - start == Week * ((d - start) / Week);
      SeasonDatesComplete(start + Week, end, excluded, d);
    }
  }

  /** A season of 31 days without exclusions has the five dates of its first weekday. */
  lemma FiveWeeksExample(start: Day)
    ensures SeasonDates(start, start + 30, []) == [start, start + 7, start + 14, start + 21, start + 28]
  {
    var e: seq<Day> := [];
    assert SeasonDates(start + 35, start + 30, e) == [];
    assert SeasonDates(start + 28, start + 30, e) == [start + 28];
    assert SeasonDates(start + 21, start + 30, e) == [start + 21, start + 28];
    assert SeasonDates(start + 14, start + 30, e) == [start + 14, start + 21, start + 28];
    assert SeasonDates(start + 7, start + 30, e) == [start + 7, start + 14, start + 21, start + 28];
  }

  /** The date loop of the season constructor. */
  method WeeklyDates(start: Day, end: Day, excluded: seq<Day>) returns (dates: seq<Day>)
    ensures dates == SeasonDates(start, end, excluded)
  {
    dates := [];
    var d := start;
    while d <= end
      invariant dates + SeasonDates(d, end, excluded) == SeasonDates(start, end, excluded)
      decreases end - d
    {
      if d !in excluded {
        dates := dates + [d];
      }
      d := d + Week;
    }
  }

  /** The roster indices from `i` on of the players who can play on `d`, increasing. */
  function EligibleFrom(players: seq<Player>, d: Day, i: nat): (r: seq<PlayerId>)
    requires i <= |players|
    ensures forall x: PlayerId :: x in r <==> i <= x < |players| && CanPlay(players[x], d)
    ensures forall a, b :: 0 <= a < b < |r| ==> r[a] < r[b]
    decreases |players| - i
  {
    if i == |players| then []
    else
      var rest := EligibleFrom(players, d, i + 1);
      assert forall b :: 0 <= b < |rest| ==> rest[b] in rest;
      if CanPlay(players[i], d) then [i] + rest else rest
  }

  /** The roster indices of the players who can play on `d`, increasing. */
  function Eligible(players: seq<Player>, d: Day): (r: seq<PlayerId>)
    ensures forall x: PlayerId :: x in r <==> x < |players| && CanPlay(players[x], d)
    ensures Distinct(r)
  {
    EligibleFrom(players, d, 0)
  }

  /** The eligible players of `d` as a set. */
  function EligibleSet(players: seq<Player>, d: Day): set<PlayerId> {
    set x: PlayerId | x < |players| && CanPlay(players[x], d)
  }

  /** Whether the date is one that gets a partial round. */
  predicate IsPartialDate(players: seq<Player>, numCourts: int, d: Day) {
    |Eligible(players, d)| < 2 * numCourts
  }

  /** The indices occurring in a list. */
  function Elements(xs: seq<PlayerId>): (r: set<PlayerId>)
    ensures forall x :: x in r <==> x in xs
  {
    set x | x in xs
  }

  /** No index occurs twice. */
  predicate Distinct(xs: seq<PlayerId>) {
    forall a, b :: 0 <= a < b < |xs| ==> xs[a] != xs[b]
  }

  /** A list is free of repetitions exactly when no element has multiplicity above one. */
  lemma {:induction false} DistinctMultiplicity(xs: seq<PlayerId>)
    ensures Distinct(xs) <==> forall x :: multiset(xs)[x] <= 1
  {
    if xs != [] {
      var h, t := xs[0], xs[1..];
      DistinctMultiplicity(t);
      assert xs == [h] + t;
      assert multiset(xs) == multiset{h} + multiset(t);
      assert Distinct(xs) <==> h !in t && Distinct(t) by {
        forall a | 1 <= a < |xs| ensures xs[a] == t[a - 1] { }
        if h !in t && Distinct(t) {
          forall a, b | 0 <= a < b < |xs| ensures xs[a] != xs[b] {
            if a == 0 { assert xs[b] in t; }
          }
        }
        if Distinct(xs) {
          assert h !in t by {
            forall b | 0 <= b < |t| ensures t[b] != h { assert t[b] == xs[b + 1]; }
          }
        }
      }
      if forall x :: multiset(xs)[x] <= 1 {
        assert multiset(xs)[h] == 1 + multiset(t)[h];
        forall x ensures multiset(t)[x] <= 1 {
          assert multiset(xs)[x] >= multiset(t)[x];
        }
      }
    }
  }

  /** A permutation of a list without repetitions has none either. */
  lemma PermutationDistinct(xs: seq<PlayerId>, ys: seq<PlayerId>)
    requires multiset(xs) == multiset(ys) && Distinct(xs)
    ensures Distinct(ys)
  {
    DistinctMultiplicity(xs);
    DistinctMultiplicity(ys);
  }

  /** A list without repetitions has as many elements as its set. */
  lemma {:induction false} DistinctCardinality(xs: seq<PlayerId>)
    requires Distinct(xs)
    ensures |Elements(xs)| == |xs|
  {
    if xs != [] {
      var t := xs[1..];
      assert Distinct(t) by {
        forall a, b | 0 <= a < b < |t| ensures t[a] != t[b] { assert t[a] == xs[a + 1] && t[b] == xs[b + 1]; }
      }
      DistinctCardinality(t);
      assert xs[0] !in t by {
        forall b | 0 <= b < |t| ensures t[b] != xs[0] { assert t[b] == xs[b + 1]; }
      }
      assert Elements(xs) == {xs[0]} + Elements(t);
      assert xs[0] !in Elements(t);
    }
  }

  /** The outcome of scanning `itertools.combinations` for an addable pair. */
  datatype Scan = Found(m: Match) | Raised | Exhausted

  /** A game of `x` and `y` may join `others` exactly when neither already plays there. */
  lemma AddableGame(others: Round, m: Match)
    requires m.second.Some? && Canonical(m)
    ensures CanMatchBeAdded(others, m) <==> m.first !in RoundPlayers(others) && m.second.value !in RoundPlayers(others)
  {
    if !CanMatchBeAdded(others, m) {
      var i :| 0 <= i < |others| && !(Members(others[i]) !! Members(m));
      assert m.first in Members(others[i]) || m.second.value in Members(others[i]);
    }
  }

  /**
   * The pairs `(x, ys[0]), (x, ys[1]), ...` in order: the first one that
   * `create_match` refuses raises, the first addable one is returned.
   */
  function ScanPartners(x: PlayerId, ys: seq<PlayerId>, others: Round): Scan {
    if ys == [] then Exhausted
    else
      match CreateMatch(x, Some(ys[0]))
      case Failure(_) => Raised
      case Success(m) =>
        if CanMatchBeAdded(others, m) then Found(m) else ScanPartners(x, ys[1..], others)
  }

  /** `itertools.combinations(xs, 2)` scanned in order for the first addable pair. */
  function ScanPairs(xs: seq<PlayerId>, others: Round): Scan {
    if xs == [] then Exhausted
    else
      var first := ScanPartners(xs[0], xs[1..], others);
      if first.Exhausted? then ScanPairs(xs[1..], others) else first
  }

  /** What the partner scan finds may join `others` and pairs `x` with a later element. */
  lemma {:induction false} ScanPartnersSound(x: PlayerId, ys: seq<PlayerId>, others: Round)
    ensures var r := ScanPartners(x, ys, others);
      && (r.Found? ==> Canonical(r.m) && r.m.second.Some? && CanMatchBeAdded(others, r.m))
      && (r.Found? ==> x in Members(r.m) && forall p :: p in Members(r.m) ==> p == x || p in ys)
      && (r.Raised? ==> x in ys)
  {
    if ys != [] && CreateMatch(x, Some(ys[0])).Success? && !CanMatchBeAdded(others, CreateMatch(x, Some(ys[0])).value) {
      ScanPartnersSound(x, ys[1..], others);
      assert forall y :: y in ys[1..] ==> y in ys;
    }
  }

  /** The partner scan of a free `x` not among the `ys` finds a pair whenever some `y` is free. */
  lemma {:induction false} ScanPartnersComplete(x: PlayerId, ys: seq<PlayerId>, others: Round, y: PlayerId)
    requires x !in ys && x !in RoundPlayers(others) && y in ys && y !in RoundPlayers(others)
    ensures ScanPartners(x, ys, others).Found?
  {
    var m := CreateMatch(x, Some(ys[0])).value;
    AddableGame(others, m);
    if !CanMatchBeAdded(others, m) {
      assert y != ys[0];
      assert y in ys[1..];
      ScanPartnersComplete(x, ys[1..], others, y);
    }
  }

  /** The list without its head. */
  lemma DistinctTail(xs: seq<PlayerId>)
    requires Distinct(xs) && xs != []
    ensures Distinct(xs[1..]) && xs[0] !in xs[1..]
  {
    forall a, b | 0 <= a < b < |xs[1..]| ensures xs[1..][a] != xs[1..][b] { assert xs[1..][a] == xs[a + 1]; }
    forall b | 0 <= b < |xs[1..]| ensures xs[1..][b] != xs[0] { assert xs[1..][b] == xs[b + 1]; }
  }

  /** What the pair scan finds may join `others` and pairs two elements of the list; without repetitions it never raises. */
  lemma {:induction false} ScanPairsSound(xs: seq<PlayerId>, others: Round)
    ensures var r := ScanPairs(xs, others);
      && (r.Found? ==> Canonical(r.m) && r.m.second.Some? && CanMatchBeAdded(others, r.m))
      && (r.Found? ==> forall p :: p in Members(r.m) ==> p in xs)
      && (Distinct(xs) ==> !r.Raised?)
  {
    if xs != [] {
      ScanPartnersSound(xs[0], xs[1..], others);
      if Distinct(xs) { DistinctTail(xs); }
      if ScanPartners(xs[0], xs[1..], others).Exhausted? {
        ScanPairsSound(xs[1..], others);
      }
      assert forall y :: y in xs[1..] ==> y in xs;
    }
  }

  /** On a list without repetitions holding two free players, the pair scan finds a pair. */
  lemma {:induction false} ScanPairsComplete(xs: seq<PlayerId>, others: Round, a: PlayerId, b: PlayerId)
    requires Distinct(xs) && a in xs && b in xs && a != b && a !in RoundPlayers(others) && b !in RoundPlayers(others)
    ensures ScanPairs(xs, others).Found?
  {
    DistinctTail(xs);
    ScanPartnersSound(xs[0], xs[1..], others);
    var first := ScanPartners(xs[0], xs[1..], others);
    if xs[0] == a {
      assert b in xs[1..];
      ScanPartnersComplete(a, xs[1..], others, b);
    } else if xs[0] == b {
      assert a in xs[1..];
      ScanPartnersComplete(b, xs[1..], others, a);
    } else if first.Exhausted? {
      assert a in xs[1..] && b in xs[1..];
      ScanPairsComplete(xs[1..], others, a, b);
    }
  }

  /** The `ValueError` of `_generate_valid_match` becomes `None`. */
  function ScanResult(s: Scan): Option<Match> {
    if s.Found? then Some(s.m) else None
  }

  /** The inner loop of `combinations`: the partners after position `i`, in order. */
  method ScanPartnersAt(xs: seq<PlayerId>, i: nat, others: Round) returns (r: Scan)
    requires i < |xs|
    ensures r == ScanPartners(xs[i], xs[i + 1..], others)
  {
    var j := i + 1;
    while j < |xs|
      invariant i + 1 <= j <= |xs|
      invariant ScanPartners(xs[i], xs[i + 1..], others) == ScanPartners(xs[i], xs[j..], others)
    {
      assert xs[j..][0] == xs[j] && xs[j..][1..] == xs[j + 1..];
      var c := CreateMatch(xs[i], Some(xs[j]));
      if c.Failure? {
        return Raised;
      }
      if CanMatchBeAdded(others, c.value) {
        return Found(c.value);
      }
      j := j + 1;
    }
    assert xs[j..] == [];
    return Exhausted;
  }

  /**
   * `_generate_valid_match`: shuffle the eligible players with draw `draw`
   * and return the first pair of the shuffled list that may join `others`.
   */
  method GenerateValidMatch(players: seq<Player>, d: Day, others: Round, shuffle: (nat, seq<PlayerId>) -> seq<PlayerId>, draw: nat)
    returns (r: Option<Match>)
    ensures r == ScanResult(ScanPairs(shuffle(draw, Eligible(players, d)), others))
  {
    var xs := shuffle(draw, Eligible(players, d));
    var i := 0;
    while i < |xs|
      invariant 0 <= i <= |xs|
      invariant ScanPairs(xs, others) == ScanPairs(xs[i..], others)
    {
      assert xs[i..][0] == xs[i] && xs[i..][1..] == xs[i + 1..];
      var s := ScanPartnersAt(xs, i, others);
      if !s.Exhausted? {
        return ScanResult(s);
      }
      i := i + 1;
    }
    assert xs[i..] == [];
    return None;
  }

  /** A generated full round: `n` canonical games of eligible players, no player twice. */
  predicate FullRound(round: Round, players: seq<Player>, d: Day, n: nat) {
    && |round| == n
    && AllCanonical(round)
    && (forall i :: 0 <= i < |round| ==> round[i].second.Some?)
    && PairwiseDisjoint(round)
    && (forall p :: p in RoundPlayers(round) ==> p in EligibleSet(players, d))
  }

  /** A generated partial round: every eligible player exactly once, in pairs and at most one bye. */
  predicate PartialRound(round: Round, players: seq<Player>, d: Day) {
    && AllCanonical(round)
    && PairwiseDisjoint(round)
    && RoundPlayers(round) == EligibleSet(players, d)
    && (forall i, j :: 0 <= i < j < |round| ==> round[i].second.Some? || round[j].second.Some?)
  }

  /** A canonical game has two players. */
  lemma GamesHaveTwoPlayers(round: Round)
    requires AllCanonical(round) && forall i :: 0 <= i < |round| ==> round[i].second.Some?
    ensures AllGames(round)
  {
    forall i | 0 <= i < |round| ensures |Members(round[i])| == 2 {
      assert round[i].first != round[i].second.value;
    }
  }

  /** The eligible players of a date, as a set, number as many as the list. */
  lemma EligibleSetSize(players: seq<Player>, d: Day)
    ensures |EligibleSet(players, d)| == |Eligible(players, d)|
  {
    var e := Eligible(players, d);
    DistinctCardinality(e);
    assert Elements(e) == EligibleSet(players, d);
  }

  /** Before the last of `n` picks, at least two eligible players are still free. */
  lemma TwoFreePlayers(round: Round, players: seq<Player>, d: Day, k: nat, n: nat, xs: seq<PlayerId>)
    returns (a: PlayerId, b: PlayerId)
    requires FullRound(round, players, d, k) && k < n && |Eligible(players, d)| >= 2 * n
    requires multiset(xs) == multiset(Eligible(players, d))
    ensures a in xs && b in xs && a != b && a !in RoundPlayers(round) && b !in RoundPlayers(round)
  {
    EligibleSetSize(players, d);
    GamesHaveTwoPlayers(round);
    RoundPlayersCount(round);
    var all := EligibleSet(players, d);
    var free := all - RoundPlayers(round);
    assert all == free + RoundPlayers(round);
    assert |free| >= 2;
    a :| a in free;
    assert |free - {a}| == |free| - 1;
    b :| b in free - {a};
    assert a in Eligible(players, d) && b in Eligible(players, d);
    assert a in multiset(xs) && b in multiset(xs);
  }

  /** A free game of eligible players extends a full-round prefix by one match. */
  lemma ExtendFullRound(round: Round, g: Match, players: seq<Player>, d: Day, k: nat)
    requires FullRound(round, players, d, k)
    requires Canonical(g) && g.second.Some? && CanMatchBeAdded(round, g)
    requires forall p :: p in Members(g) ==> p in EligibleSet(players, d)
    ensures FullRound(round + [g], players, d, k + 1)
  {
    AddableGame(round, g);
    RoundPlayersConcat(round, [g]);
    RoundPlayersSingle(g);
    DisjointConcat(round, [g]);
    assert [g] == [g];
    var next := round + [g];
    forall i | 0 <= i < |next| ensures Canonical(next[i]) && next[i].second.Some? {
      if i < |round| { assert next[i] == round[i]; }
    }
  }

  /**
   * Before pick `k` of `n`, a shuffle of the eligible players always holds
   * an addable pair, and adding it keeps the round a full-round prefix.
   */
  lemma NextPickFits(round: Round, players: seq<Player>, d: Day, k: nat, n: nat, xs: seq<PlayerId>)
    requires FullRound(round, players, d, k) && k < n && |Eligible(players, d)| >= 2 * n
    requires multiset(xs) == multiset(Eligible(players, d))
    ensures ScanPairs(xs, round).Found?
    ensures FullRound(round + [ScanPairs(xs, round).m], players, d, k + 1)
  {
    PermutationDistinct(Eligible(players, d), xs);
    var a, b := TwoFreePlayers(round, players, d, k, n, xs);
    ScanPairsComplete(xs, round, a, b);
    ScanPairsSound(xs, round);
    var g := ScanPairs(xs, round).m;
    forall p | p in Members(g) ensures p in EligibleSet(players, d) {
      assert p in xs;
      assert p in multiset(xs);
      assert p in Eligible(players, d);
    }
    ExtendFullRound(round, g, players, d, k);
  }

  /**
   * The full-round loop of `_generate_valid_round`: with at least `2n`
   * eligible players every one of the `n` greedy picks succeeds, so the
   * `ValueError`s cannot be raised, and the round is a full round.
   */
  method GenerateFullRound(players: seq<Player>, n: nat, d: Day, shuffle: (nat, seq<PlayerId>) -> seq<PlayerId>, draw: nat)
    returns (round: Round)
    requires IsShuffler(shuffle) && |Eligible(players, d)| >= 2 * n
    ensures FullRound(round, players, d, n)
  {
    round := [];
    var k := 0;
    while k < n
      invariant 0 <= k <= n
      invariant FullRound(round, players, d, k)
    {
      assert multiset(shuffle(draw + k, Eligible(players, d))) == multiset(Eligible(players, d));
      NextPickFits(round, players, d, k, n, shuffle(draw + k, Eligible(players, d)));
      var m := GenerateValidMatch(players, d, round, shuffle, draw + k);
      round := round + [m.value];
      k := k + 1;
    }
  }

  /**
   * The pairing the partial-round loop produces from the shuffled list:
   * the last two elements form a match, repeatedly, and a single remaining
   * element gets the bye.
   */
  function PairUp(xs: seq<PlayerId>): (r: Round)
    requires Distinct(xs)
    decreases |xs|
  {
    if |xs| == 0 then []
    else if |xs| == 1 then [CreateMatch(xs[0], None).value]
    else
      var n := |xs|;
      assert xs[n - 1] != xs[n - 2];
      var rest := xs[..n - 2];
      DistinctPrefix(xs, n - 2);
      [CreateMatch(xs[n - 1], Some(xs[n - 2])).value] + PairUp(rest)
  }

  /** Dropping the last two elements of a list without repetitions leaves one without repetitions. */
  lemma DistinctPrefix(xs: seq<PlayerId>, k: nat)
    requires Distinct(xs) && k <= |xs|
    ensures Distinct(xs[..k])
    ensures forall j :: k <= j < |xs| ==> xs[j] !in xs[..k]
  {
    var rest := xs[..k];
    forall a, b | 0 <= a < b < |rest| ensures rest[a] != rest[b] { assert rest[a] == xs[a] && rest[b] == xs[b]; }
    forall j, a | k <= j < |xs| && 0 <= a < |rest| ensures rest[a] != xs[j] { assert rest[a] == xs[a]; }
  }

  /** An element of a list of two or more is one of the last two or in the rest. */
  lemma LastTwo(xs: seq<PlayerId>)
    requires |xs| >= 2
    ensures forall p :: p in xs <==> p in xs[..|xs| - 2] || p == xs[|xs| - 2] || p == xs[|xs| - 1]
  {
    var k := |xs| - 2;
    assert xs == xs[..k] + xs[k..];
    assert xs[k..] == [xs[k], xs[k + 1]];
  }

  /** Pairing up a list without repetitions uses each of its elements in exactly one canonical match. */
  lemma {:induction false} PairUpPlayers(xs: seq<PlayerId>)
    requires Distinct(xs)
    ensures var r := PairUp(xs);
      PairwiseDisjoint(r) && RoundPlayers(r) == Elements(xs)
    decreases |xs|
  {
    var r := PairUp(xs);
    if |xs| == 0 {
      assert Elements(xs) == {};
    } else if |xs| == 1 {
      RoundPlayersSingle(r[0]);
      assert Elements(xs) == {xs[0]};
    } else {
      DistinctPrefix(xs, |xs| - 2);
      PairUpPlayers(xs[..|xs| - 2]);
      PairUpPlayersStep(xs);
    }
  }

  /** The step of `PairUpPlayers`: the first match pairs the last two elements, which the rest lacks. */
  lemma PairUpPlayersStep(xs: seq<PlayerId>)
    requires Distinct(xs) && |xs| >= 2
    requires Distinct(xs[..|xs| - 2])
    requires PairwiseDisjoint(PairUp(xs[..|xs| - 2])) && RoundPlayers(PairUp(xs[..|xs| - 2])) == Elements(xs[..|xs| - 2])
    ensures PairwiseDisjoint(PairUp(xs)) && RoundPlayers(PairUp(xs)) == Elements(xs)
  {
    var n := |xs|;
    var rest := xs[..n - 2];
    DistinctPrefix(xs, n - 2);
    var head := CreateMatch(xs[n - 1], Some(xs[n - 2])).value;
    assert PairUp(xs) == [head] + PairUp(rest);
    PrependGame(head, PairUp(rest), rest, xs[n - 1], xs[n - 2]);
    assert Elements(xs) == Elements(rest) + {xs[n - 1], xs[n - 2]} by {
      LastTwo(xs);
    }
  }

  /** A game of two players the rest lacks, put before a pairing of the rest. */
  lemma PrependGame(head: Match, tail: Round, rest: seq<PlayerId>, x: PlayerId, y: PlayerId)
    requires Members(head) == {x, y} && x !in rest && y !in rest
    requires PairwiseDisjoint(tail) && RoundPlayers(tail) == Elements(rest)
    ensures PairwiseDisjoint([head] + tail) && RoundPlayers([head] + tail) == Elements(rest) + {x, y}
  {
    RoundPlayersConcat([head], tail);
    RoundPlayersSingle(head);
    DisjointConcat([head], tail);
  }

  /**
   * Pairing up makes canonical matches, half as many as elements rounded
   * up, and only an odd count ends in the bye.
   */
  lemma {:induction false} PairUpByes(xs: seq<PlayerId>)
    requires Distinct(xs)
    ensures var r := PairUp(xs);
      && AllCanonical(r)
      && |r| == (|xs| + 1) / 2
      && (forall i :: 0 <= i < |r| && r[i].second.None? ==> i == |r| - 1 && |xs| % 2 == 1)
    decreases |xs|
  {
    if |xs| >= 2 {
      var n := |xs|;
      var rest := xs[..n - 2];
      DistinctPrefix(xs, n - 2);
      PairUpByes(rest);
      var r, tail := PairUp(xs), PairUp(rest);
      assert r == [r[0]] + tail;
      forall i | 1 <= i < |r| ensures r[i] == tail[i - 1] { }
    }
  }

  /** The pairing of a shuffle of the eligible players is a partial round. */
  lemma PairUpIsPartial(all: seq<PlayerId>, players: seq<Player>, d: Day)
    requires Distinct(all) && multiset(all) == multiset(Eligible(players, d))
    ensures PartialRound(PairUp(all), players, d)
  {
    PairUpPlayers(all);
    PairUpByes(all);
    var r := PairUp(all);
    assert Elements(all) == EligibleSet(players, d) by {
      forall p ensures p in all <==> p in Eligible(players, d) {
        assert p in all <==> p in multiset(all);
      }
    }
    forall i, j | 0 <= i < j < |r| ensures r[i].second.Some? || r[j].second.Some? { }
  }

  /**
   * The partial-round loop of `_generate_valid_round`: pop two players and
   * pair them while two are left, give a single one the bye.
   */
  method GeneratePartialRound(players: seq<Player>, d: Day, shuffle: (nat, seq<PlayerId>) -> seq<PlayerId>, draw: nat)
    returns (round: Round)
    requires IsShuffler(shuffle)
    ensures Distinct(shuffle(draw, Eligible(players, d)))
    ensures round == PairUp(shuffle(draw, Eligible(players, d)))
    ensures PartialRound(round, players, d)
  {
    var e := Eligible(players, d);
    var all := shuffle(draw, e);
    assert multiset(all) == multiset(e);
    PermutationDistinct(e, all);
    var xs := all;
    round := [];
    while |xs| > 0
      invariant Distinct(xs)
      invariant round + PairUp(xs) == PairUp(all)
      decreases |xs|
    {
      if |xs| >= 2 {
        var x, y := xs[|xs| - 1], xs[|xs| - 2];
        var rest := xs[..|xs| - 2];
        DistinctPrefix(xs, |xs| - 2);
        assert PairUp(xs) == [CreateMatch(x, Some(y)).value] + PairUp(rest);
        round := round + [CreateMatch(x, Some(y)).value];
        xs := rest;
      } else {
        round := round + [CreateMatch(xs[0], None).value];
        xs := [];
      }
    }
    PairUpIsPartial(all, players, d);
  }

  /** The `ValueError` of `_generate_valid_round`: the full round does not have `num_courts` matches. */
  datatype GenerationError = RoundTooShort

  /**
   * `_generate_valid_round`: a full round when at least `2n` players are
   * eligible, shuffled once per match, and otherwise a partial round from a
   * single shuffle; `next` is the next unused draw number. A negative `n`
   * passes the eligibility test, `range(n)` adds no match, and the length
   * test raises.
   */
  method GenerateValidRound(players: seq<Player>, n: int, d: Day, shuffle: (nat, seq<PlayerId>) -> seq<PlayerId>, draw: nat)
    returns (res: Result<(Round, bool), GenerationError>, next: nat)
    requires IsShuffler(shuffle)
    ensures res.Failure? <==> n < 0
    ensures res.Failure? ==> next == draw
    ensures res.Success? ==> (res.value.1 <==> IsPartialDate(players, n, d))
    ensures res.Success? && !res.value.1 ==> n >= 0 && FullRound(res.value.0, players, d, n) && next == draw + n
    ensures res.Success? && res.value.1 ==> PartialRound(res.value.0, players, d) && next == draw + 1
  {
    if |Eligible(players, d)| >= 2 * n {
      if n < 0 {
        return Failure(RoundTooShort), draw;
      }
      var round := GenerateFullRound(players, n, d, shuffle, draw);
      return Success((round, false)), draw + n;
    }
    var round := GeneratePartialRound(players, d, shuffle, draw);
    return Success((round, true)), draw + 1;
  }

  /** The generated round for date `d`, full or partial as its eligible count decides; none exists for a negative `n`. */
  predicate GeneratedRound(round: Round, players: seq<Player>, n: int, d: Day) {
    if IsPartialDate(players, n, d) then PartialRound(round, players, d) else n >= 0 && FullRound(round, players, d, n)
  }

  /**
   * `_generate_schedule`: one generated round per date, and `fixedRounds`
   * lists, in increasing order, exactly the indices of the partial rounds;
   * a negative `n` raises on the first date.
   */
  method GenerateSchedule(players: seq<Player>, n: int, dates: seq<Day>, shuffle: (nat, seq<PlayerId>) -> seq<PlayerId>)
    returns (res: Result<(Schedule, seq<nat>), GenerationError>)
    requires IsShuffler(shuffle)
    ensures res.Failure? <==> n < 0 && |dates| > 0
    ensures res.Success? ==> var (schedule, fixedRounds) := res.value;
      && |schedule| == |dates|
      && (forall i :: 0 <= i < |dates| ==> GeneratedRound(schedule[i], players, n, dates[i]))
      && (forall i: nat :: i in fixedRounds <==> i < |dates| && IsPartialDate(players, n, dates[i]))
      && (forall k :: 0 <= k < |fixedRounds| - 1 ==> fixedRounds[k] < fixedRounds[k + 1])
  {
    var schedule: Schedule, fixedRounds: seq<nat> := [], [];
    var draw := 0;
    for i := 0 to |dates|
      invariant |schedule| == i
      invariant i > 0 ==> n >= 0
      invariant forall j :: 0 <= j < i ==> GeneratedRound(schedule[j], players, n, dates[j])
      invariant forall j: nat :: j in fixedRounds <==> j < i && IsPartialDate(players, n, dates[j])
      invariant forall k :: 0 <= k < |fixedRounds| - 1 ==> fixedRounds[k] < fixedRounds[k + 1]
      invariant forall k :: 0 <= k < |fixedRounds| ==> fixedRounds[k] < i
    {
      var r;
      r, draw := GenerateValidRound(players, n, dates[i], shuffle, draw);
      if r.Failure? {
        return Failure(r.error);
      }
      var (round, partial) := r.value;
      ScheduleStep(schedule, fixedRounds, round, partial, players, n, dates, i);
      schedule := schedule + [round];
      if partial {
        fixedRounds := fixedRounds + [i];
      }
    }
    return Success((schedule, fixedRounds));
  }

  /** One date of `_generate_schedule`: appending its round, and its index when partial, keeps the loop's facts. */
  lemma ScheduleStep(schedule: Schedule, fixed: seq<nat>, r: Round, partial: bool, players: seq<Player>, n: int, dates: seq<Day>, i: nat)
    requires i < |dates| && |schedule| == i
    requires forall j :: 0 <= j < i ==> GeneratedRound(schedule[j], players, n, dates[j])
    requires forall j: nat :: j in fixed <==> j < i && IsPartialDate(players, n, dates[j])
    requires forall k :: 0 <= k < |fixed| - 1 ==> fixed[k] < fixed[k + 1]
    requires forall k :: 0 <= k < |fixed| ==> fixed[k] < i
    requires partial <==> IsPartialDate(players, n, dates[i])
    requires !partial ==> n >= 0 && FullRound(r, players, dates[i], n)
    requires partial ==> PartialRound(r, players, dates[i])
    ensures var s, f := schedule + [r], if partial then fixed + [i] else fixed;
      && |s| == i + 1
      && (forall j :: 0 <= j < i + 1 ==> GeneratedRound(s[j], players, n, dates[j]))
      && (forall j: nat :: j in f <==> j < i + 1 && IsPartialDate(players, n, dates[j]))
      && (forall k :: 0 <= k < |f| - 1 ==> f[k] < f[k + 1])
      && (forall k :: 0 <= k < |f| ==> f[k] < i + 1)
  {
    var s := schedule + [r];
    assert forall j :: 0 <= j < i ==> s[j] == schedule[j];
    assert GeneratedRound(s[i], players, n, dates[i]);
    if partial {
      PushIndex(fixed, i);
    }
  }

  /** Appending an index above every listed one keeps the list increasing and adds just that index. */
  lemma PushIndex(fixed: seq<nat>, i: nat)
    requires forall k :: 0 <= k < |fixed| - 1 ==> fixed[k] < fixed[k + 1]
    requires forall k :: 0 <= k < |fixed| ==> fixed[k] < i
    ensures var f := fixed + [i];
      && (forall k :: 0 <= k < |f| - 1 ==> f[k] < f[k + 1])
      && (forall k :: 0 <= k < |f| ==> f[k] < i + 1)
      && (forall j: nat :: j in f <==> j in fixed || j == i)
  {
    var f := fixed + [i];
    assert forall k :: 0 <= k < |fixed| ==> f[k] == fixed[k];
  }
}
