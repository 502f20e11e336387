/**
 * Matches of the earlier engine: a match is a set of players and a date,
 * and the only way to obtain one is a constructor that checks it.
 */
module LegacyMatches {
  import opened Wrappers
  import Players

  type Day = Players.Day

  /** A participant of the earlier engine; equality compares name and unavailable dates. */
  datatype Player = Player(name: string, cannotPlay: seq<Day>)

  /** A match: the set of its players and the day it is played on. */
  datatype Match = Match(players: set<Player>, date: Day)

  /** Why the match constructor refuses its arguments (both are `NotValidMatchError`). */
  datatype MatchError = CannotPlayOn(name: string, date: Day) | NotTwoPlayers

  /** Whether the entrant can play on day `d`. */
  predicate Available(e: Player, d: Day) {
    d !in e.cannotPlay
  }

  /** What the constructor accepts: every player available on `d`, and exactly two of them. */
  predicate Admissible(players: set<Player>, d: Day) {
    (forall e :: e in players ==> Available(e, d)) && |players| == 2
  }

  /** A match value the constructor could have produced. */
  predicate Constructed(m: Match) {
    Admissible(m.players, m.date)
  }

  /** The outcome of the constructor when only success matters. */
  function Construct(players: set<Player>, d: Day): (r: Option<Match>)
    ensures r.Some? <==> Admissible(players, d)
    ensures r.Some? ==> r.value.players == players && r.value.date == d && Constructed(r.value)
  {
    if Admissible(players, d) then Some(Match(players, d)) else None
  }

  /**
   * `Match.__init__`: every player is checked for availability first (the
   * first unavailable one is reported), then the number of players.
   */
  method NewMatch(players: set<Player>, d: Day) returns (r: Result<Match, MatchError>)
    ensures r.Success? <==> Admissible(players, d)
    ensures r.Success? ==> r.value == Match(players, d)
    ensures (exists e :: e in players && !Available(e, d)) <==> r.Failure? && r.error.CannotPlayOn?
    ensures r.Failure? && r.error.CannotPlayOn? ==>
      exists e :: e in players && !Available(e, d) && e.name == r.error.name && r.error.date == d
  {
    var rest := players;
    while rest != {}
      invariant rest <= players
      invariant forall e :: e in players - rest ==> Available(e, d)
      decreases rest
    {
      var e :| e in rest;
      if d in e.cannotPlay {
        return Failure(CannotPlayOn(e.name, d));
      }
      rest := rest - {e};
    }
    if |players| != 2 {
      return Failure(NotTwoPlayers);
    }
    return Success(Match(players, d));
  }

  /** Two exactly when they are distinct: the pair set of the constructor call in the factory. */
  lemma PairSize(p: Player, q: Player)
    ensures |{p, q}| == 2 <==> p != q
  {
    if p == q {
      assert {p, q} == {p};
    }
  }

  // String form

  /** Python's ordering of strings: lexicographic by character, a prefix first. */
  predicate LexLeq(a: string, b: string)
    decreases |a|
  {
    a == [] || (b != [] && (a[0] < b[0] || (a[0] == b[0] && LexLeq(a[1..], b[1..]))))
  }

  /** The ordering is total. */
  lemma {:induction false} LexLeqTotal(a: string, b: string)
    ensures LexLeq(a, b) || LexLeq(b, a)
    decreases |a|
  {
    if a != [] && b != [] && a[0] == b[0] {
      LexLeqTotal(a[1..], b[1..]);
    }
  }

  /** The ordering is antisymmetric. */
  lemma {:induction false} LexLeqAntisymmetric(a: string, b: string)
    requires LexLeq(a, b) && LexLeq(b, a)
    ensures a == b
    decreases |a|
  {
    if a != [] {
      LexLeqAntisymmetric(a[1..], b[1..]);
      assert a == [a[0]] + a[1..] && b == [b[0]] + b[1..];
    }
  }

  /** Two names sorted as `sorted` sorts them. */
  function SortedPair(a: string, b: string): (r: (string, string))
    ensures multiset{r.0, r.1} == multiset{a, b} && LexLeq(r.0, r.1)
  {
    LexLeqTotal(a, b);
    if LexLeq(a, b) then (a, b) else (b, a)
  }

  /** Sorting two names does not depend on the order they come in. */
  lemma SortedPairSymmetric(a: string, b: string)
    ensures SortedPair(a, b) == SortedPair(b, a)
  {
    if LexLeq(a, b) && LexLeq(b, a) {
      LexLeqAntisymmetric(a, b);
    }
  }

  /** Two names with " vs " between them. */
  function Joined(names: (string, string)): string {
    names.0 + " vs " + names.1
  }

  /** `s` is the string form of `m`: its two players' names, sorted, with " vs " between them. */
  ghost predicate IsLabel(m: Match, s: string) {
    exists p, q :: m.players == {p, q} && p != q && s == Joined(SortedPair(p.name, q.name))
  }

  /** Two distinct players are the same pair only in one or the other order. */
  lemma PairEquality(a: Player, b: Player, x: Player, y: Player)
    requires {a, b} == {x, y} && a != b
    ensures (a == x && b == y) || (a == y && b == x)
  {
    assert x in {a, b} && y in {a, b};
    assert a in {x, y} && b in {x, y};
  }

  /** A match has at most one string form, whichever of its players is named first. */
  lemma LabelUnique(m: Match, s: string, t: string)
    requires IsLabel(m, s) && IsLabel(m, t)
    ensures s == t
  {
    var p, q :| m.players == {p, q} && p != q && s == Joined(SortedPair(p.name, q.name));
    var x, y :| m.players == {x, y} && x != y && t == Joined(SortedPair(x.name, y.name));
    PairEquality(p, q, x, y);
    SortedPairSymmetric(p.name, q.name);
  }

  /** Every match of two players has a string form. */
  lemma LabelExists(m: Match)
    requires |m.players| == 2
    ensures exists s :: IsLabel(m, s)
  {
    var p :| p in m.players;
    assert |m.players - {p}| == 1;
    var q :| q in m.players - {p};
    var rest := m.players - {p};
    assert rest == (rest - {q}) + {q};
    assert |rest - {q}| == 0;
    assert rest == {q};
    assert m.players == rest + {p};
    assert IsLabel(m, Joined(SortedPair(p.name, q.name)));
  }

  /** `Match.__str__`. */
  ghost function Label(m: Match): (r: string)
    requires |m.players| == 2
    ensures IsLabel(m, r)
  {
    LabelExists(m);
    var s :| IsLabel(m, s);
    s
  }

  /** John against Jane reads "Jane vs John". */
  lemma LabelExample(d: Day)
    ensures |{Player("John", []), Player("Jane", [])}| == 2
    ensures Label(Match({Player("John", []), Player("Jane", [])}, d)) == "Jane vs John"
  {
    var john, jane := Player("John", []), Player("Jane", []);
    assert john.name[1] != jane.name[1];
    PairSize(john, jane);
    var m := Match({john, jane}, d);
    assert LexLeq(jane.name, john.name) by {
      assert jane.name[0] == john.name[0] && jane.name[1..][0] < john.name[1..][0];
    }
    assert Joined(SortedPair(john.name, jane.name)) == "Jane vs John";
    assert IsLabel(m, "Jane vs John");
    LabelUnique(m, Label(m), "Jane vs John");
  }

  // The factory

  /** The matches of `p` against each of `rest` in turn that the constructor accepts. */
  function MatchesWithFirst(p: Player, rest: seq<Player>, d: Day): (r: seq<Match>)
    ensures forall m :: m in r <==> exists j :: 0 <= j < |rest| && Admissible({p, rest[j]}, d) && m == Match({p, rest[j]}, d)
    ensures |r| <= |rest|
  {
    if rest == [] then []
    else
      var tail := MatchesWithFirst(p, rest[1..], d);
      assert forall j :: 0 <= j < |rest| - 1 ==> rest[1..][j] == rest[j + 1];
      assert forall m :: m in tail <==> exists j :: 1 <= j < |rest| && Admissible({p, rest[j]}, d) && m == Match({p, rest[j]}, d) by {
        forall m | m in tail ensures exists j :: 1 <= j < |rest| && Admissible({p, rest[j]}, d) && m == Match({p, rest[j]}, d) {
          var j :| 0 <= j < |rest[1..]| && Admissible({p, rest[1..][j]}, d) && m == Match({p, rest[1..][j]}, d);
          assert rest[j + 1] == rest[1..][j];
        }
        forall m, j | 1 <= j < |rest| && Admissible({p, rest[j]}, d) && m == Match({p, rest[j]}, d) ensures m in tail {
          assert rest[1..][j - 1] == rest[j];
        }
      }
      match Construct({p, rest[0]}, d)
      case Some(m) => [m] + tail
      case None => tail
  }

  /**
   * `generate_valid_new_match`: for every pair of players in the order of
   * `combinations`, the match on `d` if the constructor accepts it. The
   * `in matches` test compares identity and never holds for a new match, so
   * the model has no such filter.
   */
  function Candidates(players: seq<Player>, d: Day): (r: seq<Match>)
    ensures forall m :: m in r ==> Constructed(m) && m.date == d
  {
    if |players| < 2 then []
    else MatchesWithFirst(players[0], players[1..], d) + Candidates(players[1..], d)
  }

  /** Exactly the matches of two available players at positions `i < j` are yielded. */
  lemma {:induction false} CandidatesMember(players: seq<Player>, d: Day, m: Match)
    ensures m in Candidates(players, d) <==>
      exists i, j :: 0 <= i < j < |players| && Admissible({players[i], players[j]}, d) && m == Match({players[i], players[j]}, d)
    decreases |players|
  {
    if |players| >= 2 {
      var tail := players[1..];
      CandidatesMember(tail, d, m);
      if m in Candidates(players, d) {
        if m in MatchesWithFirst(players[0], tail, d) {
          var j :| 0 <= j < |tail| && Admissible({players[0], tail[j]}, d) && m == Match({players[0], tail[j]}, d);
          assert tail[j] == players[j + 1];
        } else {
          var i, j :| 0 <= i < j < |tail| && Admissible({tail[i], tail[j]}, d) && m == Match({tail[i], tail[j]}, d);
          assert tail[i] == players[i + 1] && tail[j] == players[j + 1];
        }
      }
      if exists i, j :: 0 <= i < j < |players| && Admissible({players[i], players[j]}, d) && m == Match({players[i], players[j]}, d) {
        var i, j :| 0 <= i < j < |players| && Admissible({players[i], players[j]}, d) && m == Match({players[i], players[j]}, d);
        if i == 0 {
          assert tail[j - 1] == players[j];
        } else {
          assert tail[i - 1] == players[i] && tail[j - 1] == players[j];
        }
      }
    }
  }

  /** A player who cannot play on `d` is in no yielded match. */
  lemma {:induction false} UnavailableWithFirst(p: Player, rest: seq<Player>, d: Day)
    requires !Available(p, d)
    ensures MatchesWithFirst(p, rest, d) == []
    decreases |rest|
  {
    if rest != [] {
      assert p in {p, rest[0]};
      UnavailableWithFirst(p, rest[1..], d);
    }
  }

  /** Nothing is yielded when nobody can play on `d`. */
  lemma {:induction false} NobodyAvailable(players: seq<Player>, d: Day)
    requires forall i :: 0 <= i < |players| ==> !Available(players[i], d)
    ensures Candidates(players, d) == []
    decreases |players|
  {
    if |players| >= 2 {
      UnavailableWithFirst(players[0], players[1..], d);
      NobodyAvailable(players[1..], d);
    }
  }

  /** With distinct players who can all play, every one of the `n * (n - 1) / 2` pairs is yielded. */
  lemma {:induction false} AllAvailableCount(players: seq<Player>, d: Day)
    requires forall i, j :: 0 <= i < j < |players| ==> players[i] != players[j]
    requires forall i :: 0 <= i < |players| ==> Available(players[i], d)
    ensures 2 * |Candidates(players, d)| == |players| * (|players| - 1)
    decreases |players|
  {
    if |players| >= 2 {
      var tail := players[1..];
      AllAvailableWithFirst(players[0], tail, d);
      AllAvailableCount(tail, d);
    }
  }

  /** A player who can play meets each of the other distinct available players once. */
  lemma {:induction false} AllAvailableWithFirst(p: Player, rest: seq<Player>, d: Day)
    requires Available(p, d) && forall j :: 0 <= j < |rest| ==> Available(rest[j], d) && rest[j] != p
    ensures |MatchesWithFirst(p, rest, d)| == |rest|
    decreases |rest|
  {
    if rest != [] {
      PairSize(p, rest[0]);
      AllAvailableWithFirst(p, rest[1..], d);
    }
  }
}
