/**
 * `assign_remaining_players_by_skill`: the players left after the fill are
 * sorted by skill score, highest first, and each in turn goes to a team
 * `find_best_team_for_player` picks, one with the lowest
 * `(total_score, len(players))`.
 *
 * Python's `list.sort` is stable, also with `reverse=True`: players with
 * equal scores keep their order. The sort is modelled as a stable
 * insertion sort (`SortBySkill`), whose output is the one stable
 * descending order of its input; the random tie-break among lowest teams
 * is a choice, and the choices made are a ghost result.
 */
module SkillPass {
  import opened Entities
  import opened Teams

  // ---------------------------------------------------------------- the sort

  /** Highest `ScoreOf` first. */
  predicate Descending(s: seq<Player>) {
    forall i, j :: 0 <= i < j < |s| ==> ScoreOf(s[i]) >= ScoreOf(s[j])
  }

  /** Where a stable descending insertion puts `x`: before the first player with a smaller key. */
  function InsertPos(s: seq<Player>, x: Player): (i: nat)
    ensures i <= |s|
    ensures forall j :: 0 <= j < i ==> ScoreOf(s[j]) >= ScoreOf(x)
    ensures i < |s| ==> ScoreOf(s[i]) < ScoreOf(x)
  {
    if s == [] || ScoreOf(s[0]) < ScoreOf(x) then 0 else 1 + InsertPos(s[1..], x)
  }

  function Insert(s: seq<Player>, x: Player): (r: seq<Player>)
    ensures |r| == |s| + 1
  {
    var i := InsertPos(s, x);
    s[..i] + [x] + s[i..]
  }

  /** `list.sort(key=..., reverse=True)`: later players are inserted after the ones with an equal key. */
  function SortBySkill(ps: seq<Player>): (r: seq<Player>)
    ensures |r| == |ps|
  {
    if ps == [] then [] else Insert(SortBySkill(ps[..|ps| - 1]), ps[|ps| - 1])
  }

  /** The players of `s` whose key is `v`, in order. */
  function WithKey(s: seq<Player>, v: real): seq<Player> {
    if s == [] then []
    else WithKey(s[..|s| - 1], v) + (if ScoreOf(s[|s| - 1]) == v then [s[|s| - 1]] else [])
  }

  lemma {:induction false} WithKeyAppend(a: seq<Player>, b: seq<Player>, v: real)
    ensures WithKey(a + b, v) == WithKey(a, v) + WithKey(b, v)
  {
    if b == [] {
      assert a + b == a;
    } else {
      var n := |b| - 1;
      assert (a + b)[..|a + b| - 1] == a + b[..n];
      WithKeyAppend(a, b[..n], v);
    }
  }

  /** A list without a player of key `v` has none to select. */
  lemma {:induction false} WithKeyNone(s: seq<Player>, v: real)
    requires forall j :: 0 <= j < |s| ==> ScoreOf(s[j]) != v
    ensures WithKey(s, v) == []
  {
    if s != [] {
      WithKeyNone(s[..|s| - 1], v);
    }
  }

  /** Insertion into a descending list keeps it descending. */
  lemma InsertDescending(s: seq<Player>, x: Player)
    requires Descending(s)
    ensures Descending(Insert(s, x))
  {
    var i := InsertPos(s, x);
    var r := Insert(s, x);
    forall a, b | 0 <= a < b < |r|
      ensures ScoreOf(r[a]) >= ScoreOf(r[b])
    {
      if a < i && b > i {
        assert r[b] == s[b - 1];
      } else if b > i {
        assert r[b] == s[b - 1];
      }
    }
  }

  lemma InsertMultiset(s: seq<Player>, x: Player)
    ensures multiset(Insert(s, x)) == multiset(s) + multiset{x}
  {
    var i := InsertPos(s, x);
    assert s == s[..i] + s[i..];
  }

  /** In a descending list, everyone from the insertion position on has a smaller key. */
  lemma InsertPosBelow(s: seq<Player>, x: Player)
    requires Descending(s)
    ensures forall j :: InsertPos(s, x) <= j < |s| ==> ScoreOf(s[j]) < ScoreOf(x)
  {
  }

  /** Putting `x` before players of smaller keys adds it after the players of its key. */
  lemma WithKeySingle(x: Player, v: real)
    ensures WithKey([x], v) == if ScoreOf(x) == v then [x] else []
  {
    assert [x][..0] == [];
  }

  lemma InsertWithKey(l: seq<Player>, x: Player, r: seq<Player>, v: real)
    requires ScoreOf(x) == v ==> WithKey(r, v) == []
    ensures WithKey(l + [x] + r, v) == WithKey(l + r, v) + WithKey([x], v)
  {
    var wl, wx, wr := WithKey(l, v), WithKey([x], v), WithKey(r, v);
    WithKeySingle(x, v);
    WithKeyAppend(l + [x], r, v);
    WithKeyAppend(l, [x], v);
    WithKeyAppend(l, r, v);
    if ScoreOf(x) == v {
      assert wl + wx + wr == wl + wx;
      assert wl + wr == wl;
    } else {
      assert wl + wx + wr == wl + wr;
      assert wl + wr + wx == wl + wr;
    }
  }

  /** Inserting `x` keeps the order among the players of each key and puts `x` last among its own. */
  lemma InsertKeepsOrder(s: seq<Player>, x: Player, v: real)
    requires Descending(s)
    ensures WithKey(Insert(s, x), v) == WithKey(s, v) + WithKey([x], v)
  {
    var i := InsertPos(s, x);
    InsertPosBelow(s, x);
    assert s == s[..i] + s[i..];
    assert forall j :: 0 <= j < |s[i..]| ==> s[i..][j] == s[i + j];
    if ScoreOf(x) == v {
      WithKeyNone(s[i..], v);
    }
    InsertWithKey(s[..i], x, s[i..], v);
  }

  /**
   * The sorted list is in descending key order, holds the same players as
   * often as the input, and keeps the input order among equal keys.
   */
  lemma {:induction false} SortBySkillCorrect(ps: seq<Player>)
    ensures Descending(SortBySkill(ps))
    ensures multiset(SortBySkill(ps)) == multiset(ps)
    ensures forall v :: WithKey(SortBySkill(ps), v) == WithKey(ps, v)
  {
    if ps != [] {
      var n := |ps| - 1;
      var init, x := ps[..n], ps[n];
      assert ps == init + [x];
      assert multiset(ps) == multiset(init) + multiset{x};
      var s0 := SortBySkill(init);
      assert SortBySkill(ps) == Insert(s0, x);
      SortBySkillCorrect(init);
      InsertDescending(s0, x);
      InsertMultiset(s0, x);
      forall v
        ensures WithKey(SortBySkill(ps), v) == WithKey(ps, v)
      {
        InsertKeepsOrder(s0, x, v);
        WithKeySingle(x, v);
        assert WithKey(ps, v) == WithKey(init, v) + (if ScoreOf(x) == v then [x] else []);
      }
    }
  }

  /**
   * A descending list is determined by what it selects for each key: two
   * of them that agree on every `WithKey` are equal. So `SortBySkill` is
   * the only stable descending order of its input.
   */
  lemma {:induction false} DescendingUnique(s: seq<Player>, t: seq<Player>)
    requires Descending(s) && Descending(t)
    requires forall v :: WithKey(s, v) == WithKey(t, v)
    ensures s == t
    decreases |s|, 1
  {
    if s != [] {
      WithKeyMember(s, |s| - 1);
    }
    if t != [] {
      WithKeyMember(t, |t| - 1);
    }
    if s != [] && t != [] {
      DescendingUniqueLast(s, t);
    }
  }

  /** The induction step: equal last players, and equal selections of the rest. */
  lemma {:induction false} DescendingUniqueLast(s: seq<Player>, t: seq<Player>)
    requires Descending(s) && Descending(t) && s != [] && t != []
    requires forall v :: WithKey(s, v) == WithKey(t, v)
    ensures s == t
    decreases |s|, 0
  {
    var a := s[|s| - 1];
    var b := t[|t| - 1];
    MinKeyBlock(s, t, a, b);
    var v := ScoreOf(a);
    var s' := s[..|s| - 1];
    var t' := t[..|t| - 1];
    forall w
      ensures WithKey(s', w) == WithKey(t', w)
    {
      var ws := WithKey(s, w);
      if w == v {
        assert ws == WithKey(s', w) + [a] && ws == WithKey(t', w) + [b];
        assert WithKey(s', w) == ws[..|ws| - 1] == WithKey(t', w);
      } else {
        assert ws == WithKey(s', w) + [] && ws == WithKey(t', w) + [];
        assert WithKey(s', w) + [] == WithKey(s', w) && WithKey(t', w) + [] == WithKey(t', w);
      }
    }
    var wv := WithKey(s, v);
    assert wv == WithKey(s', v) + [a] && wv == WithKey(t', v) + [b];
    assert a == wv[|wv| - 1] == b;
    assert Descending(s') && Descending(t');
    DescendingUnique(s', t');
    assert s == s' + [a] && t == t' + [b];
  }

  /** Two descending lists with the same selections end in players of the same key. */
  lemma MinKeyBlock(s: seq<Player>, t: seq<Player>, a: Player, b: Player)
    requires Descending(s) && Descending(t) && s != [] && t != []
    requires a == s[|s| - 1] && b == t[|t| - 1]
    requires forall v :: WithKey(s, v) == WithKey(t, v)
    ensures ScoreOf(a) == ScoreOf(b)
  {
    if ScoreOf(a) < ScoreOf(b) {
      assert b in WithKey(t, ScoreOf(b)) by { WithKeyMember(t, |t| - 1); }
      assert a in WithKey(s, ScoreOf(a)) by { WithKeyMember(s, |s| - 1); }
      assert a in WithKey(t, ScoreOf(a));
      WithKeyFrom(t, ScoreOf(a), a);
      assert false;
    } else if ScoreOf(b) < ScoreOf(a) {
      assert b in WithKey(t, ScoreOf(b)) by { WithKeyMember(t, |t| - 1); }
      assert b in WithKey(s, ScoreOf(b));
      WithKeyFrom(s, ScoreOf(b), b);
      assert false;
    }
  }

  /** The last player of a list is selected by its own key. */
  lemma WithKeyMember(s: seq<Player>, i: nat)
    requires i == |s| - 1
    ensures s[i] in WithKey(s, ScoreOf(s[i]))
  {
  }

  /** A selected player is a player of the list with that key; in a descending list, none lies below the last. */
  lemma {:induction false} WithKeyFrom(s: seq<Player>, v: real, x: Player)
    requires Descending(s) && s != [] && x in WithKey(s, v)
    ensures ScoreOf(x) == v && ScoreOf(x) >= ScoreOf(s[|s| - 1])
  {
    var n := |s| - 1;
    if n > 0 && x in WithKey(s[..n], v) {
      assert Descending(s[..n]);
      WithKeyFrom(s[..n], v, x);
      assert ScoreOf(s[..n][n - 1]) >= ScoreOf(s[n]);
    }
  }

  // ---------------------------------------------------------------- the greedy placement

  /** On rosters: team `k` has a smallest `(total_score, len(players))`, its total being its roster's sum. */
  predicate LowestRoster(rs: seq<seq<Player>>, k: nat) {
    k < |rs| && forall j :: 0 <= j < |rs| ==> KeyAtMost((SumScores(rs[k]), |rs[k]|), (SumScores(rs[j]), |rs[j]|))
  }

  /** Every choice names one of `n` teams. */
  predicate InRange(cs: seq<nat>, n: nat) {
    forall j :: 0 <= j < |cs| ==> cs[j] < n
  }

  /** The rosters after `ps[j]` was appended to roster `cs[j]`, for each `j` in order. */
  function Replay(rs: seq<seq<Player>>, ps: seq<Player>, cs: seq<nat>): (r: seq<seq<Player>>)
    requires |ps| == |cs|
    ensures |r| == |rs|
  {
    if ps == [] then rs
    else
      var n := |ps| - 1;
      var before := Replay(rs, ps[..n], cs[..n]);
      if cs[n] < |before| then before[cs[n] := before[cs[n]] + [ps[n]]] else before
  }

  /** Each player in turn went to a team that was lowest just before. */
  predicate Greedy(rs: seq<seq<Player>>, ps: seq<Player>, cs: seq<nat>)
    requires |ps| == |cs|
  {
    if ps == [] then true
    else
      var n := |ps| - 1;
      Greedy(rs, ps[..n], cs[..n]) && LowestRoster(Replay(rs, ps[..n], cs[..n]), cs[n])
  }

  /** A team that is lowest by its running total is lowest by its roster, while the totals are consistent. */
  lemma LowestIsLowestRoster(teams: seq<Team>, k: nat)
    requires IsLowest(teams, k) && TotalsConsistent(teams)
    ensures LowestRoster(Rosters(teams), k)
  {
  }

  /** The invariant of the placement loop, after the first `i` players. */
  ghost predicate SkillState(rs: seq<seq<Player>>, consistent: bool, rs0: seq<seq<Player>>, consistent0: bool,
                             ps: seq<Player>, i: nat, cs: seq<nat>)
  {
    && i <= |ps| && |cs| == i && InRange(cs, |rs0|)
    && rs == Replay(rs0, ps[..i], cs)
    && (consistent0 ==> consistent && Greedy(rs0, ps[..i], cs))
  }

  lemma SkillAdvance(rs: seq<seq<Player>>, rs': seq<seq<Player>>, consistent: bool, consistent': bool,
                     rs0: seq<seq<Player>>, consistent0: bool, ps: seq<Player>, i: nat, cs: seq<nat>, k: nat)
    requires SkillState(rs, consistent, rs0, consistent0, ps, i, cs) && i < |ps| && k < |rs|
    requires rs' == rs[k := rs[k] + [ps[i]]]
    requires consistent ==> consistent' && LowestRoster(rs, k)
    ensures SkillState(rs', consistent', rs0, consistent0, ps, i + 1, cs + [k])
  {
    assert ps[..i + 1][..i] == ps[..i] && ps[..i + 1][i] == ps[i];
    assert (cs + [k])[..i] == cs;
  }

  /** One turn of `for player in unassigned`: the player goes to a lowest team. */
  method SkillStep(teams: seq<Team>, ps: seq<Player>, i: nat,
                   ghost rs0: seq<seq<Player>>, ghost consistent0: bool, ghost cs: seq<nat>,
                   ghost acs0: seq<Account>)
    returns (ghost cs': seq<nat>)
    requires DistinctTeams(teams) && |teams| > 0 && i < |ps|
    requires SkillState(Rosters(teams), TotalsConsistent(teams), rs0, consistent0, ps, i, cs)
    requires Follows(acs0, rs0, Accounts(teams), Rosters(teams))
    modifies teams
    ensures SkillState(Rosters(teams), TotalsConsistent(teams), rs0, consistent0, ps, i + 1, cs')
    ensures Follows(acs0, rs0, Accounts(teams), Rosters(teams))
  {
    ghost var acs := Accounts(teams);
    LowestExists(teams);
    var best: nat :| IsLowest(teams, best);
    ghost var rs := Rosters(teams);
    ghost var consistent := TotalsConsistent(teams);
    if consistent {
      LowestIsLowestRoster(teams, best);
    }
    AddToTeam(teams, best, ps[i]);
    FollowsTransitive(acs0, rs0, acs, rs, Accounts(teams), Rosters(teams));
    SkillAdvance(rs, Rosters(teams), consistent, TotalsConsistent(teams), rs0, consistent0, ps, i, cs, best);
    cs' := cs + [best];
  }

  /** The loop of `assign_remaining_players_by_skill`, over the sorted players. */
  method PlaceBySkill(teams: seq<Team>, ps: seq<Player>) returns (ghost choices: seq<nat>)
    requires DistinctTeams(teams) && (|teams| > 0 || ps == [])
    modifies teams
    ensures |choices| == |ps| && InRange(choices, |teams|)
    ensures Rosters(teams) == Replay(old(Rosters(teams)), ps, choices)
    ensures old(TotalsConsistent(teams)) ==> TotalsConsistent(teams) && Greedy(old(Rosters(teams)), ps, choices)
    ensures Follows(old(Accounts(teams)), old(Rosters(teams)), Accounts(teams), Rosters(teams))
  {
    ghost var rs0 := Rosters(teams);
    ghost var acs0 := Accounts(teams);
    ghost var consistent0 := TotalsConsistent(teams);
    FollowsRefl(acs0, rs0);
    choices := [];
    for i := 0 to |ps|
      invariant SkillState(Rosters(teams), TotalsConsistent(teams), rs0, consistent0, ps, i, choices)
      invariant Follows(acs0, rs0, Accounts(teams), Rosters(teams))
    {
      choices := SkillStep(teams, ps, i, rs0, consistent0, choices, acs0);
    }
    assert ps[..|ps|] == ps;
  }

  /**
   * `assign_remaining_players_by_skill`. Python's `sort` compares the keys,
   * and a missing score there raises `TypeError`, so with two or more
   * players all must be scored; `min` over no teams raises `ValueError`.
   * The players go to the teams in `SortBySkill` order, each to a lowest
   * team, and nothing else changes.
   */
  method AssignRemainingBySkill(teams: seq<Team>, unassigned: seq<Player>) returns (ghost choices: seq<nat>)
    requires DistinctTeams(teams) && (|teams| > 0 || unassigned == [])
    requires |unassigned| <= 1 || forall p :: p in unassigned ==> p.skillScore.Some?
    modifies teams
    ensures |choices| == |unassigned| && InRange(choices, |teams|)
    ensures Rosters(teams) == Replay(old(Rosters(teams)), SortBySkill(unassigned), choices)
    ensures old(TotalsConsistent(teams)) ==> TotalsConsistent(teams) && Greedy(old(Rosters(teams)), SortBySkill(unassigned), choices)
    ensures Placed(teams) == old(Placed(teams)) + multiset(unassigned)
    ensures Extends(old(Rosters(teams)), Rosters(teams))
    ensures Follows(old(Accounts(teams)), old(Rosters(teams)), Accounts(teams), Rosters(teams))
  {
    var sorted := SortBySkill(unassigned);
    SortBySkillCorrect(unassigned);
    if |teams| == 0 {
      assert sorted == [];
    }
    ghost var rs0 := Rosters(teams);
    choices := PlaceBySkill(teams, sorted);
    ReplayPlaced(rs0, sorted, choices);
  }

  // ---------------------------------------------------------------- properties

  /** Replaying in-range choices appends to the rosters and places exactly the players replayed. */
  lemma {:induction false} ReplayPlaced(rs: seq<seq<Player>>, ps: seq<Player>, cs: seq<nat>)
    requires |ps| == |cs| && InRange(cs, |rs|)
    ensures multiset(Flatten(Replay(rs, ps, cs))) == multiset(Flatten(rs)) + multiset(ps)
    ensures Extends(rs, Replay(rs, ps, cs))
  {
    if ps != [] {
      var n := |ps| - 1;
      var before := Replay(rs, ps[..n], cs[..n]);
      ReplayPlaced(rs, ps[..n], cs[..n]);
      PlacedAfterAdd(before, Replay(rs, ps, cs), cs[n], ps[n]);
      ExtendsTransitive(rs, before, Replay(rs, ps, cs));
      assert ps == ps[..n] + [ps[n]];
    }
  }

  /** No two team totals differ by more than `d`. */
  predicate SpreadAtMost(rs: seq<seq<Player>>, d: real) {
    forall i, j :: 0 <= i < |rs| && 0 <= j < |rs| ==> SumScores(rs[i]) - SumScores(rs[j]) <= d
  }

  /** Adding a player of score in `[0, d]` to a lowest team keeps the totals within `d` of each other. */
  lemma SpreadStep(rs: seq<seq<Player>>, k: nat, p: Player, d: real)
    requires LowestRoster(rs, k) && SpreadAtMost(rs, d) && 0.0 <= ScoreOf(p) <= d
    ensures SpreadAtMost(rs[k := rs[k] + [p]], d)
  {
    SumScoresAppend(rs[k], p);
  }

  /**
   * The balance the greedy pass keeps: when every player's score lies in
   * `[0, d]` and the team totals start within `d` of each other, they end
   * within `d` of each other.
   */
  lemma {:induction false} GreedySpread(rs: seq<seq<Player>>, ps: seq<Player>, cs: seq<nat>, d: real)
    requires |ps| == |cs| && Greedy(rs, ps, cs) && SpreadAtMost(rs, d)
    requires forall p :: p in ps ==> 0.0 <= ScoreOf(p) <= d
    ensures SpreadAtMost(Replay(rs, ps, cs), d)
  {
    if ps != [] {
      var n := |ps| - 1;
      assert forall p :: p in ps[..n] ==> p in ps;
      GreedySpread(rs, ps[..n], cs[..n], d);
      SpreadStep(Replay(rs, ps[..n], cs[..n]), cs[n], ps[n], d);
    }
  }
}
