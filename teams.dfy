/**
 * The mutable team record, `add_player_to_team`, and the choice of the team
 * a player goes to (`find_best_team_for_player`), together with the views
 * of a list of teams (their rosters, everything placed so far) that the
 * assignment passes are specified by.
 */
module Teams {
  import opened Wrappers
  import opened Entities

  /**
   * A team. Its id, name and coaches are fixed when it is seeded; its
   * roster, sponsor and running total change as players are added.
   */
  class Team {
    const teamId: string
    const name: string
    const head: Coach
    const assistant: Option<Coach>
    var players: seq<Player>
    var sponsor: Option<string>
    var total: real

    /** The running total is the sum of the roster's scores. */
    predicate TotalConsistent()
      reads this
    {
      total == SumScores(players)
    }

    constructor (teamId: string, name: string, head: Coach, assistant: Option<Coach>)
      ensures this.teamId == teamId && this.name == name
      ensures this.head == head && this.assistant == assistant
      ensures players == [] && sponsor == None && total == 0.0
      ensures TotalConsistent()
    {
      this.teamId := teamId;
      this.name := name;
      this.head := head;
      this.assistant := assistant;
      players := [];
      sponsor := None;
      total := 0.0;
    }

    /**
     * `add_player_to_team`: the player goes at the end of the roster, a
     * truthy sponsor replaces the team's, and a present score is added to
     * the total. Nothing else about the team changes.
     */
    method AddPlayer(p: Player)
      modifies this
      ensures players == old(players) + [p]
      ensures sponsor == (if Truthy(p.sponsor) then p.sponsor else old(sponsor))
      ensures total == old(total) + ScoreOf(p)
      ensures old(TotalConsistent()) ==> TotalConsistent()
    {
      players := players + [p];
      if Truthy(p.sponsor) {
        sponsor := p.sponsor;
      }
      if p.skillScore.Some? {
        total := total + p.skillScore.value;
      }
      SumScoresAppend(old(players), p);
    }
  }

  /** No team object occurs twice in the list, so changing one changes no other. */
  predicate DistinctTeams(teams: seq<Team>) {
    forall i, j :: 0 <= i < j < |teams| ==> teams[i] != teams[j]
  }

  /** The rosters of the teams, in team order. */
  ghost function Rosters(teams: seq<Team>): (rs: seq<seq<Player>>)
    reads teams
    ensures |rs| == |teams|
    ensures forall i :: 0 <= i < |teams| ==> rs[i] == teams[i].players
  {
    seq(|teams|, i reads teams requires 0 <= i < |teams| => teams[i].players)
  }

  /** All rosters one after another. */
  function Flatten(rs: seq<seq<Player>>): seq<Player> {
    if rs == [] then [] else Flatten(rs[..|rs| - 1]) + rs[|rs| - 1]
  }

  /** Every player on some team, with multiplicity. */
  ghost function Placed(teams: seq<Team>): multiset<Player>
    reads teams
  {
    multiset(Flatten(Rosters(teams)))
  }

  ghost predicate TotalsConsistent(teams: seq<Team>)
    reads teams
  {
    forall i :: 0 <= i < |teams| ==> teams[i].TotalConsistent()
  }

  /** Each roster of `after` starts with the corresponding roster of `before`. */
  predicate Extends(before: seq<seq<Player>>, after: seq<seq<Player>>) {
    |before| == |after| && forall i :: 0 <= i < |before| ==> before[i] <= after[i]
  }

  lemma ExtendsTransitive(a: seq<seq<Player>>, b: seq<seq<Player>>, c: seq<seq<Player>>)
    requires Extends(a, b) && Extends(b, c)
    ensures Extends(a, c)
  {
    forall i | 0 <= i < |a|
      ensures a[i] <= c[i]
    {
      assert a[i] == b[i][..|a[i]|];
    }
  }

  /** Appending players to one roster adds exactly those players to the flattened whole. */
  lemma {:induction false} FlattenAppend(rs: seq<seq<Player>>, k: nat, xs: seq<Player>)
    requires k < |rs|
    ensures multiset(Flatten(rs[k := rs[k] + xs])) == multiset(Flatten(rs)) + multiset(xs)
  {
    var n := |rs| - 1;
    var us := rs[k := rs[k] + xs];
    if k == n {
      assert us[..n] == rs[..n];
    } else {
      assert us[..n] == rs[..n][k := rs[k] + xs];
      FlattenAppend(rs[..n], k, xs);
    }
  }

  /** Appending players to one roster extends the rosters. */
  lemma ExtendsAppend(rs: seq<seq<Player>>, k: nat, xs: seq<Player>)
    requires k < |rs|
    ensures Extends(rs, rs[k := rs[k] + xs])
  {
  }

  /** A player added to one team of a list without repeated teams. */
  lemma PlacedAfterAdd(before: seq<seq<Player>>, after: seq<seq<Player>>, k: nat, p: Player)
    requires k < |before| && after == before[k := before[k] + [p]]
    ensures multiset(Flatten(after)) == multiset(Flatten(before)) + multiset{p}
    ensures Extends(before, after)
  {
    FlattenAppend(before, k, [p]);
  }

  // ---------------------------------------------------------------- sponsors and totals

  /** What a team carries besides its roster: its sponsor and its running total. */
  datatype Account = Account(sponsor: Option<string>, total: real)

  /** The accounts of the teams, in team order. */
  ghost function Accounts(teams: seq<Team>): (acs: seq<Account>)
    reads teams
    ensures |acs| == |teams|
    ensures forall i :: 0 <= i < |teams| ==> acs[i] == Account(teams[i].sponsor, teams[i].total)
  {
    seq(|teams|, i reads teams requires 0 <= i < |teams| => Account(teams[i].sponsor, teams[i].total))
  }

  /** The sponsor after `add_player_to_team` has added each of `added` in turn to a team sponsored by `s`. */
  function SponsorAfter(s: Option<string>, added: seq<Player>): Option<string> {
    if added == [] then s
    else
      var last := added[|added| - 1];
      if Truthy(last.sponsor) then last.sponsor else SponsorAfter(s, added[..|added| - 1])
  }

  /** When no added player has a truthy sponsor, the sponsor stays `s`. */
  lemma {:induction false} SponsorAfterNoneTruthy(s: Option<string>, added: seq<Player>)
    requires forall p :: p in added ==> !Truthy(p.sponsor)
    ensures SponsorAfter(s, added) == s
  {
    if added != [] {
      SponsorAfterNoneTruthy(s, added[..|added| - 1]);
    }
  }

  /** The sponsor is that of the last added player with a truthy sponsor. */
  lemma {:induction false} SponsorAfterLastTruthy(s: Option<string>, added: seq<Player>, i: nat)
    requires i < |added| && Truthy(added[i].sponsor)
    requires forall j :: i < j < |added| ==> !Truthy(added[j].sponsor)
    ensures SponsorAfter(s, added) == added[i].sponsor
  {
    var n := |added| - 1;
    if i < n {
      assert added[..n][i] == added[i];
      SponsorAfterLastTruthy(s, added[..n], i);
    }
  }

  /** A team's account after `add_player_to_team` has added each of `added` in turn. */
  function AccountAfter(a: Account, added: seq<Player>): Account {
    Account(SponsorAfter(a.sponsor, added), a.total + SumScores(added))
  }

  /** Adding one player sets a truthy sponsor and adds the player's score. */
  lemma AccountAfterOne(a: Account, p: Player)
    ensures AccountAfter(a, [p]) == Account(if Truthy(p.sponsor) then p.sponsor else a.sponsor, a.total + ScoreOf(p))
  {
    assert [p][..0] == [];
    assert SumScores([p]) == ScoreOf(p);
    assert SponsorAfter(a.sponsor, [p]) == if Truthy(p.sponsor) then p.sponsor else a.sponsor;
    assert a.total + SumScores([p]) == a.total + ScoreOf(p);
  }

  /** Adding one more player of a list to the account of the ones before it. */
  lemma AccountAfterSnoc(a: Account, xs: seq<Player>, i: nat)
    requires i < |xs|
    ensures var b := AccountAfter(a, xs[..i]);
      AccountAfter(a, xs[..i + 1]) == Account(if Truthy(xs[i].sponsor) then xs[i].sponsor else b.sponsor, b.total + ScoreOf(xs[i]))
  {
    assert xs[..i + 1][..i] == xs[..i];
  }

  lemma {:induction false} SumScoresConcat(xs: seq<Player>, ys: seq<Player>)
    ensures SumScores(xs + ys) == SumScores(xs) + SumScores(ys)
  {
    if ys != [] {
      var n := |ys| - 1;
      assert (xs + ys)[..|xs + ys| - 1] == xs + ys[..n];
      SumScoresConcat(xs, ys[..n]);
    } else {
      assert xs + ys == xs;
    }
  }

  lemma {:induction false} SponsorAfterConcat(s: Option<string>, xs: seq<Player>, ys: seq<Player>)
    ensures SponsorAfter(s, xs + ys) == SponsorAfter(SponsorAfter(s, xs), ys)
  {
    if ys != [] {
      var n := |ys| - 1;
      assert (xs + ys)[..|xs + ys| - 1] == xs + ys[..n];
      SponsorAfterConcat(s, xs, ys[..n]);
    } else {
      assert xs + ys == xs;
    }
  }

  /** Adding `xs` and then `ys` leaves the account that adding `xs + ys` leaves. */
  lemma AccountAfterConcat(a: Account, xs: seq<Player>, ys: seq<Player>)
    ensures AccountAfter(AccountAfter(a, xs), ys) == AccountAfter(a, xs + ys)
  {
    SumScoresConcat(xs, ys);
    SponsorAfterConcat(a.sponsor, xs, ys);
  }

  /**
   * From rosters `rs0` with accounts `acs0` to rosters `rs` with accounts
   * `acs`, players were only appended, and each team's sponsor and total are
   * what adding its appended players one by one makes of them.
   */
  ghost predicate Follows(acs0: seq<Account>, rs0: seq<seq<Player>>, acs: seq<Account>, rs: seq<seq<Player>>) {
    && |acs0| == |rs0| && |acs| == |rs| && Extends(rs0, rs)
    && forall k :: 0 <= k < |rs| ==> acs[k] == AccountAfter(acs0[k], rs[k][|rs0[k]|..])
  }

  /** Nothing added, nothing changed. */
  lemma FollowsRefl(acs: seq<Account>, rs: seq<seq<Player>>)
    requires |acs| == |rs|
    ensures Follows(acs, rs, acs, rs)
  {
    forall k | 0 <= k < |rs|
      ensures acs[k] == AccountAfter(acs[k], rs[k][|rs[k]|..])
    {
      assert rs[k][|rs[k]|..] == [];
    }
  }

  /** Two stretches of adding players make one. */
  lemma FollowsTransitive(acs0: seq<Account>, rs0: seq<seq<Player>>, acs1: seq<Account>, rs1: seq<seq<Player>>,
                          acs2: seq<Account>, rs2: seq<seq<Player>>)
    requires Follows(acs0, rs0, acs1, rs1) && Follows(acs1, rs1, acs2, rs2)
    ensures Follows(acs0, rs0, acs2, rs2)
  {
    ExtendsTransitive(rs0, rs1, rs2);
    forall k | 0 <= k < |rs2|
      ensures acs2[k] == AccountAfter(acs0[k], rs2[k][|rs0[k]|..])
    {
      assert rs1[k] == rs2[k][..|rs1[k]|];
      assert rs2[k][|rs0[k]|..] == rs1[k][|rs0[k]|..] + rs2[k][|rs1[k]|..];
      AccountAfterConcat(acs0[k], rs1[k][|rs0[k]|..], rs2[k][|rs1[k]|..]);
    }
  }

  /** Appending `xs` to team `k`'s roster, and adding them to its account, is a stretch of adding players. */
  lemma FollowsAppend(acs: seq<Account>, rs: seq<seq<Player>>, k: nat, xs: seq<Player>)
    requires |acs| == |rs| && k < |rs|
    ensures Follows(acs, rs, acs[k := AccountAfter(acs[k], xs)], rs[k := rs[k] + xs])
  {
    var rs' := rs[k := rs[k] + xs];
    forall j | 0 <= j < |rs|
      ensures acs[k := AccountAfter(acs[k], xs)][j] == AccountAfter(acs[j], rs'[j][|rs[j]|..])
    {
      if j == k {
        assert rs'[j][|rs[j]|..] == xs;
      } else {
        assert rs'[j][|rs[j]|..] == [];
      }
    }
  }

  /** Every account's total is its roster's score sum. */
  predicate AccountsConsistent(acs: seq<Account>, rs: seq<seq<Player>>) {
    |acs| == |rs| && forall k :: 0 <= k < |rs| ==> acs[k].total == SumScores(rs[k])
  }

  /** Teams whose totals matched their rosters still match after a stretch of adding players. */
  lemma FollowsConsistent(acs0: seq<Account>, rs0: seq<seq<Player>>, acs: seq<Account>, rs: seq<seq<Player>>)
    requires Follows(acs0, rs0, acs, rs) && AccountsConsistent(acs0, rs0)
    ensures AccountsConsistent(acs, rs)
  {
    forall k | 0 <= k < |rs|
      ensures acs[k].total == SumScores(rs[k])
    {
      assert rs[k] == rs0[k] + rs[k][|rs0[k]|..];
      SumScoresConcat(rs0[k], rs[k][|rs0[k]|..]);
    }
  }

  /** The teams' totals are consistent exactly when their accounts match their rosters. */
  lemma ConsistentByAccounts(teams: seq<Team>)
    ensures TotalsConsistent(teams) <==> AccountsConsistent(Accounts(teams), Rosters(teams))
  {
    var acs := Accounts(teams);
    var rs := Rosters(teams);
    if TotalsConsistent(teams) {
      forall k | 0 <= k < |rs|
        ensures acs[k].total == SumScores(rs[k])
      {
        assert teams[k].TotalConsistent();
      }
    }
    if AccountsConsistent(acs, rs) {
      forall k | 0 <= k < |teams|
        ensures teams[k].TotalConsistent()
      {
        assert acs[k].total == SumScores(rs[k]);
      }
    }
  }

  /** Totals that matched the rosters before a stretch of adding players still match after it. */
  lemma KeptConsistent(teams: seq<Team>, acs0: seq<Account>, rs0: seq<seq<Player>>)
    requires Follows(acs0, rs0, Accounts(teams), Rosters(teams))
    ensures AccountsConsistent(acs0, rs0) ==> TotalsConsistent(teams)
  {
    if AccountsConsistent(acs0, rs0) {
      FollowsConsistent(acs0, rs0, Accounts(teams), Rosters(teams));
    }
    ConsistentByAccounts(teams);
  }

  /**
   * Adds `p` to `teams[k]`, stating the effect on the whole list: one roster
   * grows by `p`, that team's sponsor and total change as `AddPlayer` says,
   * and no other team changes.
   */
  method AddToTeam(teams: seq<Team>, k: nat, p: Player)
    requires k < |teams| && DistinctTeams(teams)
    modifies teams[k]
    ensures Rosters(teams) == old(Rosters(teams))[k := old(teams[k].players) + [p]]
    ensures Accounts(teams) == old(Accounts(teams))[k := AccountAfter(old(Accounts(teams))[k], [p])]
    ensures teams[k].sponsor == (if Truthy(p.sponsor) then p.sponsor else old(teams[k].sponsor))
    ensures Follows(old(Accounts(teams)), old(Rosters(teams)), Accounts(teams), Rosters(teams))
    ensures Placed(teams) == old(Placed(teams)) + multiset{p}
    ensures Extends(old(Rosters(teams)), Rosters(teams))
    ensures old(TotalsConsistent(teams)) ==> TotalsConsistent(teams)
    ensures teams[k].total == old(teams[k].total) + ScoreOf(p)
    ensures forall j :: 0 <= j < |teams| && j != k ==> teams[j].total == old(teams[j].total)
  {
    ghost var acs := Accounts(teams);
    ghost var rs := Rosters(teams);
    ghost var wasConsistent := TotalsConsistent(teams);
    ConsistentByAccounts(teams);
    AddAt(teams, k, p);
    ConsistentByAccounts(teams);
    AccountAfterOne(acs[k], p);
    PlacedAfterAdd(rs, Rosters(teams), k, p);
    FollowsAppend(acs, rs, k, [p]);
    if wasConsistent {
      FollowsConsistent(acs, rs, Accounts(teams), Rosters(teams));
    }
  }

  /** `AddPlayer` on team `k` of the list, seen on the rosters and accounts of all the teams. */
  method AddAt(teams: seq<Team>, k: nat, p: Player)
    requires k < |teams| && DistinctTeams(teams)
    modifies teams[k]
    ensures Rosters(teams) == old(Rosters(teams))[k := old(teams[k].players) + [p]]
    ensures Accounts(teams) == old(Accounts(teams))[k := AccountAfter(old(Accounts(teams))[k], [p])]
  {
    ghost var acs := Accounts(teams);
    ghost var rs := Rosters(teams);
    teams[k].AddPlayer(p);
    AccountAfterOne(acs[k], p);
    assert forall j :: 0 <= j < |teams| && j != k ==>
      teams[j].players == rs[j] && Account(teams[j].sponsor, teams[j].total) == acs[j] by {
      assert forall j :: 0 <= j < |teams| && j != k ==> teams[j] != teams[k];
    }
    assert Accounts(teams) == acs[k := AccountAfter(acs[k], [p])];
  }

  /** The key `find_best_team_for_player` compares teams by, before the random tie-break. */
  function TeamKey(t: Team): (real, int)
    reads t
  {
    (t.total, |t.players|)
  }

  /** Lexicographic order on `(total_score, len(players))`. */
  predicate KeyAtMost(a: (real, int), b: (real, int)) {
    a.0 < b.0 || (a.0 == b.0 && a.1 <= b.1)
  }

  /** Team `k` has a smallest `(total_score, len(players))` among all teams. */
  predicate IsLowest(teams: seq<Team>, k: nat)
    reads teams
  {
    k < |teams| && forall j :: 0 <= j < |teams| ==> KeyAtMost(TeamKey(teams[k]), TeamKey(teams[j]))
  }

  /** Team `i` is strictly before team `j` in the order `(total_score, len(players), draw)`. */
  predicate DrawLess(teams: seq<Team>, draws: seq<real>, i: nat, j: nat)
    requires i < |teams| && j < |teams| && |draws| == |teams|
    reads teams
  {
    var a := TeamKey(teams[i]);
    var b := TeamKey(teams[j]);
    a.0 < b.0 || (a.0 == b.0 && (a.1 < b.1 || (a.1 == b.1 && draws[i] < draws[j])))
  }

  /** Python's `min` over the first `n` teams: the first team no other one is strictly below. */
  function BestAmong(teams: seq<Team>, draws: seq<real>, n: nat): (k: nat)
    requires 0 < n <= |teams| && |draws| == |teams|
    reads teams
    ensures k < n
    ensures forall j :: 0 <= j < n ==> !DrawLess(teams, draws, j, k)
    ensures forall j :: 0 <= j < k ==> DrawLess(teams, draws, k, j)
  {
    if n == 1 then 0
    else
      var b := BestAmong(teams, draws, n - 1);
      var x := n - 1;
      if DrawLess(teams, draws, x, b) then
        assert forall j :: 0 <= j < x ==> DrawLess(teams, draws, x, j) && !DrawLess(teams, draws, j, x) by {
          forall j | 0 <= j < x {
            DrawLessBelow(teams, draws, x, b, j);
          }
        }
        x
      else b
  }

  /** If `x` is strictly below `b` and `j` is not, then `x` is strictly below `j`. */
  lemma DrawLessBelow(teams: seq<Team>, draws: seq<real>, x: nat, b: nat, j: nat)
    requires x < |teams| && b < |teams| && j < |teams| && |draws| == |teams|
    requires DrawLess(teams, draws, x, b) && !DrawLess(teams, draws, j, b)
    ensures DrawLess(teams, draws, x, j) && !DrawLess(teams, draws, j, x)
  {
  }

  /** Not being strictly below in the full order means being at least as high before the draw. */
  lemma NotDrawLessAtMost(teams: seq<Team>, draws: seq<real>, j: nat, k: nat)
    requires j < |teams| && k < |teams| && |draws| == |teams|
    requires !DrawLess(teams, draws, j, k)
    ensures KeyAtMost(TeamKey(teams[k]), TeamKey(teams[j]))
  {
  }

  /**
   * `find_best_team_for_player`: the index of the team `min` returns when
   * team `i` draws the tie-break value `draws[i]`. The player argument of
   * the source is unused there and so is not a parameter here.
   */
  function FindBestTeam(teams: seq<Team>, draws: seq<real>): (k: nat)
    requires 0 < |teams| && |draws| == |teams|
    reads teams
    ensures k < |teams| && IsLowest(teams, k)
    ensures forall j :: 0 <= j < k ==> DrawLess(teams, draws, k, j)
  {
    var k := BestAmong(teams, draws, |teams|);
    assert IsLowest(teams, k) by {
      forall j | 0 <= j < |teams| {
        NotDrawLessAtMost(teams, draws, j, k);
      }
    }
    k
  }

  /** A non-empty list of teams has a lowest one. */
  lemma LowestExists(teams: seq<Team>)
    requires |teams| > 0
    ensures exists k: nat :: IsLowest(teams, k)
  {
    var k := FindBestTeam(teams, seq(|teams|, i => 0.0));
  }

  /** Every lowest team is the one `min` picks for some tie-break draws in [0, 1). */
  lemma LowestReachable(teams: seq<Team>, k: nat)
    requires IsLowest(teams, k)
    ensures exists draws ::
      && |draws| == |teams|
      && (forall d :: d in draws ==> 0.0 <= d < 1.0)
      && FindBestTeam(teams, draws) == k
  {
    var draws := seq(|teams|, i => if i == k then 0.0 else 0.5);
    var r := BestAmong(teams, draws, |teams|);
    if r != k {
      assert DrawLess(teams, draws, k, r);
      assert false;
    }
    assert FindBestTeam(teams, draws) == k;
  }
}
