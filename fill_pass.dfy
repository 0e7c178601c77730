/**
 * `fill_teams_to_minimum`: team by team, in list order, a team with fewer
 * than `MIN_TEAM_SIZE` players takes randomly chosen players out of the
 * unassigned list until it has that many or the list is empty.
 *
 * The random index is a choice (`:|`) among the valid ones; the contracts
 * hold whichever indices are drawn.
 */
module FillPass {
  import opened Entities
  import opened Teams

  /** `MIN_TEAM_SIZE`. */
  const MinTeamSize: nat := 3

  /** `unassigned.pop(idx)`: the list without its element at `idx`, the others in order. */
  function Pop(s: seq<Player>, idx: nat): (r: seq<Player>)
    requires idx < |s|
    ensures |r| == |s| - 1
    ensures forall j :: 0 <= j < |r| ==> r[j] == if j < idx then s[j] else s[j + 1]
  {
    s[..idx] + s[idx + 1..]
  }

  /** The popped player and the rest make up the list. */
  lemma PopMultiset(s: seq<Player>, idx: nat)
    requires idx < |s|
    ensures multiset(Pop(s, idx)) + multiset{s[idx]} == multiset(s)
  {
    assert s == s[..idx] + [s[idx]] + s[idx + 1..];
  }

  /**
   * The `while` loop for one team: it takes players until the team has
   * `minSize` of them or none is left, and takes none when the team
   * already has enough.
   */
  method FillTeam(team: Team, pool: seq<Player>, minSize: nat) returns (rest: seq<Player>, ghost taken: seq<Player>)
    modifies team
    ensures team.players == old(team.players) + taken
    ensures multiset(taken) + multiset(rest) == multiset(pool)
    ensures |old(team.players)| >= minSize ==> taken == []
    ensures |team.players| >= minSize || rest == []
    ensures taken == [] || |team.players| <= minSize
    ensures Account(team.sponsor, team.total) == AccountAfter(Account(old(team.sponsor), old(team.total)), taken)
    ensures old(team.TotalConsistent()) ==> team.TotalConsistent()
  {
    rest := pool;
    taken := [];
    ghost var a0 := Account(team.sponsor, team.total);
    while |team.players| < minSize && rest != []
      invariant team.players == old(team.players) + taken
      invariant multiset(taken) + multiset(rest) == multiset(pool)
      invariant |old(team.players)| >= minSize ==> taken == []
      invariant taken == [] || |team.players| <= minSize
      invariant Account(team.sponsor, team.total) == AccountAfter(a0, taken)
      decreases |rest|
    {
      var idx :| 0 <= idx < |rest|;
      var p := rest[idx];
      PopMultiset(rest, idx);
      rest := Pop(rest, idx);
      TakeOne(team, p, old(team.players), a0, taken);
      taken := taken + [p];
    }
    SumScoresConcat(old(team.players), taken);
  }

  /** Adds `p` to `team`, which so far holds `base` plus `taken`, carrying its sponsor and total along. */
  method TakeOne(team: Team, p: Player, ghost base: seq<Player>, ghost a0: Account, ghost taken: seq<Player>)
    requires team.players == base + taken && Account(team.sponsor, team.total) == AccountAfter(a0, taken)
    modifies team
    ensures team.players == base + (taken + [p])
    ensures Account(team.sponsor, team.total) == AccountAfter(a0, taken + [p])
  {
    AccountAfterOne(AccountAfter(a0, taken), p);
    AccountAfterConcat(a0, taken, [p]);
    team.AddPlayer(p);
  }

  /** What the pass promises about the first `i` teams, from rosters `rs0` to `rs`, with `rest` left. */
  ghost predicate FilledUpTo(rs0: seq<seq<Player>>, rs: seq<seq<Player>>, rest: seq<Player>, i: nat, minSize: nat)
    requires i <= |rs| == |rs0|
  {
    && (forall j :: 0 <= j < i && |rs0[j]| >= minSize ==> rs[j] == rs0[j])
    && (forall j :: 0 <= j < i ==> rs[j] == rs0[j] || |rs[j]| <= minSize)
    && (forall j :: 0 <= j < i ==> |rs[j]| >= minSize || rest == [])
    && (forall j, k :: 0 <= j < i && j < k < |rs| && |rs[j]| < minSize ==> rs[k] == rs0[k])
  }

  /**
   * What the pass promises about all teams: a team that had `minSize`
   * players is untouched and no team grows beyond `minSize`; players are
   * left over only when every team has `minSize`; and once a team is left
   * short, the later ones get nobody.
   */
  ghost predicate Filled(rs0: seq<seq<Player>>, rs: seq<seq<Player>>, rest: seq<Player>, minSize: nat) {
    && |rs| == |rs0|
    && (forall j :: 0 <= j < |rs| && |rs0[j]| >= minSize ==> rs[j] == rs0[j])
    && (forall j :: 0 <= j < |rs| ==> rs[j] == rs0[j] || |rs[j]| <= minSize)
    && (rest != [] ==> forall j :: 0 <= j < |rs| ==> |rs[j]| >= minSize)
    && (forall j, k :: 0 <= j < k < |rs| && |rs[j]| < minSize ==> rs[k] == rs0[k])
  }

  /** The invariant of the loop over the teams, after the first `i`. */
  ghost predicate FillState(rs: seq<seq<Player>>, consistent: bool, rs0: seq<seq<Player>>, consistent0: bool,
                            pool: multiset<Player>, rest: seq<Player>, i: nat, minSize: nat)
  {
    && |rs| == |rs0| && i <= |rs|
    && multiset(Flatten(rs)) + multiset(rest) == multiset(Flatten(rs0)) + pool
    && multiset(rest) <= pool
    && Extends(rs0, rs)
    && (forall j :: i <= j < |rs| ==> rs[j] == rs0[j])
    && FilledUpTo(rs0, rs, rest, i, minSize)
    && (consistent0 ==> consistent)
  }

  lemma FillStart(rs: seq<seq<Player>>, consistent: bool, unassigned: seq<Player>, minSize: nat)
    ensures FillState(rs, consistent, rs, consistent, multiset(unassigned), unassigned, 0, minSize)
  {
  }

  /** Filling team `i` as `FillTeam` promises advances the promises about the first `i` teams. */
  lemma FilledAdvance(rs0: seq<seq<Player>>, rs: seq<seq<Player>>, rs': seq<seq<Player>>,
                      rest: seq<Player>, rest': seq<Player>, taken: seq<Player>, i: nat, minSize: nat)
    requires i < |rs| == |rs0| && FilledUpTo(rs0, rs, rest, i, minSize)
    requires forall j :: i <= j < |rs| ==> rs[j] == rs0[j]
    requires rs' == rs[i := rs[i] + taken]
    requires rest == [] ==> rest' == [] && taken == []
    requires |rs[i]| >= minSize ==> taken == []
    requires |rs'[i]| >= minSize || rest' == []
    requires taken == [] || |rs'[i]| <= minSize
    ensures FilledUpTo(rs0, rs', rest', i + 1, minSize)
  {
    if taken == [] {
      assert rs' == rs by {
        assert rs[i] + taken == rs[i];
      }
    }
    forall j | 0 <= j < i + 1 && |rs0[j]| >= minSize
      ensures rs'[j] == rs0[j]
    {
    }
    forall j | 0 <= j < i + 1
      ensures rs'[j] == rs0[j] || |rs'[j]| <= minSize
    {
    }
    forall j | 0 <= j < i + 1
      ensures |rs'[j]| >= minSize || rest' == []
    {
    }
    forall j, k | 0 <= j < i + 1 && j < k < |rs'| && |rs'[j]| < minSize
      ensures rs'[k] == rs0[k]
    {
      if j < i {
        assert |rs[j]| < minSize;
        assert rest == [];
      }
    }
  }

  /** Filling team `i` as `FillTeam` promises advances the invariant to `i + 1`. */
  lemma FillAdvance(rs: seq<seq<Player>>, rs': seq<seq<Player>>, consistent: bool, consistent': bool,
                    rs0: seq<seq<Player>>, consistent0: bool, pool: multiset<Player>,
                    rest: seq<Player>, rest': seq<Player>, taken: seq<Player>, i: nat, minSize: nat)
    requires FillState(rs, consistent, rs0, consistent0, pool, rest, i, minSize) && i < |rs|
    requires rs' == rs[i := rs[i] + taken]
    requires multiset(taken) + multiset(rest') == multiset(rest)
    requires |rs[i]| >= minSize ==> taken == []
    requires |rs'[i]| >= minSize || rest' == []
    requires taken == [] || |rs'[i]| <= minSize
    requires consistent ==> consistent'
    ensures FillState(rs', consistent', rs0, consistent0, pool, rest', i + 1, minSize)
  {
    FlattenAppend(rs, i, taken);
    ExtendsAppend(rs, i, taken);
    ExtendsTransitive(rs0, rs, rs');
    assert multiset(rest') <= multiset(rest);
    if rest == [] {
      assert multiset(rest') == multiset{} && multiset(taken) == multiset{};
    }
    FilledAdvance(rs0, rs, rs', rest, rest', taken, i, minSize);
  }

  /** `FillTeam` on team `i` of the list, seen on the rosters of all the teams. */
  method FillAt(teams: seq<Team>, i: nat, rest: seq<Player>, minSize: nat)
    returns (rest': seq<Player>, ghost taken: seq<Player>)
    requires DistinctTeams(teams) && i < |teams|
    modifies teams
    ensures Rosters(teams) == old(Rosters(teams))[i := old(teams[i].players) + taken]
    ensures multiset(taken) + multiset(rest') == multiset(rest)
    ensures |old(teams[i].players)| >= minSize ==> taken == []
    ensures |teams[i].players| >= minSize || rest' == []
    ensures taken == [] || |teams[i].players| <= minSize
    ensures Accounts(teams) == old(Accounts(teams))[i := AccountAfter(old(Accounts(teams))[i], taken)]
  {
    ghost var rs := Rosters(teams);
    ghost var acs := Accounts(teams);
    rest', taken := FillTeam(teams[i], rest, minSize);
    assert forall j :: 0 <= j < |teams| && j != i ==>
      teams[j].players == rs[j] && Account(teams[j].sponsor, teams[j].total) == acs[j] by {
      assert forall j :: 0 <= j < |teams| && j != i ==> teams[j] != teams[i];
    }
    assert Rosters(teams) == rs[i := rs[i] + taken];
    assert Accounts(teams) == acs[i := AccountAfter(acs[i], taken)];
  }

  /** One turn of the loop over the teams. */
  method FillStep(teams: seq<Team>, i: nat, rest: seq<Player>, minSize: nat,
                  ghost rs0: seq<seq<Player>>, ghost consistent0: bool, ghost pool: multiset<Player>,
                  ghost acs0: seq<Account>)
    returns (rest': seq<Player>)
    requires DistinctTeams(teams) && i < |teams|
    requires FillState(Rosters(teams), TotalsConsistent(teams), rs0, consistent0, pool, rest, i, minSize)
    requires Follows(acs0, rs0, Accounts(teams), Rosters(teams))
    modifies teams
    ensures FillState(Rosters(teams), TotalsConsistent(teams), rs0, consistent0, pool, rest', i + 1, minSize)
    ensures Follows(acs0, rs0, Accounts(teams), Rosters(teams))
  {
    ghost var rs := Rosters(teams);
    ghost var acs := Accounts(teams);
    ghost var consistent := TotalsConsistent(teams);
    ConsistentByAccounts(teams);
    ghost var taken;
    rest', taken := FillAt(teams, i, rest, minSize);
    FollowsAppend(acs, rs, i, taken);
    FollowsTransitive(acs0, rs0, acs, rs, Accounts(teams), Rosters(teams));
    KeptConsistent(teams, acs, rs);
    FillAdvance(rs, Rosters(teams), consistent, TotalsConsistent(teams), rs0, consistent0, pool,
                rest, rest', taken, i, minSize);
  }

  /** After the last team the invariant is the pass's promise. */
  lemma FillEnd(rs: seq<seq<Player>>, consistent: bool, rs0: seq<seq<Player>>, consistent0: bool,
                pool: multiset<Player>, rest: seq<Player>, minSize: nat)
    requires FillState(rs, consistent, rs0, consistent0, pool, rest, |rs|, minSize)
    ensures multiset(Flatten(rs)) + multiset(rest) == multiset(Flatten(rs0)) + pool
    ensures multiset(rest) <= pool
    ensures Extends(rs0, rs) && (consistent0 ==> consistent)
    ensures Filled(rs0, rs, rest, minSize)
  {
  }

  /**
   * `fill_teams_to_minimum`. Everything taken comes out of `unassigned`
   * and is placed, appended to the rosters, and the teams are `Filled`.
   */
  method FillTeamsToMinimum(teams: seq<Team>, unassigned: seq<Player>, minSize: nat) returns (rest: seq<Player>)
    requires DistinctTeams(teams)
    modifies teams
    ensures Placed(teams) + multiset(rest) == old(Placed(teams)) + multiset(unassigned)
    ensures multiset(rest) <= multiset(unassigned)
    ensures Extends(old(Rosters(teams)), Rosters(teams))
    ensures Filled(old(Rosters(teams)), Rosters(teams), rest, minSize)
    ensures Follows(old(Accounts(teams)), old(Rosters(teams)), Accounts(teams), Rosters(teams))
    ensures old(TotalsConsistent(teams)) ==> TotalsConsistent(teams)
  {
    rest := unassigned;
    ghost var rs0 := Rosters(teams);
    ghost var acs0 := Accounts(teams);
    ghost var consistent0 := TotalsConsistent(teams);
    FillStart(rs0, consistent0, unassigned, minSize);
    FollowsRefl(acs0, rs0);
    for i := 0 to |teams|
      invariant FillState(Rosters(teams), TotalsConsistent(teams), rs0, consistent0, multiset(unassigned), rest, i, minSize)
      invariant Follows(acs0, rs0, Accounts(teams), Rosters(teams))
    {
      rest := FillStep(teams, i, rest, minSize, rs0, consistent0, multiset(unassigned), acs0);
    }
    FillEnd(Rosters(teams), TotalsConsistent(teams), rs0, consistent0, multiset(unassigned), rest, minSize);
  }
}
