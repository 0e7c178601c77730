/**
 * `assign_players_to_teams`: the four passes in order, sharing one set of
 * assigned player ids. Coaches' associated players go first, then sibling
 * groups, then a random fill of every team to `MIN_TEAM_SIZE`, then the
 * rest by descending skill. The `team_size` argument is accepted and not
 * used, as in the source.
 */
module Pipeline {
  import opened Entities
  import opened Teams
  import opened PlayerFilters
  import opened Siblings
  import opened CoachPass
  import opened SiblingPass
  import opened FillPass
  import opened SkillPass
  import opened Assignment

  // ---------------------------------------------------------------- the pipeline

  /**
   * `assign_players_to_teams`. `coachIds` are the ids the coach pass
   * assigns, `groupedIds` the sibling-group members it left, and `where`
   * the team of each such group. `afterGroups` and `afterFill` are the
   * rosters after the second and the third pass, `rest` what the fill
   * left over and `choices` the team each of its players went to, in
   * `SortBySkill` order. Each team's sponsor and total follow the players
   * appended to it.
   */
  method AssignPlayersToTeams(teams: seq<Team>, players: seq<Player>, teamSize: int)
    returns (ghost coachIds: set<string>, ghost groupedIds: set<string>, ghost where: map<FamilyKey, nat>,
             ghost afterGroups: seq<seq<Player>>, ghost afterFill: seq<seq<Player>>,
             ghost rest: seq<Player>, ghost choices: seq<nat>)
    requires DistinctTeams(teams) && DistinctIds(players)
    requires |teams| > 0 || players == []
    requires forall p :: p in players ==> p.skillScore.Some?
    modifies teams
    ensures coachIds == Grant(Claims(teams, players), {}).1
    ensures groupedIds == GroupedIds(players) - coachIds
    ensures Assigned(old(Rosters(teams)), Rosters(teams), players, Claims(teams, players), groupedIds, where)
    ensures multiset(rest) <= multiset(WithoutIds(players, coachIds + GroupedIds(players)))
    ensures ClaimsAndGroupsPlaced(old(Rosters(teams)), afterGroups, players, Claims(teams, players), coachIds,
                                  coachIds + GroupedIds(players), where)
    ensures FilledThenBySkill(afterGroups, WithoutIds(players, coachIds + GroupedIds(players)), afterFill, Rosters(teams),
                              rest, choices, old(TotalsConsistent(teams)))
    ensures old(TotalsConsistent(teams)) ==> TotalsConsistent(teams)
    ensures Follows(old(Accounts(teams)), old(Rosters(teams)), Accounts(teams), Rosters(teams))
  {
    ghost var rs0, acs0, consistent0 := Rosters(teams), Accounts(teams), TotalsConsistent(teams);
    var assignedIds;
    assignedIds, coachIds, where := PlaceClaimsAndGroups(teams, players);
    groupedIds := assignedIds - coachIds;
    assert groupedIds == GroupedIds(players) - coachIds;
    assert WithoutIds(players, assignedIds) == WithoutIds(players, coachIds + GroupedIds(players));
    afterGroups := Rosters(teams);
    afterFill, rest, choices := PlaceRestAfterGroups(teams, players, assignedIds, rs0, acs0, consistent0,
                                                     coachIds, where);
  }

  /**
   * `PlaceRest`, composed with whatever the first two passes did from
   * rosters `rs0` and accounts `acs0`: if they took the teams from there
   * to where this starts, the whole pipeline did what `Assigned` and
   * `Follows` say.
   */
  method PlaceRestAfterGroups(teams: seq<Team>, players: seq<Player>, assignedIds: set<string>,
                              ghost rs0: seq<seq<Player>>, ghost acs0: seq<Account>, ghost consistent0: bool,
                              ghost coachIds: set<string>, ghost where: map<FamilyKey, nat>)
    returns (ghost afterFill: seq<seq<Player>>, ghost rest: seq<Player>, ghost choices: seq<nat>)
    requires DistinctTeams(teams)
    requires |teams| > 0 || players == []
    requires forall p :: p in players ==> p.skillScore.Some?
    requires consistent0 ==> TotalsConsistent(teams)
    modifies teams
    ensures ClaimsAndGroupsPlaced(rs0, old(Rosters(teams)), players, Claims(teams, players), coachIds, assignedIds, where)
      ==> Assigned(rs0, Rosters(teams), players, Claims(teams, players), assignedIds - coachIds, where)
    ensures multiset(rest) <= multiset(WithoutIds(players, assignedIds))
    ensures FilledThenBySkill(old(Rosters(teams)), WithoutIds(players, assignedIds), afterFill, Rosters(teams),
                              rest, choices, consistent0)
    ensures consistent0 ==> TotalsConsistent(teams)
    ensures Follows(acs0, rs0, old(Accounts(teams)), old(Rosters(teams))) ==> Follows(acs0, rs0, Accounts(teams), Rosters(teams))
  {
    ghost var rs1 := Rosters(teams);
    ghost var acs1 := Accounts(teams);
    ghost var consistent1 := TotalsConsistent(teams);
    ghost var groupsPlaced := ClaimsAndGroupsPlaced(rs0, rs1, players, Claims(teams, players), coachIds, assignedIds, where);
    ghost var followed := Follows(acs0, rs0, acs1, rs1);
    afterFill, rest, choices := PlaceRest(teams, players, assignedIds);
    FilledThenBySkillWeaken(rs1, WithoutIds(players, assignedIds), afterFill, Rosters(teams), rest, choices,
                            consistent1, consistent0);
    if groupsPlaced {
      PassesCompose(rs0, rs1, Rosters(teams), players, Claims(teams, players), coachIds, assignedIds, where);
    }
    if followed {
      FollowsTransitive(acs0, rs0, acs1, rs1, Accounts(teams), Rosters(teams));
    }
  }

  /** The first two passes: coaches' associated players, then sibling groups. */
  method PlaceClaimsAndGroups(teams: seq<Team>, players: seq<Player>)
    returns (assignedIds: set<string>, ghost coachIds: set<string>, ghost where: map<FamilyKey, nat>)
    requires DistinctTeams(teams) && DistinctIds(players)
    requires |teams| > 0 || players == []
    modifies teams
    ensures coachIds == Grant(Claims(teams, players), {}).1
    ensures assignedIds == coachIds + GroupedIds(players)
    ensures ClaimsAndGroupsPlaced(old(Rosters(teams)), Rosters(teams), players, Claims(teams, players), coachIds, assignedIds, where)
    ensures old(TotalsConsistent(teams)) ==> TotalsConsistent(teams)
    ensures Follows(old(Accounts(teams)), old(Rosters(teams)), Accounts(teams), Rosters(teams))
  {
    ghost var cs := Claims(teams, players);
    ghost var rs0 := Rosters(teams);
    ghost var acs0 := Accounts(teams);
    ClaimsFromCoaches(teams, players);
    var afterCoaches := AssignCoachPlayers(teams, players, {});
    coachIds := afterCoaches;
    ghost var rs1 := Rosters(teams);
    ghost var acs1 := Accounts(teams);
    CoachPassPlaced(rs0, cs, players);
    assignedIds, where := AssignSiblingGroups(teams, players, afterCoaches);
    MultiGroupIdsAreGrouped(players);
    GroupsAfterClaims(rs0, rs1, Rosters(teams), players, cs, coachIds, assignedIds, where);
    FollowsTransitive(acs0, rs0, acs1, rs1, Accounts(teams), Rosters(teams));
  }

  /**
   * The last two passes, on the players not assigned yet: the fill to
   * `MIN_TEAM_SIZE`, then by skill. `afterFill` is the rosters after the
   * fill, `rest` what it left over and `choices` the team each of those
   * went to, in `SortBySkill` order.
   */
  method PlaceRest(teams: seq<Team>, players: seq<Player>, assignedIds: set<string>)
    returns (ghost afterFill: seq<seq<Player>>, ghost rest: seq<Player>, ghost choices: seq<nat>)
    requires DistinctTeams(teams)
    requires |teams| > 0 || players == []
    requires forall p :: p in players ==> p.skillScore.Some?
    modifies teams
    ensures RestPlaced(old(Rosters(teams)), Rosters(teams), players, assignedIds)
    ensures multiset(rest) <= multiset(WithoutIds(players, assignedIds))
    ensures FilledThenBySkill(old(Rosters(teams)), WithoutIds(players, assignedIds), afterFill, Rosters(teams),
                              rest, choices, old(TotalsConsistent(teams)))
    ensures old(TotalsConsistent(teams)) ==> TotalsConsistent(teams)
    ensures Follows(old(Accounts(teams)), old(Rosters(teams)), Accounts(teams), Rosters(teams))
  {
    ghost var rs0 := Rosters(teams);
    ghost var acs0 := Accounts(teams);
    var unassigned := WithoutIds(players, assignedIds);
    var left := FillTeamsToMinimum(teams, unassigned, MinTeamSize);
    rest := left;
    afterFill := Rosters(teams);
    ghost var acs1 := Accounts(teams);
    RestFromPlayers(players, assignedIds, left);
    choices := AssignRemainingBySkill(teams, left);
    ExtendsTransitive(rs0, afterFill, Rosters(teams));
    FollowsTransitive(acs0, rs0, acs1, afterFill, Accounts(teams), Rosters(teams));
  }
}
