/**
 * What `assign_players_to_teams` promises, pass by pass, stated on the
 * rosters as values, and the lemmas that compose the passes' promises
 * into the whole pipeline's.
 */
module Assignment {
  import opened Entities
  import opened Teams
  import opened PlayerFilters
  import opened Siblings
  import opened CoachPass
  import opened SiblingPass
  import opened FillPass
  import opened SkillPass

  /** Claim `j` is the first of the list for its player. */
  predicate FirstClaim(cs: seq<Claim>, j: nat) {
    j < |cs| && forall i :: 0 <= i < j ==> cs[i].player.id != cs[j].player.id
  }

  /** The player of claim `j` is on the claiming team. */
  predicate Honoured(rs: seq<seq<Player>>, cs: seq<Claim>, j: nat)
    requires j < |cs|
  {
    cs[j].team < |rs| && cs[j].player in rs[cs[j].team]
  }

  /**
   * What `assign_players_to_teams` promises, from rosters `rs0` to `rs`:
   * every player of the dictionary is placed once more and nothing else,
   * the rosters are only appended to, a coach's associated player is on
   * the coach's team unless an earlier coach named the same player, and
   * the players of `grouped` sit with their sibling group.
   */
  ghost predicate Assigned(rs0: seq<seq<Player>>, rs: seq<seq<Player>>, players: seq<Player>, cs: seq<Claim>,
                           grouped: set<string>, where: map<FamilyKey, nat>)
  {
    && multiset(Flatten(rs)) == multiset(Flatten(rs0)) + multiset(players)
    && Extends(rs0, rs)
    && (forall j :: FirstClaim(cs, j) ==> Honoured(rs, cs, j))
    && Cohesive(rs, players, grouped, where)
  }

  /** What the first two passes promise, having assigned `assignedIds`, of which the coaches `coachIds`. */
  ghost predicate ClaimsAndGroupsPlaced(rs0: seq<seq<Player>>, rs: seq<seq<Player>>, players: seq<Player>, cs: seq<Claim>,
                                        coachIds: set<string>, assignedIds: set<string>, where: map<FamilyKey, nat>)
  {
    && multiset(Flatten(rs)) == multiset(Flatten(rs0)) + multiset(WithIds(players, assignedIds))
    && Extends(rs0, rs)
    && (forall j :: FirstClaim(cs, j) ==> Honoured(rs, cs, j))
    && Cohesive(rs, players, assignedIds - coachIds, where)
  }

  /** What the last two passes promise: the players not assigned before are placed, and only appended. */
  ghost predicate RestPlaced(rs0: seq<seq<Player>>, rs: seq<seq<Player>>, players: seq<Player>, assignedIds: set<string>) {
    && multiset(Flatten(rs)) == multiset(Flatten(rs0)) + multiset(WithoutIds(players, assignedIds))
    && Extends(rs0, rs)
  }

  /**
   * How the last two passes went, from rosters `rs1` to `rs`, on the
   * players `pool` still unassigned: the fill took `rs1` to `afterFill`,
   * only appending, placing players of `pool` and leaving the other ones
   * as `rest`; the skill pass put the players of `rest`, in `SortBySkill`
   * order, on the teams `choices`, each on a lowest team when the totals
   * were consistent.
   */
  ghost predicate FilledThenBySkill(rs1: seq<seq<Player>>, pool: seq<Player>, afterFill: seq<seq<Player>>,
                                    rs: seq<seq<Player>>, rest: seq<Player>, choices: seq<nat>, consistent: bool)
  {
    && Extends(rs1, afterFill)
    && multiset(Flatten(afterFill)) + multiset(rest) == multiset(Flatten(rs1)) + multiset(pool)
    && Filled(rs1, afterFill, rest, MinTeamSize)
    && |choices| == |rest| && InRange(choices, |rs1|)
    && rs == Replay(afterFill, SortBySkill(rest), choices)
    && (consistent ==> Greedy(afterFill, SortBySkill(rest), choices))
  }

  lemma FilledThenBySkillWeaken(rs1: seq<seq<Player>>, pool: seq<Player>, afterFill: seq<seq<Player>>,
                                rs: seq<seq<Player>>, rest: seq<Player>, choices: seq<nat>,
                                consistent: bool, consistent': bool)
    requires FilledThenBySkill(rs1, pool, afterFill, rs, rest, choices, consistent)
    requires consistent' ==> consistent
    ensures FilledThenBySkill(rs1, pool, afterFill, rs, rest, choices, consistent')
  {
  }

  // ---------------------------------------------------------------- composing the passes

  /** The coach pass followed by the sibling pass. */
  lemma GroupsAfterClaims(rs0: seq<seq<Player>>, rs1: seq<seq<Player>>, rs2: seq<seq<Player>>, players: seq<Player>,
                          cs: seq<Claim>, coachIds: set<string>, assignedIds: set<string>, where: map<FamilyKey, nat>)
    requires multiset(Flatten(rs1)) == multiset(Flatten(rs0)) + multiset(WithIds(players, coachIds))
    requires Extends(rs0, rs1) && (forall j :: FirstClaim(cs, j) ==> Honoured(rs1, cs, j))
    requires coachIds <= assignedIds
    requires multiset(Flatten(rs2)) == multiset(Flatten(rs1)) + multiset(WithIds(players, assignedIds - coachIds))
    requires Extends(rs1, rs2) && Cohesive(rs2, players, assignedIds - coachIds, where)
    ensures ClaimsAndGroupsPlaced(rs0, rs2, players, cs, coachIds, assignedIds, where)
  {
    ExtendsTransitive(rs0, rs1, rs2);
    HonouredKept(rs1, rs2, cs);
    WithIdsUnion(players, coachIds, assignedIds - coachIds);
    assert coachIds + (assignedIds - coachIds) == assignedIds;
  }

  /** The first two passes followed by the last two. */
  lemma PassesCompose(rs0: seq<seq<Player>>, rs1: seq<seq<Player>>, rs2: seq<seq<Player>>, players: seq<Player>,
                      cs: seq<Claim>, coachIds: set<string>, assignedIds: set<string>, where: map<FamilyKey, nat>)
    requires ClaimsAndGroupsPlaced(rs0, rs1, players, cs, coachIds, assignedIds, where)
    requires RestPlaced(rs1, rs2, players, assignedIds)
    ensures Assigned(rs0, rs2, players, cs, assignedIds - coachIds, where)
  {
    SplitByIds(players, assignedIds);
    ExtendsTransitive(rs0, rs1, rs2);
    HonouredKept(rs1, rs2, cs);
    CohesiveKept(rs1, rs2, players, assignedIds - coachIds, where);
  }

  // ---------------------------------------------------------------- the lemmas it rests on

  lemma {:induction false} ClaimedPlayersIndex(cs: seq<Claim>)
    ensures |ClaimedPlayers(cs)| == |cs|
    ensures forall i :: 0 <= i < |cs| ==> ClaimedPlayers(cs)[i] == cs[i].player
  {
    if cs != [] {
      ClaimedPlayersIndex(cs[..|cs| - 1]);
    }
  }

  /** The granted claims are claims of the list, so in range and for players of the dictionary. */
  lemma GrantedFromList(rs0: seq<seq<Player>>, cs: seq<Claim>, players: seq<Player>)
    requires forall i :: 0 <= i < |cs| ==> cs[i].team < |rs0| && cs[i].player in players
    ensures forall c :: c in Grant(cs, {}).0 ==> c.team < |rs0| && c.player in players
  {
    GrantSpec(cs, {});
  }

  /** No player is granted twice. */
  lemma GrantedNoRepeats(cs: seq<Claim>)
    ensures NoRepeats(ClaimedPlayers(Grant(cs, {}).0))
  {
    var g := Grant(cs, {});
    GrantSpec(cs, {});
    ClaimedPlayersIndex(g.0);
    var claimed := ClaimedPlayers(g.0);
    forall i, j | 0 <= i < j < |claimed|
      ensures claimed[i] != claimed[j]
    {
      assert g.0[i].player.id != g.0[j].player.id;
    }
  }

  /** The granted players are the players of the dictionary with an assigned id. */
  lemma GrantedMembers(cs: seq<Claim>, players: seq<Player>, p: Player)
    requires DistinctIds(players)
    requires forall c :: c in Grant(cs, {}).0 ==> c.player in players
    ensures p in ClaimedPlayers(Grant(cs, {}).0) <==> p in players && p.id in Grant(cs, {}).1
  {
    if p in players && p.id in Grant(cs, {}).1 {
      AssignedIdClaimed(cs, players, p);
    }
    if p in ClaimedPlayers(Grant(cs, {}).0) {
      ClaimedIdAssigned(cs, p);
    }
  }

  /** A player of the dictionary whose id the claims assigned is a player of a granted claim. */
  lemma AssignedIdClaimed(cs: seq<Claim>, players: seq<Player>, p: Player)
    requires DistinctIds(players)
    requires forall c :: c in Grant(cs, {}).0 ==> c.player in players
    requires p in players && p.id in Grant(cs, {}).1
    ensures p in ClaimedPlayers(Grant(cs, {}).0)
  {
    var g := Grant(cs, {});
    GrantSpec(cs, {});
    var c :| c in g.0 && c.player.id == p.id;
    var i :| 0 <= i < |g.0| && g.0[i] == c;
    ClaimedPlayersIndex(g.0);
    assert ClaimedPlayers(g.0)[i] == c.player;
    var a :| 0 <= a < |players| && players[a] == c.player;
    var b :| 0 <= b < |players| && players[b] == p;
    assert a == b;
  }

  /** The player of a granted claim has its id assigned. */
  lemma ClaimedIdAssigned(cs: seq<Claim>, p: Player)
    requires p in ClaimedPlayers(Grant(cs, {}).0)
    ensures p.id in Grant(cs, {}).1
    ensures exists c :: c in Grant(cs, {}).0 && c.player == p
  {
    var g := Grant(cs, {});
    GrantSpec(cs, {});
    ClaimedPlayersIndex(g.0);
    var i :| 0 <= i < |g.0| && ClaimedPlayers(g.0)[i] == p;
    assert g.0[i] in g.0;
  }

  /** The players of the granted claims are the players with the assigned ids, once each. */
  lemma GrantedPlayers(cs: seq<Claim>, players: seq<Player>)
    requires DistinctIds(players)
    requires forall c :: c in Grant(cs, {}).0 ==> c.player in players
    ensures multiset(ClaimedPlayers(Grant(cs, {}).0)) == multiset(WithIds(players, Grant(cs, {}).1))
  {
    var g := Grant(cs, {});
    var claimed := ClaimedPlayers(g.0);
    GrantedNoRepeats(cs);
    DistinctIdsNoRepeats(players);
    forall p
      ensures multiset(claimed)[p] == multiset(WithIds(players, g.1))[p]
    {
      NoRepeatsCount(claimed, p);
      NoRepeatsCount(players, p);
      WithIdsCount(players, g.1, p);
      GrantedMembers(cs, players, p);
    }
  }

  /**
   * The coach pass places exactly the players whose ids it assigns, once
   * each, and honours every first claim.
   */
  lemma CoachPassPlaced(rs0: seq<seq<Player>>, cs: seq<Claim>, players: seq<Player>)
    requires DistinctIds(players)
    requires forall i :: 0 <= i < |cs| ==> cs[i].team < |rs0| && cs[i].player in players
    ensures var g := Grant(cs, {});
      && multiset(Flatten(AddClaims(rs0, g.0))) == multiset(Flatten(rs0)) + multiset(WithIds(players, g.1))
      && Extends(rs0, AddClaims(rs0, g.0))
      && forall j :: FirstClaim(cs, j) ==> Honoured(AddClaims(rs0, g.0), cs, j)
  {
    var g := Grant(cs, {});
    GrantedFromList(rs0, cs, players);
    AddClaimsPlaces(rs0, g.0);
    AddClaimsPlaced(rs0, g.0);
    GrantedPlayers(cs, players);
    forall j | FirstClaim(cs, j)
      ensures Honoured(AddClaims(rs0, g.0), cs, j)
    {
      FirstClaimGranted(cs, {}, j);
    }
  }

  /** What the fill leaves over comes from the dictionary. */
  lemma RestFromPlayers(players: seq<Player>, ids: set<string>, rest: seq<Player>)
    requires multiset(rest) <= multiset(WithoutIds(players, ids))
    ensures forall p :: p in rest ==> p in players
  {
    forall p | p in rest
      ensures p in players
    {
      WithIdsCount(players, ids, p);
      assert multiset(rest)[p] > 0;
    }
  }

  /** Later passes only append, so an honoured claim stays honoured. */
  lemma HonouredKept(rs: seq<seq<Player>>, rs': seq<seq<Player>>, cs: seq<Claim>)
    requires Extends(rs, rs')
    ensures forall j :: FirstClaim(cs, j) && Honoured(rs, cs, j) ==> Honoured(rs', cs, j)
  {
    forall j: nat | FirstClaim(cs, j) && Honoured(rs, cs, j)
      ensures Honoured(rs', cs, j)
    {
      assert rs[cs[j].team] <= rs'[cs[j].team];
    }
  }

  /** Later passes only append, so a sibling group stays together on its team. */
  lemma CohesiveKept(rs: seq<seq<Player>>, rs': seq<seq<Player>>, players: seq<Player>, placed: set<string>,
                     where: map<FamilyKey, nat>)
    requires Cohesive(rs, players, placed, where) && Extends(rs, rs')
    ensures Cohesive(rs', players, placed, where)
  {
    forall p | p in players && p.id in placed
      ensures KeyOf(p) in where && where[KeyOf(p)] < |rs'| && p in rs'[where[KeyOf(p)]]
    {
      assert rs[where[KeyOf(p)]] <= rs'[where[KeyOf(p)]];
    }
  }

  /** With distinct ids, assigning the dictionary to empty teams places each player exactly once. */
  lemma EachPlayerOnce(rs0: seq<seq<Player>>, rs: seq<seq<Player>>, players: seq<Player>, cs: seq<Claim>,
                       grouped: set<string>, where: map<FamilyKey, nat>)
    requires DistinctIds(players) && Assigned(rs0, rs, players, cs, grouped, where)
    requires forall k :: 0 <= k < |rs0| ==> rs0[k] == []
    ensures forall p :: multiset(Flatten(rs))[p] == if p in players then 1 else 0
  {
    FlattenEmpty(rs0);
    DistinctIdsNoRepeats(players);
    forall p
      ensures multiset(Flatten(rs))[p] == if p in players then 1 else 0
    {
      NoRepeatsCount(players, p);
    }
  }

  lemma {:induction false} FlattenEmpty(rs: seq<seq<Player>>)
    requires forall k :: 0 <= k < |rs| ==> rs[k] == []
    ensures Flatten(rs) == []
  {
    if rs != [] {
      FlattenEmpty(rs[..|rs| - 1]);
    }
  }
}
