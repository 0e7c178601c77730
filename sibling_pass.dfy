/**
 * `assign_sibling_groups_to_teams`: the players with a non-empty sibling
 * list are grouped by family key, in the order the keys first appear; each
 * group of two or more ids then goes, minus the members already assigned,
 * onto one team with the lowest `(total_score, len(players))`.
 *
 * A group is a Python set, so the order of its members is arbitrary: the
 * members of a group are placed in any order, chosen with `:|`, and so is
 * the lowest team when several tie.
 */
module SiblingPass {
  import opened Wrappers
  import opened Entities
  import opened Teams
  import opened Siblings
  import opened PlayerFilters

  /** `family_groups[key]`: the ids of the players with siblings and this key. */
  function FamilyIds(ps: seq<Player>, k: FamilyKey): set<string> {
    if ps == [] then {}
    else
      var last := ps[|ps| - 1];
      FamilyIds(ps[..|ps| - 1], k) + (if last.siblings != [] && KeyOf(last) == k then {last.id} else {})
  }

  /** The keys of `family_groups`, in insertion order. */
  function GroupKeys(ps: seq<Player>): seq<FamilyKey> {
    if ps == [] then []
    else
      var last := ps[|ps| - 1];
      var front := GroupKeys(ps[..|ps| - 1]);
      front + (if last.siblings != [] && KeyOf(last) !in front then [KeyOf(last)] else [])
  }

  /** The ids a group contributes: all of them when it has two or more, else none. */
  function GroupIdsFor(ps: seq<Player>, k: FamilyKey): set<string> {
    if |FamilyIds(ps, k)| > 1 then FamilyIds(ps, k) else {}
  }

  /** The ids of the groups of two or more among `keys`. */
  function MultiGroupIds(ps: seq<Player>, keys: seq<FamilyKey>): set<string> {
    if keys == [] then {} else MultiGroupIds(ps, keys[..|keys| - 1]) + GroupIdsFor(ps, keys[|keys| - 1])
  }

  /** The player has siblings and its family group has at least two ids. */
  predicate InSiblingGroup(ps: seq<Player>, p: Player) {
    p.siblings != [] && |FamilyIds(ps, KeyOf(p))| > 1
  }

  // ---------------------------------------------------------------- grouping

  lemma {:induction false} FamilyIdsMembers(ps: seq<Player>, k: FamilyKey, id: string)
    ensures id in FamilyIds(ps, k) <==> exists p :: p in ps && p.id == id && p.siblings != [] && KeyOf(p) == k
  {
    if ps != [] {
      FamilyIdsMembers(ps[..|ps| - 1], k, id);
      assert forall p :: p in ps <==> p in ps[..|ps| - 1] || p == ps[|ps| - 1];
    }
  }

  /** With distinct ids, a player whose id is in a family group has siblings and that group's key. */
  lemma FamilyMember(ps: seq<Player>, k: FamilyKey, p: Player)
    requires DistinctIds(ps) && p in ps && p.id in FamilyIds(ps, k)
    ensures p.siblings != [] && KeyOf(p) == k
  {
    FamilyIdsMembers(ps, k, p.id);
    var q :| q in ps && q.id == p.id && q.siblings != [] && KeyOf(q) == k;
    LookupFindsMember(ps, p);
    LookupFindsMember(ps, q);
  }

  /** A family group holds ids of players only. */
  lemma FamilyIdsOfPlayers(ps: seq<Player>, k: FamilyKey)
    ensures FamilyIds(ps, k) <= Ids(ps)
  {
    forall id | id in FamilyIds(ps, k)
      ensures id in Ids(ps)
    {
      FamilyIdsMembers(ps, k, id);
    }
  }

  /** The keys are those of the players with siblings. */
  lemma {:induction false} GroupKeysMembers(ps: seq<Player>)
    ensures forall k :: k in GroupKeys(ps) <==> exists p :: p in ps && p.siblings != [] && KeyOf(p) == k
  {
    if ps != [] {
      GroupKeysMembers(ps[..|ps| - 1]);
      assert forall p :: p in ps <==> p in ps[..|ps| - 1] || p == ps[|ps| - 1];
    }
  }

  /** Each key occurs once. */
  lemma {:induction false} GroupKeysDistinct(ps: seq<Player>)
    ensures forall i, j :: 0 <= i < j < |GroupKeys(ps)| ==> GroupKeys(ps)[i] != GroupKeys(ps)[j]
  {
    if ps != [] {
      GroupKeysDistinct(ps[..|ps| - 1]);
    }
  }

  /** A group's ids are among the ids of the groups it belongs to. */
  lemma {:induction false} MultiGroupIdsHas(ps: seq<Player>, keys: seq<FamilyKey>, j: nat, id: string)
    requires j < |keys| && id in GroupIdsFor(ps, keys[j])
    ensures id in MultiGroupIds(ps, keys)
  {
    var n := |keys| - 1;
    if j < n {
      assert keys[..n][j] == keys[j];
      MultiGroupIdsHas(ps, keys[..n], j, id);
    }
  }

  /** Every id of the groups comes from one of them. */
  lemma {:induction false} MultiGroupIdsFrom(ps: seq<Player>, keys: seq<FamilyKey>, id: string)
    requires id in MultiGroupIds(ps, keys)
    ensures exists j :: 0 <= j < |keys| && id in GroupIdsFor(ps, keys[j])
  {
    var n := |keys| - 1;
    if id !in GroupIdsFor(ps, keys[n]) {
      MultiGroupIdsFrom(ps, keys[..n], id);
      var j :| 0 <= j < n && id in GroupIdsFor(ps, keys[..n][j]);
      assert keys[..n][j] == keys[j];
    }
  }

  lemma MultiGroupIdsStep(ps: seq<Player>, keys: seq<FamilyKey>, i: nat)
    requires i < |keys|
    ensures MultiGroupIds(ps, keys[..i + 1]) == MultiGroupIds(ps, keys[..i]) + GroupIdsFor(ps, keys[i])
  {
    assert keys[..i + 1][..i] == keys[..i];
  }

  /**
   * The pass assigns exactly the ids of the players with siblings whose
   * family group has two or more ids; a player without siblings is not
   * among them.
   */
  lemma SiblingGroupIds(ps: seq<Player>, id: string)
    requires DistinctIds(ps)
    ensures id in MultiGroupIds(ps, GroupKeys(ps)) <==> exists p :: p in ps && p.id == id && InSiblingGroup(ps, p)
  {
    var keys := GroupKeys(ps);
    GroupKeysMembers(ps);
    if id in MultiGroupIds(ps, keys) {
      MultiGroupIdsFrom(ps, keys, id);
      var j :| 0 <= j < |keys| && id in GroupIdsFor(ps, keys[j]);
      FamilyIdsMembers(ps, keys[j], id);
    }
    if exists p :: p in ps && p.id == id && InSiblingGroup(ps, p) {
      var p :| p in ps && p.id == id && InSiblingGroup(ps, p);
      FamilyIdsMembers(ps, KeyOf(p), id);
      assert KeyOf(p) in keys;
      var j :| 0 <= j < |keys| && keys[j] == KeyOf(p);
      MultiGroupIdsHas(ps, keys, j, id);
    }
  }

  /** The ids of the players that sit with a sibling group of two or more. */
  function GroupedIds(ps: seq<Player>): set<string> {
    set p | p in ps && InSiblingGroup(ps, p) :: p.id
  }

  /** The groups the pass walks, key by key, hold exactly the players in a sibling group. */
  lemma MultiGroupIdsAreGrouped(ps: seq<Player>)
    requires DistinctIds(ps)
    ensures MultiGroupIds(ps, GroupKeys(ps)) == GroupedIds(ps)
  {
    forall id ensures id in MultiGroupIds(ps, GroupKeys(ps)) <==> id in GroupedIds(ps) {
      SiblingGroupIds(ps, id);
    }
  }

  /** The grouping loop: keys in first-appearance order, each with the set of its ids. */
  method FamilyGroupSets(players: seq<Player>) returns (keys: seq<FamilyKey>, groups: map<FamilyKey, set<string>>)
    ensures keys == GroupKeys(players)
    ensures forall k :: k in groups <==> k in keys
    ensures forall k :: k in groups ==> groups[k] == FamilyIds(players, k)
  {
    keys := [];
    groups := map[];
    for i := 0 to |players|
      invariant keys == GroupKeys(players[..i])
      invariant forall k :: k in groups <==> k in keys
      invariant forall k :: k in groups ==> groups[k] == FamilyIds(players[..i], k)
      invariant forall k :: k !in groups ==> FamilyIds(players[..i], k) == {}
    {
      var p := players[i];
      assert players[..i + 1][..i] == players[..i] && players[..i + 1][i] == p;
      if p.siblings != [] {
        var key := KeyOf(p);
        if key !in groups {
          keys := keys + [key];
          groups := groups[key := {}];
        }
        groups := groups[key := groups[key] + {p.id}];
      }
    }
    assert players[..|players|] == players;
  }

  // ---------------------------------------------------------------- placing

  /** The ids of a list of players. */
  lemma IdsOfSelection(players: seq<Player>, ids: set<string>, members: seq<Player>)
    requires ids <= Ids(players) && multiset(members) == multiset(WithIds(players, ids))
    ensures Ids(members) == ids
  {
    forall id | id in ids
      ensures id in Ids(members)
    {
      var p :| p in players && p.id == id;
      WithIdsMembers(players, ids, p);
      assert p in multiset(members);
    }
    forall p | p in members
      ensures p.id in ids
    {
      assert p in multiset(WithIds(players, ids));
      WithIdsMembers(players, ids, p);
    }
  }

  /** The ids of the first `i + 1` players: those of the first `i`, and one more. */
  lemma IdsSnoc(ps: seq<Player>, i: nat)
    requires i < |ps|
    ensures Ids(ps[..i + 1]) == Ids(ps[..i]) + {ps[i].id}
  {
    assert ps[..i + 1] == ps[..i] + [ps[i]];
  }

  /** The inner loop: each member in turn is added to `team` and marked assigned. */
  method AddMembers(team: Team, members: seq<Player>, assignedIds: set<string>) returns (assignedIds': set<string>)
    modifies team
    ensures team.players == old(team.players) + members
    ensures Account(team.sponsor, team.total) == AccountAfter(Account(old(team.sponsor), old(team.total)), members)
    ensures old(team.TotalConsistent()) ==> team.TotalConsistent()
    ensures assignedIds' == assignedIds + Ids(members)
  {
    assignedIds' := assignedIds;
    ghost var a0 := Account(team.sponsor, team.total);
    assert members[..0] == [];
    for i := 0 to |members|
      invariant team.players == old(team.players) + members[..i]
      invariant Account(team.sponsor, team.total) == AccountAfter(a0, members[..i])
      invariant assignedIds' == assignedIds + Ids(members[..i])
    {
      IdsSnoc(members, i);
      AddMember(team, members, i, old(team.players), a0);
      assignedIds' := assignedIds' + {members[i].id};
    }
    assert members[..|members|] == members;
    SumScoresConcat(old(team.players), members);
  }

  /** One turn of the inner loop: member `i` joins the team after the ones before it. */
  method AddMember(team: Team, members: seq<Player>, i: nat, ghost base: seq<Player>, ghost a0: Account)
    requires i < |members|
    requires team.players == base + members[..i] && Account(team.sponsor, team.total) == AccountAfter(a0, members[..i])
    modifies team
    ensures team.players == base + members[..i + 1]
    ensures Account(team.sponsor, team.total) == AccountAfter(a0, members[..i + 1])
  {
    AccountAfterSnoc(a0, members, i);
    assert members[..i + 1] == members[..i] + [members[i]];
    team.AddPlayer(members[i]);
  }

  /** Puts all of `members`, in order, onto team `t` of the list, marking each assigned. */
  method PlaceGroup(teams: seq<Team>, t: nat, members: seq<Player>, assignedIds: set<string>)
    returns (assignedIds': set<string>)
    requires t < |teams| && DistinctTeams(teams)
    modifies teams
    ensures assignedIds' == assignedIds + Ids(members)
    ensures Rosters(teams) == old(Rosters(teams))[t := old(teams[t].players) + members]
    ensures Accounts(teams) == old(Accounts(teams))[t := AccountAfter(old(Accounts(teams))[t], members)]
    ensures Follows(old(Accounts(teams)), old(Rosters(teams)), Accounts(teams), Rosters(teams))
    ensures Placed(teams) == old(Placed(teams)) + multiset(members)
    ensures Extends(old(Rosters(teams)), Rosters(teams))
    ensures old(TotalsConsistent(teams)) ==> TotalsConsistent(teams)
  {
    ghost var acs, rs := Accounts(teams), Rosters(teams);
    ConsistentByAccounts(teams);
    assignedIds' := AddMembersAt(teams, t, members, assignedIds);
    FlattenAppend(rs, t, members);
    ExtendsAppend(rs, t, members);
    FollowsAppend(acs, rs, t, members);
    KeptConsistent(teams, acs, rs);
  }

  /** `AddMembers` on team `t` of the list, seen on the rosters and accounts of all the teams. */
  method AddMembersAt(teams: seq<Team>, t: nat, members: seq<Player>, assignedIds: set<string>)
    returns (assignedIds': set<string>)
    requires t < |teams| && DistinctTeams(teams)
    modifies teams
    ensures assignedIds' == assignedIds + Ids(members)
    ensures Rosters(teams) == old(Rosters(teams))[t := old(teams[t].players) + members]
    ensures Accounts(teams) == old(Accounts(teams))[t := AccountAfter(old(Accounts(teams))[t], members)]
  {
    ghost var acs, rs := Accounts(teams), Rosters(teams);
    assignedIds' := AddMembers(teams[t], members, assignedIds);
    assert forall j :: 0 <= j < |teams| && j != t ==>
      teams[j].players == rs[j] && Account(teams[j].sponsor, teams[j].total) == acs[j] by {
      assert forall j :: 0 <= j < |teams| && j != t ==> teams[j] != teams[t];
    }
    assert Rosters(teams) == rs[t := rs[t] + members];
    assert Accounts(teams) == acs[t := AccountAfter(acs[t], members)];
  }

  /** Every player placed so far is on the roster recorded for its family key. */
  ghost predicate Cohesive(rs: seq<seq<Player>>, players: seq<Player>, placed: set<string>, where: map<FamilyKey, nat>) {
    forall p :: p in players && p.id in placed ==>
      KeyOf(p) in where && where[KeyOf(p)] < |rs| && p in rs[where[KeyOf(p)]]
  }

  /** Appending to the rosters keeps the placed players where they were. */
  lemma CohesiveExtends(rs: seq<seq<Player>>, rs': seq<seq<Player>>, players: seq<Player>, placed: set<string>,
                        where: map<FamilyKey, nat>, key: FamilyKey, t: nat)
    requires Cohesive(rs, players, placed, where) && Extends(rs, rs') && key !in where
    ensures Cohesive(rs', players, placed, where[key := t])
  {
    forall p | p in players && p.id in placed
      ensures KeyOf(p) in where[key := t] && where[key := t][KeyOf(p)] < |rs'| && p in rs'[where[key := t][KeyOf(p)]]
    {
      var k := KeyOf(p);
      assert k != key;
      assert rs[where[k]] <= rs'[where[k]];
    }
  }

  /**
   * What `[players[pid] for pid in group if pid not in assigned]` selects:
   * players of the group, unassigned, having siblings and the group's key,
   * and exactly the group's unassigned ids.
   */
  lemma Selection(players: seq<Player>, key: FamilyKey, newIds: set<string>, members: seq<Player>)
    requires DistinctIds(players) && newIds <= FamilyIds(players, key)
    requires multiset(members) == multiset(WithIds(players, newIds))
    ensures Ids(members) == newIds
    ensures forall p :: p in players && p.id in newIds <==> p in members
    ensures forall p :: p in members ==> p.siblings != [] && KeyOf(p) == key
  {
    FamilyIdsOfPlayers(players, key);
    IdsOfSelection(players, newIds, members);
    forall p
      ensures p in players && p.id in newIds <==> p in members
    {
      WithIdsMembers(players, newIds, p);
      assert p in members <==> p in multiset(members);
    }
    forall p | p in members
      ensures p.siblings != [] && KeyOf(p) == key
    {
      FamilyMember(players, key, p);
    }
  }

  /**
   * One group of the loop: its unassigned members, in some order, all go
   * onto one team that is lowest beforehand; an empty selection changes
   * nothing. Afterwards every id of the group is assigned.
   */
  method PlaceFamily(teams: seq<Team>, players: seq<Player>, key: FamilyKey, assignedIds: set<string>)
    returns (assignedIds': set<string>, ghost members: seq<Player>, ghost t: nat)
    requires DistinctTeams(teams) && DistinctIds(players)
    requires |teams| > 0 || forall p :: p in players && p.id in FamilyIds(players, key) ==> p.id in assignedIds
    modifies teams
    ensures multiset(members) == multiset(WithIds(players, FamilyIds(players, key) - assignedIds))
    ensures assignedIds' == assignedIds + FamilyIds(players, key)
    ensures members != [] ==> t < |teams| && old(IsLowest(teams, t))
    ensures Rosters(teams) == if members == [] then old(Rosters(teams))
                              else old(Rosters(teams))[t := old(Rosters(teams))[t] + members]
    ensures Follows(old(Accounts(teams)), old(Rosters(teams)), Accounts(teams), Rosters(teams))
    ensures Placed(teams) == old(Placed(teams)) + multiset(members)
    ensures Extends(old(Rosters(teams)), Rosters(teams))
    ensures old(TotalsConsistent(teams)) ==> TotalsConsistent(teams)
  {
    FollowsRefl(Accounts(teams), Rosters(teams));
    var newIds := FamilyIds(players, key) - assignedIds;
    var group :| multiset(group) == multiset(WithIds(players, newIds));
    members := group;
    Selection(players, key, newIds, group);
    assert assignedIds + newIds == assignedIds + FamilyIds(players, key);
    if group == [] {
      assert newIds == {};
      assignedIds', t := assignedIds, 0;
      return;
    }
    assert group[0] in group;
    if |teams| == 0 {
      assert false;
    }
    LowestExists(teams);
    var best: nat :| IsLowest(teams, best);
    t := best;
    assignedIds' := PlaceGroup(teams, best, group, assignedIds);
  }

  /** A group's members, appended to one roster, are recorded under the group's key. */
  lemma FamilyStep(players: seq<Player>, key: FamilyKey, assigned0: set<string>, assignedIds: set<string>,
                   where: map<FamilyKey, nat>, placed0: multiset<Player>, members: seq<Player>, t: nat,
                   rs: seq<seq<Player>>, rs': seq<seq<Player>>, before: multiset<Player>, after: multiset<Player>)
    requires DistinctIds(players) && assigned0 <= assignedIds && key !in where
    requires Cohesive(rs, players, assignedIds - assigned0, where)
    requires before == placed0 + multiset(WithIds(players, assignedIds - assigned0))
    requires multiset(members) == multiset(WithIds(players, FamilyIds(players, key) - assignedIds))
    requires members != [] ==> t < |rs|
    requires rs' == if members == [] then rs else rs[t := rs[t] + members]
    requires Extends(rs, rs')
    requires after == before + multiset(members)
    ensures var assignedIds' := assignedIds + FamilyIds(players, key);
      var where' := if members == [] then where else where[key := t];
      && Cohesive(rs', players, assignedIds' - assigned0, where')
      && after == placed0 + multiset(WithIds(players, assignedIds' - assigned0))
  {
    var newIds := FamilyIds(players, key) - assignedIds;
    Selection(players, key, newIds, members);
    WithIdsUnion(players, assignedIds - assigned0, newIds);
    assert (assignedIds + FamilyIds(players, key)) - assigned0 == (assignedIds - assigned0) + newIds;
    if members != [] {
      var where' := where[key := t];
      CohesiveExtends(rs, rs', players, assignedIds - assigned0, where, key, t);
      forall p | p in players && p.id in newIds
        ensures KeyOf(p) in where' && where'[KeyOf(p)] < |rs'| && p in rs'[where'[KeyOf(p)]]
      {
        assert p in members;
      }
    } else {
      assert newIds == {};
    }
  }

  /** The state of the group loop: the players placed so far are those of the ids it assigned, kept together. */
  ghost predicate GroupsPlaced(rs: seq<seq<Player>>, players: seq<Player>, assigned0: set<string>, assignedIds: set<string>,
                               where: map<FamilyKey, nat>, placed0: multiset<Player>)
  {
    && Cohesive(rs, players, assignedIds - assigned0, where)
    && multiset(Flatten(rs)) == placed0 + multiset(WithIds(players, assignedIds - assigned0))
  }

  /** The body of the loop over the groups, for the group of key `key`. */
  method GroupStep(teams: seq<Team>, players: seq<Player>, key: FamilyKey, group: set<string>, assignedIds: set<string>,
                   ghost assigned0: set<string>, ghost placed0: multiset<Player>, ghost where: map<FamilyKey, nat>)
    returns (assignedIds': set<string>, ghost where': map<FamilyKey, nat>)
    requires DistinctTeams(teams) && DistinctIds(players) && group == FamilyIds(players, key)
    requires assigned0 <= assignedIds && key !in where
    requires |teams| > 0 || forall p :: p in players && InSiblingGroup(players, p) ==> p.id in assigned0
    requires GroupsPlaced(Rosters(teams), players, assigned0, assignedIds, where, placed0)
    modifies teams
    ensures assignedIds' == assignedIds + GroupIdsFor(players, key)
    ensures forall k :: k in where' ==> k in where || k == key
    ensures GroupsPlaced(Rosters(teams), players, assigned0, assignedIds', where', placed0)
    ensures Follows(old(Accounts(teams)), old(Rosters(teams)), Accounts(teams), Rosters(teams))
    ensures old(TotalsConsistent(teams)) ==> TotalsConsistent(teams)
  {
    FollowsRefl(Accounts(teams), Rosters(teams));
    assignedIds', where' := assignedIds, where;
    if |group| > 1 {
      if |teams| == 0 {
        forall p | p in players && p.id in group
          ensures p.id in assignedIds
        {
          FamilyMember(players, key, p);
        }
      }
      ghost var members, t;
      assignedIds', members, t := PlaceFamily(teams, players, key, assignedIds);
      FamilyStep(players, key, assigned0, assignedIds, where, placed0, members, t,
                 old(Rosters(teams)), Rosters(teams), old(Placed(teams)), Placed(teams));
      where' := if members == [] then where else where[key := t];
    } else {
      assert Rosters(teams) == old(Rosters(teams));
    }
  }

  /** Where a key is in the key order: its index, or the length when it is absent. */
  function KeyPosition(keys: seq<FamilyKey>, k: FamilyKey): (n: nat)
    ensures n <= |keys| && (n < |keys| ==> keys[n] == k)
    ensures forall j :: 0 <= j < n ==> keys[j] != k
  {
    if keys == [] then 0 else if keys[0] == k then 0 else 1 + KeyPosition(keys[1..], k)
  }

  /** With distinct keys, the key at an index has that position. */
  lemma KeyPositionOf(keys: seq<FamilyKey>, i: nat)
    requires i < |keys| && forall a, b :: 0 <= a < b < |keys| ==> keys[a] != keys[b]
    ensures KeyPosition(keys, keys[i]) == i
  {
  }

  /** The invariant of the loop over the groups, after the first `i` keys, on the rosters `rs`. */
  ghost predicate LoopState(rs: seq<seq<Player>>, consistent: bool, players: seq<Player>, keys: seq<FamilyKey>, i: nat,
                            assigned0: set<string>, assignedIds: set<string>, where: map<FamilyKey, nat>,
                            placed0: multiset<Player>, rosters0: seq<seq<Player>>, consistent0: bool)
  {
    && i <= |keys|
    && assignedIds == assigned0 + MultiGroupIds(players, keys[..i])
    && (forall k :: k in where ==> KeyPosition(keys, k) < i)
    && GroupsPlaced(rs, players, assigned0, assignedIds, where, placed0)
    && Extends(rosters0, rs)
    && (consistent0 ==> consistent)
  }

  /** A turn of the loop that places the group of `keys[i]` advances the invariant to `i + 1`. */
  lemma LoopAdvance(rs: seq<seq<Player>>, rs': seq<seq<Player>>, consistent: bool, consistent': bool,
                    players: seq<Player>, keys: seq<FamilyKey>, i: nat, assigned0: set<string>,
                    assignedIds: set<string>, assignedIds': set<string>, where: map<FamilyKey, nat>,
                    where': map<FamilyKey, nat>, placed0: multiset<Player>, rosters0: seq<seq<Player>>, consistent0: bool)
    requires i < |keys| && forall a, b :: 0 <= a < b < |keys| ==> keys[a] != keys[b]
    requires LoopState(rs, consistent, players, keys, i, assigned0, assignedIds, where, placed0, rosters0, consistent0)
    requires assignedIds' == assignedIds + GroupIdsFor(players, keys[i])
    requires forall k :: k in where' ==> k in where || k == keys[i]
    requires GroupsPlaced(rs', players, assigned0, assignedIds', where', placed0)
    requires Extends(rs, rs') && (consistent ==> consistent')
    ensures LoopState(rs', consistent', players, keys, i + 1, assigned0, assignedIds', where', placed0, rosters0, consistent0)
  {
    MultiGroupIdsStep(players, keys, i);
    KeyPositionOf(keys, i);
    ExtendsTransitive(rosters0, rs, rs');
  }

  /** Before the loop nothing is placed or recorded. */
  lemma LoopStart(rs: seq<seq<Player>>, consistent: bool, players: seq<Player>, keys: seq<FamilyKey>,
                  assigned0: set<string>)
    ensures LoopState(rs, consistent, players, keys, 0, assigned0, assigned0, map[], multiset(Flatten(rs)), rs, consistent)
  {
    WithNoIds(players);
    assert assigned0 - assigned0 == {};
    assert keys[..0] == [];
  }

  /** After the last key the invariant is the pass's promise. */
  lemma LoopEnd(rs: seq<seq<Player>>, consistent: bool, players: seq<Player>, keys: seq<FamilyKey>,
                assigned0: set<string>, assignedIds: set<string>, where: map<FamilyKey, nat>,
                placed0: multiset<Player>, rosters0: seq<seq<Player>>, consistent0: bool)
    requires LoopState(rs, consistent, players, keys, |keys|, assigned0, assignedIds, where, placed0, rosters0, consistent0)
    ensures assignedIds == assigned0 + MultiGroupIds(players, keys)
    ensures multiset(Flatten(rs)) == placed0 + multiset(WithIds(players, assignedIds - assigned0))
    ensures Cohesive(rs, players, assignedIds - assigned0, where)
    ensures Extends(rosters0, rs) && (consistent0 ==> consistent)
  {
    assert keys[..|keys|] == keys;
  }

  /** One turn of the loop over the groups. */
  method LoopStep(teams: seq<Team>, players: seq<Player>, keys: seq<FamilyKey>, i: nat, group: set<string>,
                  assignedIds: set<string>, ghost assigned0: set<string>, ghost where: map<FamilyKey, nat>,
                  ghost placed0: multiset<Player>, ghost rosters0: seq<seq<Player>>, ghost consistent0: bool,
                  ghost accounts0: seq<Account>)
    returns (assignedIds': set<string>, ghost where': map<FamilyKey, nat>)
    requires DistinctTeams(teams) && DistinctIds(players)
    requires i < |keys| && forall a, b :: 0 <= a < b < |keys| ==> keys[a] != keys[b]
    requires group == FamilyIds(players, keys[i])
    requires |teams| > 0 || forall p :: p in players && InSiblingGroup(players, p) ==> p.id in assigned0
    requires LoopState(Rosters(teams), TotalsConsistent(teams), players, keys, i, assigned0, assignedIds, where,
                       placed0, rosters0, consistent0)
    requires Follows(accounts0, rosters0, Accounts(teams), Rosters(teams))
    modifies teams
    ensures LoopState(Rosters(teams), TotalsConsistent(teams), players, keys, i + 1, assigned0, assignedIds', where',
                      placed0, rosters0, consistent0)
    ensures Follows(accounts0, rosters0, Accounts(teams), Rosters(teams))
  {
    KeyPositionOf(keys, i);
    ghost var rs := Rosters(teams);
    ghost var acs := Accounts(teams);
    ghost var consistent := TotalsConsistent(teams);
    assignedIds', where' := GroupStep(teams, players, keys[i], group, assignedIds, assigned0, placed0, where);
    FollowsTransitive(accounts0, rosters0, acs, rs, Accounts(teams), Rosters(teams));
    LoopAdvance(rs, Rosters(teams), consistent, TotalsConsistent(teams), players, keys, i, assigned0,
                assignedIds, assignedIds', where, where', placed0, rosters0, consistent0);
  }

  /** The loop over the groups, in key order. */
  method PlaceAllGroups(teams: seq<Team>, players: seq<Player>, keys: seq<FamilyKey>,
                        groups: map<FamilyKey, set<string>>, assignedIds: set<string>)
    returns (assignedIds': set<string>, ghost where: map<FamilyKey, nat>)
    requires DistinctTeams(teams) && DistinctIds(players)
    requires |teams| > 0 || forall p :: p in players && InSiblingGroup(players, p) ==> p.id in assignedIds
    requires forall i, j :: 0 <= i < j < |keys| ==> keys[i] != keys[j]
    requires forall i :: 0 <= i < |keys| ==> keys[i] in groups && groups[keys[i]] == FamilyIds(players, keys[i])
    modifies teams
    ensures assignedIds' == assignedIds + MultiGroupIds(players, keys)
    ensures Placed(teams) == old(Placed(teams)) + multiset(WithIds(players, assignedIds' - assignedIds))
    ensures Cohesive(Rosters(teams), players, assignedIds' - assignedIds, where)
    ensures Extends(old(Rosters(teams)), Rosters(teams))
    ensures Follows(old(Accounts(teams)), old(Rosters(teams)), Accounts(teams), Rosters(teams))
    ensures old(TotalsConsistent(teams)) ==> TotalsConsistent(teams)
  {
    assignedIds' := assignedIds;
    where := map[];
    ghost var rosters0 := Rosters(teams);
    ghost var accounts0 := Accounts(teams);
    ghost var consistent0 := TotalsConsistent(teams);
    LoopStart(rosters0, consistent0, players, keys, assignedIds);
    FollowsRefl(accounts0, rosters0);
    for i := 0 to |keys|
      invariant LoopState(Rosters(teams), TotalsConsistent(teams), players, keys, i, assignedIds, assignedIds', where,
                          old(Placed(teams)), rosters0, consistent0)
      invariant Follows(accounts0, rosters0, Accounts(teams), Rosters(teams))
    {
      assignedIds', where := LoopStep(teams, players, keys, i, groups[keys[i]], assignedIds', assignedIds,
                                      where, old(Placed(teams)), rosters0, consistent0, accounts0);
    }
    LoopEnd(Rosters(teams), TotalsConsistent(teams), players, keys, assignedIds, assignedIds', where,
            old(Placed(teams)), rosters0, consistent0);
  }

  /** `assign_sibling_groups_to_teams`. */
  method AssignSiblingGroups(teams: seq<Team>, players: seq<Player>, assignedIds: set<string>)
    returns (assignedIds': set<string>, ghost where: map<FamilyKey, nat>)
    requires DistinctTeams(teams) && DistinctIds(players)
    requires |teams| > 0 || forall p :: p in players && InSiblingGroup(players, p) ==> p.id in assignedIds
    modifies teams
    ensures assignedIds' == assignedIds + MultiGroupIds(players, GroupKeys(players))
    ensures Placed(teams) == old(Placed(teams)) + multiset(WithIds(players, assignedIds' - assignedIds))
    ensures Cohesive(Rosters(teams), players, assignedIds' - assignedIds, where)
    ensures Extends(old(Rosters(teams)), Rosters(teams))
    ensures Follows(old(Accounts(teams)), old(Rosters(teams)), Accounts(teams), Rosters(teams))
    ensures old(TotalsConsistent(teams)) ==> TotalsConsistent(teams)
  {
    var keys, groups := FamilyGroupSets(players);
    GroupKeysDistinct(players);
    assignedIds', where := PlaceAllGroups(teams, players, keys, groups, assignedIds);
  }
}
