/**
 * `assign_coach_associated_players`: for every team in order, its head
 * coach and then its assistant, a coach with a truthy associated player id
 * that names a known player claims that player for the team; a claim is
 * granted when the player is not assigned yet, and the first claim wins.
 *
 * The claims depend only on the coaches, which never change, and on the
 * player dictionary; the pass is modelled as the list of claims in the
 * order the source meets them (`Claims`), granted one by one (`Grant`).
 */
module CoachPass {
  import opened Wrappers
  import opened Entities
  import opened Teams
  import opened PlayerFilters

  /** Team `team` asks for `player`. */
  datatype Claim = Claim(team: nat, player: Player)

  /** The claim a coach of team `k` makes: its associated player, when the id is truthy and known. */
  function CoachClaim(c: Coach, k: nat, players: seq<Player>): seq<Claim> {
    if Truthy(c.associatedPlayerId) then
      match Lookup(players, c.associatedPlayerId.value)
      case Some(p) => [Claim(k, p)]
      case None => []
    else []
  }

  /** The claims of team `k`: its head coach's, then its assistant's. */
  function TeamClaims(t: Team, k: nat, players: seq<Player>): seq<Claim> {
    CoachClaim(t.head, k, players) + (if t.assistant.Some? then CoachClaim(t.assistant.value, k, players) else [])
  }

  /** Every claim, team by team. */
  function Claims(teams: seq<Team>, players: seq<Player>): seq<Claim> {
    if teams == [] then []
    else
      var n := |teams| - 1;
      Claims(teams[..n], players) + TeamClaims(teams[n], n, players)
  }

  /** The claims that are granted, in order, and the assigned ids afterwards. */
  function Grant(claims: seq<Claim>, assignedIds: set<string>): (seq<Claim>, set<string>) {
    if claims == [] then ([], assignedIds)
    else
      var before := Grant(claims[..|claims| - 1], assignedIds);
      var c := claims[|claims| - 1];
      if c.player.id in before.1 then before else (before.0 + [c], before.1 + {c.player.id})
  }

  /** The rosters after the players of `cs` were appended, each to its claiming team, in order. */
  function AddClaims(rs: seq<seq<Player>>, cs: seq<Claim>): (r: seq<seq<Player>>)
    ensures |r| == |rs|
  {
    if cs == [] then rs
    else
      var before := AddClaims(rs, cs[..|cs| - 1]);
      var c := cs[|cs| - 1];
      if c.team < |before| then before[c.team := before[c.team] + [c.player]] else before
  }

  /** The players of a list of claims. */
  function ClaimedPlayers(cs: seq<Claim>): seq<Player> {
    if cs == [] then [] else ClaimedPlayers(cs[..|cs| - 1]) + [cs[|cs| - 1].player]
  }

  // ---------------------------------------------------------------- the pass

  /** Grants the claims one by one: an unassigned player is added to its team and marked assigned. */
  method GrantClaims(teams: seq<Team>, cs: seq<Claim>, assignedIds: set<string>) returns (assignedIds': set<string>)
    requires DistinctTeams(teams)
    requires forall i :: 0 <= i < |cs| ==> cs[i].team < |teams|
    modifies teams
    ensures assignedIds' == Grant(cs, assignedIds).1
    ensures Rosters(teams) == AddClaims(old(Rosters(teams)), Grant(cs, assignedIds).0)
    ensures Follows(old(Accounts(teams)), old(Rosters(teams)), Accounts(teams), Rosters(teams))
    ensures old(TotalsConsistent(teams)) ==> TotalsConsistent(teams)
  {
    assignedIds' := assignedIds;
    ghost var granted: seq<Claim> := [];
    ghost var acs0, rs0 := Accounts(teams), Rosters(teams);
    ConsistentByAccounts(teams);
    FollowsRefl(acs0, rs0);
    for i := 0 to |cs|
      invariant granted == Grant(cs[..i], assignedIds).0
      invariant assignedIds' == Grant(cs[..i], assignedIds).1
      invariant Rosters(teams) == AddClaims(rs0, granted)
      invariant Follows(acs0, rs0, Accounts(teams), Rosters(teams))
    {
      var c := cs[i];
      assert cs[..i + 1][..i] == cs[..i] && cs[..i + 1][i] == c;
      if c.player.id !in assignedIds' {
        GrantStep(teams, c, acs0, rs0, granted);
        granted := granted + [c];
        assignedIds' := assignedIds' + {c.player.id};
      }
    }
    assert cs[..|cs|] == cs;
    KeptConsistent(teams, acs0, rs0);
  }

  /** Grants one claim: its player is added to its team, on top of the claims granted so far. */
  method GrantStep(teams: seq<Team>, c: Claim, ghost acs0: seq<Account>, ghost rs0: seq<seq<Player>>, ghost granted: seq<Claim>)
    requires DistinctTeams(teams) && c.team < |teams|
    requires Rosters(teams) == AddClaims(rs0, granted) && Follows(acs0, rs0, Accounts(teams), Rosters(teams))
    modifies teams
    ensures Rosters(teams) == AddClaims(rs0, granted + [c]) && Follows(acs0, rs0, Accounts(teams), Rosters(teams))
  {
    ghost var acs1, rs1 := Accounts(teams), Rosters(teams);
    AddToTeam(teams, c.team, c.player);
    FollowsTransitive(acs0, rs0, acs1, rs1, Accounts(teams), Rosters(teams));
    assert (granted + [c])[..|granted|] == granted;
  }

  /** `assign_coach_associated_players`. */
  method AssignCoachPlayers(teams: seq<Team>, players: seq<Player>, assignedIds: set<string>)
    returns (assignedIds': set<string>)
    requires DistinctTeams(teams)
    modifies teams
    ensures assignedIds' == Grant(Claims(teams, players), assignedIds).1
    ensures Rosters(teams) == AddClaims(old(Rosters(teams)), Grant(Claims(teams, players), assignedIds).0)
    ensures Follows(old(Accounts(teams)), old(Rosters(teams)), Accounts(teams), Rosters(teams))
    ensures old(TotalsConsistent(teams)) ==> TotalsConsistent(teams)
  {
    var claims := Claims(teams, players);
    ClaimsFromCoaches(teams, players);
    assignedIds' := GrantClaims(teams, claims, assignedIds);
  }

  // ---------------------------------------------------------------- properties

  /** The coach of a team that names the player with this id. */
  predicate Names(c: Coach, id: string) {
    Truthy(c.associatedPlayerId) && c.associatedPlayerId.value == id
  }

  /** Each claim is for a known player, by a coach of its team who names that player. */
  lemma {:induction false} ClaimsFromCoaches(teams: seq<Team>, players: seq<Player>)
    ensures forall i :: 0 <= i < |Claims(teams, players)| ==>
      var c := Claims(teams, players)[i];
      && c.team < |teams| && c.player in players
      && (Names(teams[c.team].head, c.player.id)
          || (teams[c.team].assistant.Some? && Names(teams[c.team].assistant.value, c.player.id)))
  {
    if teams != [] {
      var n := |teams| - 1;
      ClaimsFromCoaches(teams[..n], players);
    }
  }

  /** Every coach naming a known player makes a claim for its team. */
  lemma {:induction false} CoachesClaim(teams: seq<Team>, players: seq<Player>, k: nat, c: Coach)
    requires k < |teams| && (c == teams[k].head || teams[k].assistant == Some(c)) && Truthy(c.associatedPlayerId)
    requires Lookup(players, c.associatedPlayerId.value).Some?
    ensures Claim(k, Lookup(players, c.associatedPlayerId.value).value) in Claims(teams, players)
  {
    var n := |teams| - 1;
    if k < n {
      CoachesClaim(teams[..n], players, k, c);
    }
  }

  /**
   * The granted claims are for different players, none assigned before;
   * they are claims of the list; and afterwards every claimed player is
   * assigned, the assigned ids being the old ones and those granted.
   */
  lemma {:induction false} GrantSpec(cs: seq<Claim>, assignedIds: set<string>)
    ensures var g := Grant(cs, assignedIds);
      && (forall i, j :: 0 <= i < j < |g.0| ==> g.0[i].player.id != g.0[j].player.id)
      && (forall c :: c in g.0 ==> c in cs && c.player.id !in assignedIds)
      && (forall c :: c in cs ==> c.player.id in g.1)
      && g.1 == assignedIds + set c | c in g.0 :: c.player.id
  {
    if cs != [] {
      var n := |cs| - 1;
      GrantSpec(cs[..n], assignedIds);
      assert forall c :: c in cs ==> c in cs[..n] || c == cs[n];
    }
  }

  /** A claim whose player was not assigned before and whom no earlier claim names is granted. */
  lemma {:induction false} FirstClaimGranted(cs: seq<Claim>, assignedIds: set<string>, j: nat)
    requires j < |cs| && cs[j].player.id !in assignedIds
    requires forall i :: 0 <= i < j ==> cs[i].player.id != cs[j].player.id
    ensures cs[j] in Grant(cs, assignedIds).0
  {
    var n := |cs| - 1;
    var before := Grant(cs[..n], assignedIds);
    if j < n {
      FirstClaimGranted(cs[..n], assignedIds, j);
      assert cs[..n][j] == cs[j];
    } else {
      GrantSpec(cs[..n], assignedIds);
      if cs[j].player.id in before.1 {
        assert false;
      }
    }
  }

  /** Adding claims appends to the rosters, and each in-range claim's player ends up on its team. */
  lemma {:induction false} AddClaimsPlaces(rs: seq<seq<Player>>, cs: seq<Claim>)
    ensures Extends(rs, AddClaims(rs, cs))
    ensures forall c :: c in cs && c.team < |rs| ==> c.player in AddClaims(rs, cs)[c.team]
  {
    if cs != [] {
      var n := |cs| - 1;
      AddClaimsPlaces(rs, cs[..n]);
      var before := AddClaims(rs, cs[..n]);
      assert forall c :: c in cs ==> c in cs[..n] || c == cs[n];
      if cs[n].team < |before| {
        PlacedAfterAdd(before, AddClaims(rs, cs), cs[n].team, cs[n].player);
        ExtendsTransitive(rs, before, AddClaims(rs, cs));
      }
    }
  }

  /** Adding in-range claims adds exactly their players to everything placed. */
  lemma {:induction false} AddClaimsPlaced(rs: seq<seq<Player>>, cs: seq<Claim>)
    requires forall c :: c in cs ==> c.team < |rs|
    ensures multiset(Flatten(AddClaims(rs, cs))) == multiset(Flatten(rs)) + multiset(ClaimedPlayers(cs))
  {
    if cs != [] {
      var n := |cs| - 1;
      assert forall c :: c in cs[..n] ==> c in cs;
      AddClaimsPlaced(rs, cs[..n]);
      PlacedAfterAdd(AddClaims(rs, cs[..n]), AddClaims(rs, cs), cs[n].team, cs[n].player);
    }
  }
}
