/**
 * Sibling derivation: players are grouped by their (parent name, street
 * address) key, and each player's siblings are the other ids of its group,
 * in player order. Two absent fields form a key like any other, so players
 * with neither field share one.
 */
module Siblings {
  import opened Wrappers
  import opened Entities

  type FamilyKey = (Option<string>, Option<string>)

  function KeyOf(p: Player): FamilyKey {
    (p.parentName, p.streetAddress)
  }

  /** The ids of the players with a given key, in player order. */
  function IdsWithKey(ps: seq<Player>, k: FamilyKey): seq<string> {
    if ps == [] then []
    else
      var last := ps[|ps| - 1];
      IdsWithKey(ps[..|ps| - 1], k) + (if KeyOf(last) == k then [last.id] else [])
  }

  lemma {:induction false} IdsWithKeyMembers(ps: seq<Player>, k: FamilyKey, id: string)
    ensures id in IdsWithKey(ps, k) <==> exists j :: 0 <= j < |ps| && ps[j].id == id && KeyOf(ps[j]) == k
  {
    if ps != [] {
      var front := ps[..|ps| - 1];
      IdsWithKeyMembers(front, k, id);
      if exists j :: 0 <= j < |ps| && ps[j].id == id && KeyOf(ps[j]) == k {
        var j :| 0 <= j < |ps| && ps[j].id == id && KeyOf(ps[j]) == k;
        if j < |ps| - 1 {
          assert front[j] == ps[j];
        }
      }
      if exists j :: 0 <= j < |front| && front[j].id == id && KeyOf(front[j]) == k {
        var j :| 0 <= j < |front| && front[j].id == id && KeyOf(front[j]) == k;
        assert ps[j] == front[j];
      }
    }
  }

  /** `[pid for pid in ids if pid != id]`. */
  function Without(ids: seq<string>, id: string): (r: seq<string>)
    ensures forall x :: x in r <==> x in ids && x != id
  {
    if ids == [] then []
    else (if ids[0] != id then [ids[0]] else []) + Without(ids[1..], id)
  }

  /** The sibling list the derivation gives a player. */
  function SiblingIds(ps: seq<Player>, p: Player): seq<string> {
    Without(IdsWithKey(ps, KeyOf(p)), p.id)
  }

  /** The grouping loop: each key seen maps to the ids of its players, in player order. */
  method FamilyGroups(players: seq<Player>) returns (groups: map<FamilyKey, seq<string>>)
    ensures forall p :: p in players ==> KeyOf(p) in groups
    ensures forall k :: k in groups ==> groups[k] == IdsWithKey(players, k)
  {
    groups := map[];
    for i := 0 to |players|
      invariant forall j :: 0 <= j < i ==> KeyOf(players[j]) in groups
      invariant forall k :: k in groups ==> groups[k] == IdsWithKey(players[..i], k)
    {
      var p := players[i];
      var key := KeyOf(p);
      assert players[..i + 1][..i] == players[..i];
      if key !in groups {
        NoIdsForUnseenKey(players[..i], key);
        groups := groups[key := []];
      }
      groups := groups[key := groups[key] + [p.id]];
    }
    assert players[..|players|] == players;
  }

  lemma NoIdsForUnseenKey(ps: seq<Player>, k: FamilyKey)
    requires forall j :: 0 <= j < |ps| ==> KeyOf(ps[j]) != k
    ensures IdsWithKey(ps, k) == []
  {
    if IdsWithKey(ps, k) != [] {
      var x := IdsWithKey(ps, k)[0];
      assert x in IdsWithKey(ps, k);
      IdsWithKeyMembers(ps, k, x);
    }
  }

  /** The sibling derivation of the player loader: group the ids, then write each player's list. */
  method DeriveSiblings(players: seq<Player>) returns (result: seq<Player>)
    ensures |result| == |players|
    ensures forall i :: 0 <= i < |players| ==>
      result[i] == players[i].(siblings := SiblingIds(players, players[i]))
    ensures DistinctIds(players) ==> forall i, j :: 0 <= i < |players| && 0 <= j < |players| ==>
      (players[j].id in result[i].siblings <==> i != j && KeyOf(players[i]) == KeyOf(players[j]))
  {
    var groups := FamilyGroups(players);
    result := [];
    for i := 0 to |players|
      invariant |result| == i
      invariant forall m :: 0 <= m < i ==> result[m] == players[m].(siblings := SiblingIds(players, players[m]))
    {
      var p := players[i];
      var key := KeyOf(p);
      result := result + [p.(siblings := Without(groups[key], p.id))];
    }
    forall i, j | 0 <= i < |players| && 0 <= j < |players| && DistinctIds(players)
      ensures players[j].id in result[i].siblings <==> i != j && KeyOf(players[i]) == KeyOf(players[j])
    {
      SiblingIdsExactly(players, i, j);
    }
  }

  /** With distinct ids, a player lists another exactly when their full keys are equal. */
  lemma SiblingIdsExactly(ps: seq<Player>, i: nat, j: nat)
    requires DistinctIds(ps) && i < |ps| && j < |ps|
    ensures ps[j].id in SiblingIds(ps, ps[i]) <==> i != j && KeyOf(ps[i]) == KeyOf(ps[j])
  {
    IdsWithKeyMembers(ps, KeyOf(ps[i]), ps[j].id);
  }

  /** The sibling relation is symmetric. */
  lemma SiblingSymmetric(ps: seq<Player>, i: nat, j: nat)
    requires DistinctIds(ps) && i < |ps| && j < |ps|
    ensures ps[j].id in SiblingIds(ps, ps[i]) <==> ps[i].id in SiblingIds(ps, ps[j])
  {
    SiblingIdsExactly(ps, i, j);
    SiblingIdsExactly(ps, j, i);
  }

  /** No player is its own sibling. */
  lemma SiblingIrreflexive(ps: seq<Player>, p: Player)
    ensures p.id !in SiblingIds(ps, p)
  {
  }
}
