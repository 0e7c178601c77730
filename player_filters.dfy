/**
 * Selections of players by id, as the assignment passes make them: the
 * players whose id is in a set (those a pass placed), and the list
 * comprehension `[p for p in players.values() if p.player_id not in
 * assigned]` that leaves the unassigned ones, in dictionary order.
 */
module PlayerFilters {
  import opened Entities

  /** The players whose id is in `ids`, in order. */
  function WithIds(ps: seq<Player>, ids: set<string>): seq<Player> {
    if ps == [] then []
    else
      var last := ps[|ps| - 1];
      WithIds(ps[..|ps| - 1], ids) + (if last.id in ids then [last] else [])
  }

  /** The players whose id is not in `ids`, in order. */
  function WithoutIds(ps: seq<Player>, ids: set<string>): seq<Player> {
    if ps == [] then []
    else
      var last := ps[|ps| - 1];
      WithoutIds(ps[..|ps| - 1], ids) + (if last.id in ids then [] else [last])
  }

  /** How often a player is selected: as often as it occurs when its id is in the set, else never. */
  lemma {:induction false} WithIdsCount(ps: seq<Player>, ids: set<string>, p: Player)
    ensures multiset(WithIds(ps, ids))[p] == if p.id in ids then multiset(ps)[p] else 0
    ensures multiset(WithoutIds(ps, ids))[p] == if p.id in ids then 0 else multiset(ps)[p]
  {
    if ps != [] {
      var n := |ps| - 1;
      assert ps == ps[..n] + [ps[n]];
      WithIdsCount(ps[..n], ids, p);
    }
  }

  /** Selecting by no ids selects nothing. */
  lemma {:induction false} WithNoIds(ps: seq<Player>)
    ensures WithIds(ps, {}) == []
  {
    if ps != [] {
      WithNoIds(ps[..|ps| - 1]);
    }
  }

  /** Every player is either selected or left. */
  lemma SplitByIds(ps: seq<Player>, ids: set<string>)
    ensures multiset(WithIds(ps, ids)) + multiset(WithoutIds(ps, ids)) == multiset(ps)
  {
    forall p
      ensures (multiset(WithIds(ps, ids)) + multiset(WithoutIds(ps, ids)))[p] == multiset(ps)[p]
    {
      WithIdsCount(ps, ids, p);
    }
  }

  /** Selecting by two disjoint id sets selects by their union. */
  lemma WithIdsUnion(ps: seq<Player>, a: set<string>, b: set<string>)
    requires a !! b
    ensures multiset(WithIds(ps, a + b)) == multiset(WithIds(ps, a)) + multiset(WithIds(ps, b))
  {
    forall p
      ensures multiset(WithIds(ps, a + b))[p] == (multiset(WithIds(ps, a)) + multiset(WithIds(ps, b)))[p]
    {
      WithIdsCount(ps, a + b, p);
      WithIdsCount(ps, a, p);
      WithIdsCount(ps, b, p);
    }
  }

  /** A selected player is a player with an id from the set. */
  lemma WithIdsMembers(ps: seq<Player>, ids: set<string>, p: Player)
    ensures p in WithIds(ps, ids) <==> p in ps && p.id in ids
  {
    WithIdsCount(ps, ids, p);
    assert p in WithIds(ps, ids) <==> p in multiset(WithIds(ps, ids));
    assert p in ps <==> p in multiset(ps);
  }

  /** No player occurs twice. */
  predicate NoRepeats(ps: seq<Player>) {
    forall i, j :: 0 <= i < j < |ps| ==> ps[i] != ps[j]
  }

  lemma {:induction false} NoRepeatsCount(ps: seq<Player>, p: Player)
    requires NoRepeats(ps)
    ensures multiset(ps)[p] == if p in ps then 1 else 0
  {
    if ps != [] {
      var n := |ps| - 1;
      assert ps == ps[..n] + [ps[n]];
      assert NoRepeats(ps[..n]);
      NoRepeatsCount(ps[..n], p);
      if ps[n] == p {
        assert p !in ps[..n] by {
          forall i | 0 <= i < n
            ensures ps[..n][i] != p
          {
            assert ps[i] != ps[n];
          }
        }
      }
    }
  }

  /** With distinct ids, a player list has no repeats. */
  lemma DistinctIdsNoRepeats(ps: seq<Player>)
    requires DistinctIds(ps)
    ensures NoRepeats(ps)
  {
  }
}
