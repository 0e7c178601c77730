/**
 * The value entities of the team builder: players and coaches, the ordered
 * uniform-size enumeration, and the small queries the engine makes of them.
 *
 * The player dictionary of the source (player id to player, in insertion
 * order) is represented by the sequence of its values, whose ids are then
 * pairwise distinct (`DistinctIds`), because the dictionary is keyed by them.
 */
module Entities {
  import opened Wrappers

  /** The twelve uniform sizes, smallest to largest; a size's ordinal is its index. */
  const UniformSizes: seq<string> := [
    "Youth XXS", "Youth XS", "Youth S", "Youth M", "Youth L", "Youth XL",
    "Adult XS", "Adult S", "Adult M", "Adult L", "Adult XL", "Adult XXL"
  ]

  /**
   * A player. `evaluationScore` is the outcome of the numeric coercion of the
   * raw rating (None when the coercion fails); `age` is already derived from
   * the date of birth.
   */
  datatype Player = Player(
    id: string,
    name: string,
    age: Option<real>,
    experience: Option<int>,
    uniformSize: string,
    evaluationScore: Option<real>,
    sponsor: Option<string>,
    parentName: Option<string>,
    streetAddress: Option<string>,
    skillScore: Option<real>,
    siblings: seq<string>)

  /** A head or assistant coach; `role` and `volunteerTypeId` are only passed through. */
  datatype Coach = Coach(
    id: string,
    fullName: string,
    role: string,
    volunteerTypeId: string,
    associatedPlayerId: Option<string>,
    pairId: Option<string>)

  /** Python truthiness of an optional string: present and not empty. */
  predicate Truthy(s: Option<string>) {
    s.Some? && s.value != ""
  }

  /** `xs.index(x)`, or None where Python raises ValueError. */
  function IndexOf(xs: seq<string>, x: string): (r: Option<nat>)
    ensures r.Some? ==> r.value < |xs| && xs[r.value] == x
    ensures r.Some? ==> forall j :: 0 <= j < r.value ==> xs[j] != x
    ensures r.None? <==> x !in xs
  {
    if xs == [] then None
    else if xs[0] == x then Some(0)
    else match IndexOf(xs[1..], x)
      case Some(i) => Some(i + 1)
      case None => None
  }

  /** The dictionary invariant: no two players share an id. */
  predicate DistinctIds(ps: seq<Player>) {
    forall i, j :: 0 <= i < j < |ps| ==> ps[i].id != ps[j].id
  }

  /** The ids of a sequence of players. */
  function Ids(ps: seq<Player>): (ids: set<string>)
    ensures forall p :: p in ps ==> p.id in ids
    ensures forall id :: id in ids ==> exists p :: p in ps && p.id == id
  {
    set p | p in ps :: p.id
  }

  /** `players.get(id)`: the player with that id, if any. */
  function Lookup(ps: seq<Player>, id: string): (r: Option<Player>)
    ensures r.Some? ==> r.value in ps && r.value.id == id
    ensures r.None? ==> forall p :: p in ps ==> p.id != id
  {
    if ps == [] then None
    else if ps[0].id == id then Some(ps[0])
    else Lookup(ps[1..], id)
  }

  /**
   * What adding a player contributes to a team total: its score, or
   * nothing when unscored. Also the skill pass's sort key
   * `getattr(p, 'skill_score', 0)`.
   */
  function ScoreOf(p: Player): real {
    if p.skillScore.Some? then p.skillScore.value else 0.0
  }

  /** The sum of the scores of a roster, accumulated in roster order. */
  function SumScores(ps: seq<Player>): real {
    if ps == [] then 0.0 else SumScores(ps[..|ps| - 1]) + ScoreOf(ps[|ps| - 1])
  }

  lemma SumScoresAppend(ps: seq<Player>, p: Player)
    ensures SumScores(ps + [p]) == SumScores(ps) + ScoreOf(p)
  {
    assert (ps + [p])[..|ps|] == ps;
  }

  /** With distinct ids, a player of the sequence is the one its id looks up. */
  lemma LookupFindsMember(ps: seq<Player>, p: Player)
    requires DistinctIds(ps) && p in ps
    ensures Lookup(ps, p.id) == Some(p)
  {
    var r := Lookup(ps, p.id);
    assert r.Some?;
    var i :| 0 <= i < |ps| && ps[i] == p;
    var j :| 0 <= j < |ps| && ps[j] == r.value;
    assert i == j;
  }
}
