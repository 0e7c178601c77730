/**
 * `seed_teams_with_coaches`: one team per head coach. A first pass pairs
 * each head with an assistant that names it back (reciprocal `pair_id`);
 * the heads left over then take assistants from the shuffled remainder,
 * preferring one whose associated-player coverage complements their own,
 * and form solo teams once the assistants run out.
 *
 * The pure functions below are the reference the seeding method is proved
 * against: `FirstPass`, `Fallback` and `SeedShells` give the (head,
 * assistant) pair of every team in creation order for a given shuffle.
 */
module Seeding {
  import opened Wrappers
  import opened Entities
  import opened Teams

  // ---------------------------------------------------------------- names

  /** The characters Python's `str.split()` with no argument splits on. */
  predicate IsSpace(c: char) {
    || c == ' '
    || '\t' <= c <= '\r'
    || '\U{1c}' <= c <= '\U{1f}'
    || c == '\U{85}' || c == '\U{a0}' || c == '\U{1680}'
    || '\U{2000}' <= c <= '\U{200a}'
    || c == '\U{2028}' || c == '\U{2029}' || c == '\U{202f}' || c == '\U{205f}' || c == '\U{3000}'
  }

  /** `s.split()` is not empty, so `s.split()[-1]` does not raise. */
  predicate HasWord(s: string) {
    exists i :: 0 <= i < |s| && !IsSpace(s[i])
  }

  /** The length of `s[..k]` without its trailing spaces (`rstrip`). */
  function TrimmedLength(s: string, k: nat): (e: nat)
    requires k <= |s|
    ensures e <= k && (e == 0 || !IsSpace(s[e - 1]))
    ensures forall m :: e <= m < k ==> IsSpace(s[m])
  {
    if k == 0 || !IsSpace(s[k - 1]) then k else TrimmedLength(s, k - 1)
  }

  /** Where the run of non-space characters that ends at `k` starts. */
  function RunStart(s: string, k: nat): (i: nat)
    requires k <= |s|
    ensures i <= k && (i == 0 || IsSpace(s[i - 1]))
    ensures forall m :: i <= m < k ==> !IsSpace(s[m])
  {
    if k == 0 || IsSpace(s[k - 1]) then k else RunStart(s, k - 1)
  }

  /** `TrimmedLength` is the only cut that leaves a non-space (or nothing) before trailing spaces. */
  lemma {:induction false} TrimmedLengthUnique(s: string, k: nat, e: nat)
    requires e <= k <= |s| && (e == 0 || !IsSpace(s[e - 1]))
    requires forall m :: e <= m < k ==> IsSpace(s[m])
    ensures TrimmedLength(s, k) == e
  {
    if k > e {
      TrimmedLengthUnique(s, k - 1, e);
    }
  }

  /** `RunStart` is the only start of a space-free run to `k` that follows a space or the start. */
  lemma {:induction false} RunStartUnique(s: string, k: nat, i: nat)
    requires i <= k <= |s| && (i == 0 || IsSpace(s[i - 1]))
    requires forall m :: i <= m < k ==> !IsSpace(s[m])
    ensures RunStart(s, k) == i
  {
    if k > i {
      RunStartUnique(s, k - 1, i);
    }
  }

  /** `s.split()[-1]`: the last word of `s`, a non-empty run without spaces. */
  function LastWord(s: string): (w: string)
    requires HasWord(s)
    ensures w != [] && forall c :: c in w ==> !IsSpace(c)
  {
    var e := TrimmedLength(s, |s|);
    assert e > 0 by {
      var k :| 0 <= k < |s| && !IsSpace(s[k]);
      assert !(e <= k < |s|);
    }
    s[RunStart(s, e)..e]
  }

  /**
   * Whenever `s` is some prefix that is empty or ends in a space, then a
   * non-empty run `s[i..e]` without spaces, then only spaces, that run is
   * the last word.
   */
  lemma LastWordSpec(s: string, i: nat, e: nat)
    requires i < e <= |s| && (i == 0 || IsSpace(s[i - 1]))
    requires forall m :: i <= m < e ==> !IsSpace(s[m])
    requires forall m :: e <= m < |s| ==> IsSpace(s[m])
    ensures HasWord(s) && LastWord(s) == s[i..e]
  {
    assert !IsSpace(s[e - 1]);
    TrimmedLengthUnique(s, |s|, e);
    RunStartUnique(s, e, i);
  }

  /** The surname a coach contributes to a team name. */
  function Surname(c: Coach): string
    requires HasWord(c.fullName)
  {
    LastWord(c.fullName)
  }

  // ---------------------------------------------------------------- shells

  /** The coaching part of a team: what seeding decides. */
  datatype Shell = Shell(head: Coach, assistant: Option<Coach>)

  /** Every coach of a shell has a name with a word in it. */
  predicate Nameable(s: Shell) {
    HasWord(s.head.fullName) && (s.assistant.Some? ==> HasWord(s.assistant.value.fullName))
  }

  /** `f"{head.coach_id}_{assistant.coach_id if assistant else 'solo'}"`. */
  function TeamId(s: Shell): string {
    s.head.id + "_" + (if s.assistant.Some? then s.assistant.value.id else "solo")
  }

  /** `Surname/Surname` for a paired team, `Surname` for a solo one. */
  function TeamName(s: Shell): string
    requires Nameable(s)
  {
    if s.assistant.Some? then Surname(s.head) + "/" + Surname(s.assistant.value) else Surname(s.head)
  }

  /** The shell of a team; its coaches are constant fields. */
  function ShellOf(t: Team): Shell {
    Shell(t.head, t.assistant)
  }

  /** The shells of the teams, in order. */
  function Shells(teams: seq<Team>): seq<Shell> {
    seq(|teams|, i requires 0 <= i < |teams| => ShellOf(teams[i]))
  }

  function HeadsOf(ss: seq<Shell>): (hs: seq<Coach>)
    ensures |hs| == |ss| && forall i :: 0 <= i < |ss| ==> hs[i] == ss[i].head
  {
    if ss == [] then [] else HeadsOf(ss[..|ss| - 1]) + [ss[|ss| - 1].head]
  }

  /** The assistants of the shells that have one, in shell order. */
  function AssistantsOf(ss: seq<Shell>): (cs: seq<Coach>)
    ensures forall a :: a in cs <==> exists s :: s in ss && s.assistant == Some(a)
  {
    if ss == [] then []
    else
      var last := ss[|ss| - 1];
      AssistantsOf(ss[..|ss| - 1]) + (if last.assistant.Some? then [last.assistant.value] else [])
  }

  lemma AssistantsOfAppend(xs: seq<Shell>, ys: seq<Shell>)
    ensures AssistantsOf(xs + ys) == AssistantsOf(xs) + AssistantsOf(ys)
  {
    if ys != [] {
      var n := |ys| - 1;
      assert (xs + ys)[..|xs + ys| - 1] == xs + ys[..n];
      AssistantsOfAppend(xs, ys[..n]);
    } else {
      assert xs + ys == xs;
    }
  }

  /** The ids of the heads of the shells. */
  function HeadIds(ss: seq<Shell>): set<string> {
    if ss == [] then {} else HeadIds(ss[..|ss| - 1]) + {ss[|ss| - 1].head.id}
  }

  /** The ids of the assistants of the shells. */
  function AssistantIds(ss: seq<Shell>): set<string> {
    if ss == [] then {}
    else
      var last := ss[|ss| - 1];
      AssistantIds(ss[..|ss| - 1]) + (if last.assistant.Some? then {last.assistant.value.id} else {})
  }

  lemma {:induction false} HeadIdsMembers(ss: seq<Shell>, id: string)
    ensures id in HeadIds(ss) <==> exists s :: s in ss && s.head.id == id
  {
    if ss != [] {
      HeadIdsMembers(ss[..|ss| - 1], id);
      assert forall s :: s in ss <==> s in ss[..|ss| - 1] || s == ss[|ss| - 1];
    }
  }

  lemma {:induction false} AssistantIdsMembers(ss: seq<Shell>, id: string)
    ensures id in AssistantIds(ss) <==> exists s :: s in ss && s.assistant.Some? && s.assistant.value.id == id
  {
    if ss != [] {
      AssistantIdsMembers(ss[..|ss| - 1], id);
      assert forall s :: s in ss <==> s in ss[..|ss| - 1] || s == ss[|ss| - 1];
    }
  }

  /** `[c for c in cs if c.coach_id not in ids]`. */
  function ExcludingIds(cs: seq<Coach>, ids: set<string>): seq<Coach>
  {
    if cs == [] then []
    else
      var last := cs[|cs| - 1];
      ExcludingIds(cs[..|cs| - 1], ids) + (if last.id in ids then [] else [last])
  }

  /** The id filter keeps only listed coaches whose id is not excluded. */
  lemma {:induction false} ExcludedFromList(cs: seq<Coach>, ids: set<string>, c: Coach)
    requires c in ExcludingIds(cs, ids)
    ensures c in cs && c.id !in ids
  {
    var n := |cs| - 1;
    if c != cs[n] || cs[n].id in ids {
      ExcludedFromList(cs[..n], ids, c);
    }
  }

  /** No two coaches of the list share an id. */
  predicate DistinctCoachIds(cs: seq<Coach>) {
    forall i, j :: 0 <= i < j < |cs| ==> cs[i].id != cs[j].id
  }

  // ---------------------------------------------------------------- first pass

  /** The first-pass test: the head has a truthy pair id, the assistant has it and names the head back. */
  predicate Reciprocal(h: Coach, a: Coach) {
    Truthy(h.pairId) && a.id == h.pairId.value && a.pairId == Some(h.id)
  }

  /** The first assistant, in list order, that reciprocates the head. */
  function PartnerOf(h: Coach, assistants: seq<Coach>): (r: Option<Coach>)
    ensures r.Some? ==> r.value in assistants && Reciprocal(h, r.value)
    ensures r.None? <==> forall a :: a in assistants ==> !Reciprocal(h, a)
  {
    if assistants == [] then None
    else if Reciprocal(h, assistants[0]) then Some(assistants[0])
    else PartnerOf(h, assistants[1..])
  }

  /** The teams of the first pass: each head with a reciprocating assistant, in head order. */
  function FirstPass(heads: seq<Coach>, assistants: seq<Coach>): seq<Shell> {
    if heads == [] then []
    else
      var h := heads[|heads| - 1];
      var front := FirstPass(heads[..|heads| - 1], assistants);
      match PartnerOf(h, assistants)
      case Some(a) => front + [Shell(h, Some(a))]
      case None => front
  }

  /**
   * A first-pass team pairs a head with an assistant from the lists that
   * reciprocates it, and every head that has such an assistant gets a
   * first-pass team with the first one.
   */
  lemma {:induction false} FirstPassSound(heads: seq<Coach>, assistants: seq<Coach>)
    ensures forall s :: s in FirstPass(heads, assistants) ==>
      && s.head in heads
      && s.assistant.Some? && s.assistant.value in assistants
      && Reciprocal(s.head, s.assistant.value)
      && s.assistant == PartnerOf(s.head, assistants)
    ensures forall h :: h in heads && PartnerOf(h, assistants).Some? ==>
      Shell(h, PartnerOf(h, assistants)) in FirstPass(heads, assistants)
  {
    if heads != [] {
      FirstPassSound(heads[..|heads| - 1], assistants);
      assert forall x :: x in heads ==> x in heads[..|heads| - 1] || x == heads[|heads| - 1];
    }
  }

  /** The heads the first pass leaves: those whose id it did not use. */
  function UnpairedHeads(heads: seq<Coach>, assistants: seq<Coach>): seq<Coach> {
    ExcludingIds(heads, HeadIds(FirstPass(heads, assistants)))
  }

  /** The assistants the first pass leaves, in their original order, before the shuffle. */
  function AvailableAssistants(heads: seq<Coach>, assistants: seq<Coach>): seq<Coach> {
    ExcludingIds(assistants, AssistantIds(FirstPass(heads, assistants)))
  }

  // ---------------------------------------------------------------- fallback pass

  /** Python truthiness of the coach's associated player id. */
  predicate HasPlayer(c: Coach) {
    Truthy(c.associatedPlayerId)
  }

  /** The first index whose assistant's coverage is `wanted`. */
  function FirstWithCoverage(avail: seq<Coach>, wanted: bool): (r: Option<nat>)
    ensures r.Some? ==> r.value < |avail|
  {
    if avail == [] then None
    else if HasPlayer(avail[0]) == wanted then Some(0)
    else match FirstWithCoverage(avail[1..], wanted)
      case Some(i) => Some(i + 1)
      case None => None
  }

  /** `FirstWithCoverage` finds the first assistant with the wanted coverage, and None exactly when there is none. */
  lemma {:induction false} FirstWithCoverageFinds(avail: seq<Coach>, wanted: bool)
    ensures var r := FirstWithCoverage(avail, wanted);
      && (r.Some? ==> HasPlayer(avail[r.value]) == wanted)
      && (r.Some? ==> forall j :: 0 <= j < r.value ==> HasPlayer(avail[j]) != wanted)
      && (r.None? <==> forall j :: 0 <= j < |avail| ==> HasPlayer(avail[j]) != wanted)
  {
    if avail != [] && HasPlayer(avail[0]) != wanted {
      FirstWithCoverageFinds(avail[1..], wanted);
      assert forall j :: 1 <= j < |avail| ==> avail[j] == avail[1..][j - 1];
    }
  }

  /**
   * The index the fallback pass pops for head `h`: the first assistant whose
   * coverage complements the head's, else the first one; None when none is left.
   */
  function PickIndex(h: Coach, avail: seq<Coach>): (r: Option<nat>)
    ensures r.None? <==> avail == []
    ensures r.Some? ==> r.value < |avail|
  {
    if avail == [] then None
    else
      var preferred := FirstWithCoverage(avail, !HasPlayer(h));
      if preferred.Some? then preferred else Some(0)
  }

  /**
   * The fallback preferences: a head without an associated player gets the
   * first assistant that has one, if there is any; a head with one gets the
   * first assistant without one, if there is any; otherwise the head gets
   * the first assistant.
   */
  lemma PickRules(h: Coach, avail: seq<Coach>)
    requires avail != []
    ensures var i := PickIndex(h, avail).value;
      && (!HasPlayer(h) && (exists j :: 0 <= j < |avail| && HasPlayer(avail[j])) ==>
            HasPlayer(avail[i]) && forall j :: 0 <= j < i ==> !HasPlayer(avail[j]))
      && (HasPlayer(h) && (exists j :: 0 <= j < |avail| && !HasPlayer(avail[j])) ==>
            !HasPlayer(avail[i]) && forall j :: 0 <= j < i ==> HasPlayer(avail[j]))
      && ((forall j :: 0 <= j < |avail| ==> HasPlayer(avail[j]) == HasPlayer(h)) ==> i == 0)
  {
    FirstWithCoverageFinds(avail, !HasPlayer(h));
  }

  /** `list.pop(i)`: the list without its element at `i`. */
  function RemoveAt(s: seq<Coach>, i: nat): (r: seq<Coach>)
    requires i < |s|
    ensures |r| == |s| - 1
    ensures forall c :: c in r ==> c in s
  {
    s[..i] + s[i + 1..]
  }

  /** The popped element and what is left make up the list. */
  lemma RemoveAtMultiset(s: seq<Coach>, i: nat)
    requires i < |s|
    ensures multiset(RemoveAt(s, i)) + multiset{s[i]} == multiset(s)
  {
    assert s == s[..i] + [s[i]] + s[i + 1..];
  }

  /** One head of the fallback pass: the shell of its team and the pool left after it. */
  function FallbackStep(h: Coach, pool: seq<Coach>): (Shell, seq<Coach>) {
    match PickIndex(h, pool)
    case None => (Shell(h, None), pool)
    case Some(i) => (Shell(h, Some(pool[i])), RemoveAt(pool, i))
  }

  /** The fallback pass over the heads `unpaired` from the pool `avail`: the shells made and the pool left. */
  function FallbackRun(unpaired: seq<Coach>, avail: seq<Coach>): (r: (seq<Shell>, seq<Coach>))
    ensures |r.0| == |unpaired|
  {
    if unpaired == [] then ([], avail)
    else
      var before := FallbackRun(unpaired[..|unpaired| - 1], avail);
      var step := FallbackStep(unpaired[|unpaired| - 1], before.1);
      (before.0 + [step.0], step.1)
  }

  /** One more unpaired head adds its shell and leaves the pool its step leaves. */
  lemma FallbackRunSnoc(unpaired: seq<Coach>, ui: nat, avail: seq<Coach>)
    requires ui < |unpaired|
    ensures var before := FallbackRun(unpaired[..ui], avail);
      var step := FallbackStep(unpaired[ui], before.1);
      FallbackRun(unpaired[..ui + 1], avail) == (before.0 + [step.0], step.1)
  {
    assert unpaired[..ui + 1][..ui] == unpaired[..ui] && unpaired[..ui + 1][ui] == unpaired[ui];
  }

  /** The fallback teams: each unpaired head in turn takes the assistant `PickIndex` names, which leaves the pool. */
  function Fallback(unpaired: seq<Coach>, avail: seq<Coach>): seq<Shell> {
    FallbackRun(unpaired, avail).0
  }

  /** Every team seeding creates, in creation order, when the leftover assistants were shuffled into `shuffled`. */
  function SeedShells(heads: seq<Coach>, assistants: seq<Coach>, shuffled: seq<Coach>): seq<Shell> {
    FirstPass(heads, assistants) + Fallback(UnpairedHeads(heads, assistants), shuffled)
  }

  // ---------------------------------------------------------------- the seeding method

  /** The first-pass search of the assistant list for a head (a `for` loop with `break`). */
  method FindPartner(head: Coach, assistants: seq<Coach>) returns (r: Option<nat>)
    ensures r.Some? ==> r.value < |assistants| && PartnerOf(head, assistants) == Some(assistants[r.value])
    ensures r.None? ==> PartnerOf(head, assistants) == None
  {
    r := None;
    if !Truthy(head.pairId) {
      return;
    }
    for i := 0 to |assistants|
      invariant PartnerOf(head, assistants[i..]) == PartnerOf(head, assistants)
    {
      var a := assistants[i];
      if a.id == head.pairId.value && a.pairId == Some(head.id) {
        r := Some(i);
        break;
      }
      assert assistants[i..][1..] == assistants[i + 1..];
    }
  }

  /** An `enumerate` search of the available assistants for the first one whose coverage is `wanted`. */
  method FindCoverage(avail: seq<Coach>, wanted: bool) returns (r: Option<nat>)
    ensures r == FirstWithCoverage(avail, wanted)
  {
    r := None;
    for i := 0 to |avail|
      invariant forall j :: 0 <= j < i ==> HasPlayer(avail[j]) != wanted
    {
      if HasPlayer(avail[i]) == wanted {
        r := Some(i);
        break;
      }
    }
    FirstWithCoverageFinds(avail, wanted);
  }

  /** A team as seeding creates it: empty, with coaches from the lists, its id and name made from them. */
  ghost predicate Seeded(t: Team, heads: seq<Coach>, assistants: seq<Coach>)
    reads t
  {
    && t.players == [] && t.sponsor == None && t.total == 0.0
    && t.head in heads && (t.assistant.Some? ==> t.assistant.value in assistants)
    && Nameable(ShellOf(t)) && t.teamId == TeamId(ShellOf(t)) && t.name == TeamName(ShellOf(t))
  }

  /** What seeding promises about every team it has created so far. */
  ghost predicate WellSeeded(teams: seq<Team>, heads: seq<Coach>, assistants: seq<Coach>)
    reads teams
  {
    DistinctTeams(teams) && forall i :: 0 <= i < |teams| ==> Seeded(teams[i], heads, assistants)
  }

  /** Creates the team of a shell and appends it. */
  method AppendTeam(teams: seq<Team>, s: Shell, ghost heads: seq<Coach>, ghost assistants: seq<Coach>)
    returns (teams': seq<Team>)
    requires WellSeeded(teams, heads, assistants) && Nameable(s)
    requires s.head in heads && (s.assistant.Some? ==> s.assistant.value in assistants)
    ensures |teams'| == |teams| + 1 && teams' == teams + [teams'[|teams|]] && fresh(teams'[|teams|])
    ensures Shells(teams') == Shells(teams) + [s]
    ensures WellSeeded(teams', heads, assistants)
  {
    var t := new Team(TeamId(s), TeamName(s), s.head, s.assistant);
    assert Seeded(t, heads, assistants);
    teams' := teams + [t];
  }

  /** The first pass of `seed_teams_with_coaches`, with the id sets it records. */
  method ReciprocalPass(heads: seq<Coach>, assistants: seq<Coach>)
    returns (teams: seq<Team>, usedHeads: set<string>, usedAssistants: set<string>)
    requires forall h :: h in heads && PartnerOf(h, assistants).Some? ==> Nameable(Shell(h, PartnerOf(h, assistants)))
    ensures Shells(teams) == FirstPass(heads, assistants)
    ensures usedHeads == HeadIds(Shells(teams)) && usedAssistants == AssistantIds(Shells(teams))
    ensures WellSeeded(teams, heads, assistants)
  {
    teams := [];
    usedAssistants := {};
    usedHeads := {};
    for hi := 0 to |heads|
      invariant Shells(teams) == FirstPass(heads[..hi], assistants)
      invariant usedHeads == HeadIds(Shells(teams)) && usedAssistants == AssistantIds(Shells(teams))
      invariant WellSeeded(teams, heads, assistants)
    {
      var head := heads[hi];
      assert heads[..hi + 1][..hi] == heads[..hi] && heads[..hi + 1][hi] == head;
      var found := FindPartner(head, assistants);
      if found.Some? {
        var assistant := assistants[found.value];
        assert Nameable(Shell(head, Some(assistant))) by {
          assert head in heads && PartnerOf(head, assistants) == Some(assistant);
        }
        ghost var before := Shells(teams);
        teams := AppendTeam(teams, Shell(head, Some(assistant)), heads, assistants);
        assert Shells(teams)[..|before|] == before;
        usedHeads := usedHeads + {head.id};
        usedAssistants := usedAssistants + {assistant.id};
      }
    }
    assert heads[..|heads|] == heads;
  }

  /** The choice of the second pass for one head: the index `pop` is called with, if any. */
  method PickAssistant(head: Coach, avail: seq<Coach>) returns (pick: Option<nat>)
    ensures pick == PickIndex(head, avail)
  {
    pick := None;
    if |avail| > 0 {
      if !HasPlayer(head) {
        pick := FindCoverage(avail, true);
      }
      if pick.None? && HasPlayer(head) {
        pick := FindCoverage(avail, false);
      }
      if pick.None? {
        pick := Some(0);
      }
    }
  }

  /** One iteration of the second pass: the head's shell, and the pool after the `pop`. */
  method FallbackHead(head: Coach, pool: seq<Coach>) returns (s: Shell, rest: seq<Coach>)
    ensures (s, rest) == FallbackStep(head, pool)
    ensures s.head == head && (s.assistant.Some? ==> s.assistant.value in pool)
    ensures forall c :: c in rest ==> c in pool
  {
    var pick := PickAssistant(head, pool);
    var assistant: Option<Coach> := None;
    rest := pool;
    if pick.Some? {
      assistant := Some(pool[pick.value]);
      rest := RemoveAt(pool, pick.value);
    }
    s := Shell(head, assistant);
  }

  /** Every coach of the pool is an assistant of the input. */
  predicate Usable(pool: seq<Coach>, assistants: seq<Coach>) {
    forall c :: c in pool ==> c in assistants
  }

  /** One head of the second pass: its team is created and appended, its assistant leaves the pool. */
  method FallbackTeam(teams: seq<Team>, head: Coach, pool: seq<Coach>,
                      ghost heads: seq<Coach>, ghost assistants: seq<Coach>)
    returns (teams': seq<Team>, rest: seq<Coach>)
    requires WellSeeded(teams, heads, assistants) && Usable(pool, assistants)
    requires head in heads && Nameable(FallbackStep(head, pool).0)
    ensures Shells(teams') == Shells(teams) + [FallbackStep(head, pool).0]
    ensures rest == FallbackStep(head, pool).1
    ensures WellSeeded(teams', heads, assistants) && Usable(rest, assistants)
  {
    var s;
    s, rest := FallbackHead(head, pool);
    teams' := AppendTeam(teams, s, heads, assistants);
  }

  /** The shells of the first `i` unpaired heads begin the shells of all of them. */
  lemma {:induction false} FallbackRunPrefix(unpaired: seq<Coach>, i: nat, avail: seq<Coach>)
    requires i <= |unpaired|
    ensures FallbackRun(unpaired[..i], avail).0 <= FallbackRun(unpaired, avail).0
    decreases |unpaired| - i
  {
    if i < |unpaired| {
      FallbackRunSnoc(unpaired, i, avail);
      FallbackRunPrefix(unpaired, i + 1, avail);
    } else {
      assert unpaired[..i] == unpaired;
    }
  }

  /** The second pass: each unpaired head in turn pops its assistant from the pool. */
  method FallbackPass(teams: seq<Team>, unpaired: seq<Coach>, avail: seq<Coach>,
                      ghost heads: seq<Coach>, ghost assistants: seq<Coach>)
    returns (teams': seq<Team>)
    requires WellSeeded(teams, heads, assistants) && Usable(avail, assistants)
    requires forall c :: c in unpaired ==> c in heads
    requires forall s :: s in Fallback(unpaired, avail) ==> Nameable(s)
    ensures Shells(teams') == Shells(teams) + Fallback(unpaired, avail)
    ensures WellSeeded(teams', heads, assistants)
  {
    teams' := teams;
    var pool := avail;
    assert unpaired[..0] == [] && Shells(teams) + [] == Shells(teams);
    for ui := 0 to |unpaired|
      invariant Shells(teams') == Shells(teams) + FallbackRun(unpaired[..ui], avail).0
      invariant pool == FallbackRun(unpaired[..ui], avail).1
      invariant WellSeeded(teams', heads, assistants) && Usable(pool, assistants)
    {
      var head := unpaired[ui];
      FallbackRunSnoc(unpaired, ui, avail);
      FallbackRunPrefix(unpaired, ui + 1, avail);
      assert FallbackStep(head, pool).0 == Fallback(unpaired, avail)[ui];
      ghost var made := Shells(teams');
      teams', pool := FallbackTeam(teams', head, pool, heads, assistants);
      assert Shells(teams') == made + [FallbackStep(head, FallbackRun(unpaired[..ui], avail).1).0];
    }
    assert unpaired[..|unpaired|] == unpaired;
  }

  /**
   * `seed_teams_with_coaches`. The outcome of `random.shuffle` on the
   * leftover assistants is the parameter `shuffled`, a permutation of them.
   * Every name the source splits for a surname must have a word: those of
   * the coaches of the teams it creates, and no others.
   */
  method SeedTeams(heads: seq<Coach>, assistants: seq<Coach>, shuffled: seq<Coach>) returns (teams: seq<Team>)
    requires multiset(shuffled) == multiset(AvailableAssistants(heads, assistants))
    requires forall s :: s in SeedShells(heads, assistants, shuffled) ==> Nameable(s)
    ensures DistinctTeams(teams)
    ensures forall t :: t in teams ==> t.players == [] && t.sponsor == None && t.total == 0.0
    ensures forall t :: t in teams ==> t.head in heads && (t.assistant.Some? ==> t.assistant.value in assistants)
    ensures forall t :: t in teams ==> Nameable(ShellOf(t)) && t.teamId == TeamId(ShellOf(t)) && t.name == TeamName(ShellOf(t))
    ensures Shells(teams) == SeedShells(heads, assistants, shuffled)
  {
    FirstPassSound(heads, assistants);
    var first, usedHeads, usedAssistants := ReciprocalPass(heads, assistants);
    var unpaired := ExcludingIds(heads, usedHeads);
    var available := ExcludingIds(assistants, usedAssistants);
    forall c | c in unpaired
      ensures c in heads
    {
      ExcludedFromList(heads, usedHeads, c);
    }
    forall c | c in available
      ensures c in assistants
    {
      ExcludedFromList(assistants, usedAssistants, c);
    }
    assert forall c :: c in shuffled ==> c in available by {
      forall c | c in shuffled
        ensures c in available
      {
        assert c in multiset(shuffled);
      }
    }
    teams := FallbackPass(first, unpaired, shuffled, heads, assistants);
    assert Shells(teams) == SeedShells(heads, assistants, shuffled);
  }
}
