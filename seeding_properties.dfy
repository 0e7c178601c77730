/**
 * What `seed_teams_with_coaches` guarantees about the teams it forms,
 * stated on the reference functions of `Seeding`: one team per head, no
 * assistant used twice, the first pass exactly for reciprocated heads, and
 * solo teams exactly once the shuffled assistants have run out.
 */
module SeedingProperties {
  import opened Wrappers
  import opened Entities
  import opened Seeding

  // ---------------------------------------------------------------- sequences of coaches

  /** Two coaches of a list with distinct ids that share an id are the same coach. */
  lemma SameIdSameCoach(cs: seq<Coach>, a: Coach, b: Coach)
    requires DistinctCoachIds(cs) && a in cs && b in cs && a.id == b.id
    ensures a == b
  {
    var i :| 0 <= i < |cs| && cs[i] == a;
    var j :| 0 <= j < |cs| && cs[j] == b;
    assert i == j;
  }

  /** No coach occurs twice in the list. */
  predicate NoRepeats(cs: seq<Coach>) {
    forall i, j :: 0 <= i < j < |cs| ==> cs[i] != cs[j]
  }

  lemma {:induction false} NoRepeatsCount(cs: seq<Coach>, c: Coach)
    requires NoRepeats(cs)
    ensures multiset(cs)[c] <= 1
  {
    if cs != [] {
      var n := |cs| - 1;
      assert cs == cs[..n] + [cs[n]];
      NoRepeatsCount(cs[..n], c);
      if cs[n] == c {
        assert c !in cs[..n] by {
          forall i | 0 <= i < n
            ensures cs[..n][i] != c
          {
            assert cs[i] != cs[n];
          }
        }
      }
    }
  }

  /** A coach at two positions of a list is counted at least twice. */
  lemma RepeatCount(cs: seq<Coach>, i: nat, j: nat)
    requires i < j < |cs| && cs[i] == cs[j]
    ensures multiset(cs)[cs[i]] >= 2
  {
    assert cs == cs[..j] + [cs[j]] + cs[j + 1..];
    assert cs[..j][i] == cs[i];
  }

  /** Coaches drawn, with multiplicity, from a list with distinct ids have distinct ids. */
  lemma DistinctIdsInherited(xs: seq<Coach>, cs: seq<Coach>)
    requires multiset(xs) <= multiset(cs) && DistinctCoachIds(cs)
    ensures DistinctCoachIds(xs)
  {
    forall i, j | 0 <= i < j < |xs|
      ensures xs[i].id != xs[j].id
    {
      if xs[i].id == xs[j].id {
        assert xs[i] in multiset(cs) && xs[j] in multiset(cs);
        SameIdSameCoach(cs, xs[i], xs[j]);
        RepeatCount(xs, i, j);
        assert NoRepeats(cs);
        NoRepeatsCount(cs, xs[i]);
        assert false;
      }
    }
  }

  /** How often `c` survives the id filter. */
  lemma {:induction false} ExcludingIdsCount(cs: seq<Coach>, ids: set<string>, c: Coach)
    ensures multiset(ExcludingIds(cs, ids))[c] == if c.id in ids then 0 else multiset(cs)[c]
  {
    if cs != [] {
      var n := |cs| - 1;
      assert cs == cs[..n] + [cs[n]];
      ExcludingIdsCount(cs[..n], ids, c);
    }
  }

  /** A coach survives the id filter exactly when it is listed and its id is not excluded. */
  lemma ExcludingIdsMembers(cs: seq<Coach>, ids: set<string>, c: Coach)
    ensures c in ExcludingIds(cs, ids) <==> c in cs && c.id !in ids
  {
    ExcludingIdsCount(cs, ids, c);
    assert c in ExcludingIds(cs, ids) <==> c in multiset(ExcludingIds(cs, ids));
    assert c in cs <==> c in multiset(cs);
  }

  lemma HeadsOfAppend(xs: seq<Shell>, ys: seq<Shell>)
    ensures HeadsOf(xs + ys) == HeadsOf(xs) + HeadsOf(ys)
  {
    assert HeadsOf(xs + ys) == HeadsOf(xs) + HeadsOf(ys) by {
      forall i | 0 <= i < |xs + ys|
        ensures HeadsOf(xs + ys)[i] == (HeadsOf(xs) + HeadsOf(ys))[i]
      {
        if i < |xs| {
        } else {
          assert (xs + ys)[i] == ys[i - |xs|];
        }
      }
    }
  }

  // ---------------------------------------------------------------- the first pass

  /** With distinct head ids, the first pass uses a head's id exactly when an assistant reciprocates it. */
  lemma PairedIff(heads: seq<Coach>, assistants: seq<Coach>, h: Coach)
    requires DistinctCoachIds(heads) && h in heads
    ensures h.id in HeadIds(FirstPass(heads, assistants)) <==> PartnerOf(h, assistants).Some?
  {
    var fp := FirstPass(heads, assistants);
    FirstPassSound(heads, assistants);
    HeadIdsMembers(fp, h.id);
    if h.id in HeadIds(fp) {
      var s :| s in fp && s.head.id == h.id;
      SameIdSameCoach(heads, s.head, h);
    }
  }

  /**
   * A head goes on to the fallback pass exactly when no assistant names it
   * back: the first pass pairs only reciprocated heads, and all of them.
   */
  lemma UnpairedIffUnreciprocated(heads: seq<Coach>, assistants: seq<Coach>, h: Coach)
    requires DistinctCoachIds(heads) && h in heads
    ensures h in UnpairedHeads(heads, assistants) <==> forall a :: a in assistants ==> !Reciprocal(h, a)
  {
    PairedIff(heads, assistants, h);
    ExcludingIdsMembers(heads, HeadIds(FirstPass(heads, assistants)), h);
  }

  /** The first-pass heads and the unpaired heads together are the heads. */
  lemma {:induction false} HeadsSplit(heads: seq<Coach>, assistants: seq<Coach>, ids: set<string>)
    requires forall h :: h in heads ==> (h.id in ids <==> PartnerOf(h, assistants).Some?)
    ensures multiset(HeadsOf(FirstPass(heads, assistants))) + multiset(ExcludingIds(heads, ids)) == multiset(heads)
  {
    if heads != [] {
      var n := |heads| - 1;
      var front := heads[..n];
      var h := heads[n];
      assert heads == front + [h];
      assert forall x :: x in front ==> x in heads;
      HeadsSplit(front, assistants, ids);
      HeadsSplitStep(front, h, assistants, ids);
    }
  }

  /** One more head goes either to the first pass or to the unpaired ones. */
  lemma HeadsSplitStep(front: seq<Coach>, h: Coach, assistants: seq<Coach>, ids: set<string>)
    requires h.id in ids <==> PartnerOf(h, assistants).Some?
    ensures var heads := front + [h];
      multiset(HeadsOf(FirstPass(heads, assistants))) + multiset(ExcludingIds(heads, ids))
      == multiset(HeadsOf(FirstPass(front, assistants))) + multiset(ExcludingIds(front, ids)) + multiset{h}
  {
    if PartnerOf(h, assistants).Some? {
      PairedStep(front, h, assistants, ids);
    } else {
      UnpairedStep(front, h, assistants, ids);
    }
  }

  /** A reciprocated head joins the first pass and not the unpaired ones. */
  lemma PairedStep(front: seq<Coach>, h: Coach, assistants: seq<Coach>, ids: set<string>)
    requires PartnerOf(h, assistants).Some? && h.id in ids
    ensures HeadsOf(FirstPass(front + [h], assistants)) == HeadsOf(FirstPass(front, assistants)) + [h]
    ensures ExcludingIds(front + [h], ids) == ExcludingIds(front, ids)
  {
    var heads := front + [h];
    assert heads[..|heads| - 1] == front && heads[|heads| - 1] == h;
    var fp := FirstPass(front, assistants);
    var s := Shell(h, PartnerOf(h, assistants));
    assert FirstPass(heads, assistants) == fp + [s];
    HeadsOfAppend(fp, [s]);
    assert ExcludingIds(heads, ids) == ExcludingIds(front, ids) + [];
  }

  /** An unreciprocated head joins the unpaired ones and not the first pass. */
  lemma UnpairedStep(front: seq<Coach>, h: Coach, assistants: seq<Coach>, ids: set<string>)
    requires PartnerOf(h, assistants).None? && h.id !in ids
    ensures FirstPass(front + [h], assistants) == FirstPass(front, assistants)
    ensures ExcludingIds(front + [h], ids) == ExcludingIds(front, ids) + [h]
  {
    var heads := front + [h];
    assert heads[..|heads| - 1] == front && heads[|heads| - 1] == h;
  }

  /** The assistants of the first pass are all different coaches. */
  lemma {:induction false} FirstPassNoRepeats(heads: seq<Coach>, assistants: seq<Coach>)
    requires DistinctCoachIds(heads)
    ensures NoRepeats(AssistantsOf(FirstPass(heads, assistants)))
  {
    if heads != [] {
      var n := |heads| - 1;
      var front, h := heads[..n], heads[n];
      assert DistinctCoachIds(front) by {
        forall i, j | 0 <= i < j < |front|
          ensures front[i].id != front[j].id
        {
          assert front[i] == heads[i] && front[j] == heads[j];
        }
      }
      forall x | x in front
        ensures x.id != h.id
      {
        var i :| 0 <= i < n && front[i] == x;
        assert heads[i] == x;
      }
      FirstPassNoRepeats(front, assistants);
      var fp := FirstPass(front, assistants);
      assert heads[..n] == front;
      match PartnerOf(h, assistants)
      case Some(a) =>
        assert FirstPass(heads, assistants) == fp + [Shell(h, Some(a))];
        AssistantsOfAppend(fp, [Shell(h, Some(a))]);
        assert AssistantsOf([Shell(h, Some(a))]) == [a];
        PartnerIsNew(front, h, assistants);
        NoRepeatsSnoc(AssistantsOf(fp), a);
      case None =>
        assert FirstPass(heads, assistants) == fp;
    }
  }

  /** A head whose id no earlier head has finds a partner no earlier head took. */
  lemma PartnerIsNew(front: seq<Coach>, h: Coach, assistants: seq<Coach>)
    requires forall x :: x in front ==> x.id != h.id
    requires PartnerOf(h, assistants).Some?
    ensures PartnerOf(h, assistants).value !in AssistantsOf(FirstPass(front, assistants))
  {
    var a := PartnerOf(h, assistants).value;
    if a in AssistantsOf(FirstPass(front, assistants)) {
      var s :| s in FirstPass(front, assistants) && s.assistant == Some(a);
      FirstPassSound(front, assistants);
      assert false;
    }
  }

  /** Appending a new coach keeps a list free of repeats. */
  lemma NoRepeatsSnoc(cs: seq<Coach>, c: Coach)
    requires NoRepeats(cs) && c !in cs
    ensures NoRepeats(cs + [c])
  {
    var r := cs + [c];
    forall i, j | 0 <= i < j < |r|
      ensures r[i] != r[j]
    {
      if j == |cs| {
        assert r[i] == cs[i];
      }
    }
  }

  /** The first pass takes each assistant at most once, and the leftover list excludes the ones it took. */
  lemma FirstPassTakesOnce(heads: seq<Coach>, assistants: seq<Coach>)
    requires DistinctCoachIds(heads)
    ensures multiset(AssistantsOf(FirstPass(heads, assistants))) + multiset(AvailableAssistants(heads, assistants))
      <= multiset(assistants)
  {
    var fp := FirstPass(heads, assistants);
    var xs := AssistantsOf(fp);
    var ids := AssistantIds(fp);
    FirstPassNoRepeats(heads, assistants);
    FirstPassSound(heads, assistants);
    forall c
      ensures multiset(xs)[c] + multiset(ExcludingIds(assistants, ids))[c] <= multiset(assistants)[c]
    {
      ExcludingIdsCount(assistants, ids, c);
      NoRepeatsCount(xs, c);
      if c in xs {
        var s :| s in fp && s.assistant == Some(c);
        AssistantIdsMembers(fp, c.id);
        assert c in multiset(assistants);
      }
    }
  }

  // ---------------------------------------------------------------- the fallback pass

  /** Every unpaired head gets one fallback team, in order. */
  lemma {:induction false} FallbackHeads(unpaired: seq<Coach>, avail: seq<Coach>)
    ensures HeadsOf(Fallback(unpaired, avail)) == unpaired
  {
    if unpaired != [] {
      var n := |unpaired| - 1;
      FallbackHeads(unpaired[..n], avail);
      var before := FallbackRun(unpaired[..n], avail);
      var step := FallbackStep(unpaired[n], before.1);
      assert Fallback(unpaired, avail) == before.0 + [step.0];
      HeadsOfAppend(before.0, [step.0]);
      assert step.0.head == unpaired[n];
      assert unpaired == unpaired[..n] + [unpaired[n]];
    }
  }

  /** The assistants the fallback pass uses and the ones it leaves are exactly the pool it started with. */
  lemma {:induction false} FallbackConserves(unpaired: seq<Coach>, avail: seq<Coach>)
    ensures var r := FallbackRun(unpaired, avail);
      multiset(AssistantsOf(r.0)) + multiset(r.1) == multiset(avail)
  {
    if unpaired != [] {
      var n := |unpaired| - 1;
      FallbackConserves(unpaired[..n], avail);
      var before := FallbackRun(unpaired[..n], avail);
      var h := unpaired[n];
      var step := FallbackStep(h, before.1);
      AssistantsOfAppend(before.0, [step.0]);
      match PickIndex(h, before.1)
      case None =>
        assert AssistantsOf([step.0]) == [];
      case Some(i) =>
        assert AssistantsOf([step.0]) == [before.1[i]];
        RemoveAtMultiset(before.1, i);
    }
  }

  /** How many assistants are left after the fallback pass. */
  lemma {:induction false} FallbackPoolSize(unpaired: seq<Coach>, avail: seq<Coach>)
    ensures |FallbackRun(unpaired, avail).1| == if |unpaired| <= |avail| then |avail| - |unpaired| else 0
  {
    if unpaired != [] {
      FallbackPoolSize(unpaired[..|unpaired| - 1], avail);
    }
  }

  /** The `i`-th fallback team is solo exactly when there were at most `i` assistants to shuffle. */
  lemma {:induction false} SoloExactlyWhenExhausted(unpaired: seq<Coach>, avail: seq<Coach>)
    ensures forall i :: 0 <= i < |unpaired| ==>
      (Fallback(unpaired, avail)[i].assistant.None? <==> i >= |avail|)
  {
    if unpaired != [] {
      var n := |unpaired| - 1;
      SoloExactlyWhenExhausted(unpaired[..n], avail);
      FallbackPoolSize(unpaired[..n], avail);
      var before := FallbackRun(unpaired[..n], avail);
      var step := FallbackStep(unpaired[n], before.1);
      assert Fallback(unpaired, avail) == before.0 + [step.0];
      assert step.0.assistant.None? <==> before.1 == [];
      forall i | 0 <= i < n
        ensures Fallback(unpaired, avail)[i] == Fallback(unpaired[..n], avail)[i]
      {
      }
    }
  }

  // ---------------------------------------------------------------- the whole seeding

  /** With distinct head ids, seeding forms exactly one team per head coach. */
  lemma OneTeamPerHead(heads: seq<Coach>, assistants: seq<Coach>, shuffled: seq<Coach>)
    requires DistinctCoachIds(heads)
    ensures multiset(HeadsOf(SeedShells(heads, assistants, shuffled))) == multiset(heads)
    ensures |SeedShells(heads, assistants, shuffled)| == |heads|
  {
    var fp := FirstPass(heads, assistants);
    var ids := HeadIds(fp);
    forall h | h in heads
      ensures h.id in ids <==> PartnerOf(h, assistants).Some?
    {
      PairedIff(heads, assistants, h);
    }
    HeadsSplit(heads, assistants, ids);
    FallbackHeads(UnpairedHeads(heads, assistants), shuffled);
    HeadsOfAppend(fp, Fallback(UnpairedHeads(heads, assistants), shuffled));
    assert |multiset(HeadsOf(SeedShells(heads, assistants, shuffled)))| == |heads|;
  }

  /**
   * With distinct head ids, no assistant is used more often than listed;
   * with distinct assistant ids as well, no assistant id is on two teams.
   */
  lemma AssistantsUsedOnce(heads: seq<Coach>, assistants: seq<Coach>, shuffled: seq<Coach>)
    requires DistinctCoachIds(heads)
    requires multiset(shuffled) == multiset(AvailableAssistants(heads, assistants))
    ensures multiset(AssistantsOf(SeedShells(heads, assistants, shuffled))) <= multiset(assistants)
    ensures DistinctCoachIds(assistants) ==> DistinctCoachIds(AssistantsOf(SeedShells(heads, assistants, shuffled)))
  {
    var fp := FirstPass(heads, assistants);
    var fb := Fallback(UnpairedHeads(heads, assistants), shuffled);
    FirstPassTakesOnce(heads, assistants);
    FallbackConserves(UnpairedHeads(heads, assistants), shuffled);
    AssistantsOfAppend(fp, fb);
    var used := multiset(AssistantsOf(fp + fb));
    assert used <= multiset(AssistantsOf(fp)) + multiset(shuffled);
    if DistinctCoachIds(assistants) {
      DistinctIdsInherited(AssistantsOf(fp + fb), assistants);
    }
  }

  // ---------------------------------------------------------------- two small scenarios

  // Two heads name the same assistant, who names only the second head.
  const NamingHead1 := Coach("1", "Alice Head1", "Head Coach", "H1", None, Some("3"))
  const NamingHead2 := Coach("2", "Eve Head2", "Head Coach", "H2", None, Some("3"))
  const NamedAssistant := Coach("3", "Bob Assistant", "Assistant Coach", "A1", None, Some("2"))

  /** The second head pairs in the first pass; the first one is left solo. */
  lemma UnreciprocatedHeadGoesSolo(shuffled: seq<Coach>)
    requires multiset(shuffled) == multiset(AvailableAssistants([NamingHead1, NamingHead2], [NamedAssistant]))
    ensures SeedShells([NamingHead1, NamingHead2], [NamedAssistant], shuffled)
      == [Shell(NamingHead2, Some(NamedAssistant)), Shell(NamingHead1, None)]
  {
    var h1, h2, a := NamingHead1, NamingHead2, NamedAssistant;
    assert [h1, h2][..1] == [h1] && [h1][..0] == [] && [a][..0] == [];
    assert PartnerOf(h1, [a]) == None && PartnerOf(h2, [a]) == Some(a);
    assert FirstPass([h1], [a]) == [];
    var fp := FirstPass([h1, h2], [a]);
    assert fp == [Shell(h2, Some(a))];
    assert HeadIds(fp) == {"2"} && AssistantIds(fp) == {"3"} by {
      assert fp[..0] == [];
    }
    assert ExcludingIds([a], {"3"}) == ExcludingIds([], {"3"}) + [];
    assert ExcludingIds([h1], {"2"}) == ExcludingIds([], {"2"}) + [h1];
    assert ExcludingIds([h1, h2], {"2"}) == ExcludingIds([h1], {"2"}) + [];
    assert shuffled == [];
    assert FallbackRun([h1][..0], []) == ([], []);
  }

  // Two heads and two assistants without pair ids; one of each has an associated player.
  const HeadWithout := Coach("1", "Alice Head", "Head Coach", "H1", None, None)
  const HeadWith := Coach("2", "Eve Head", "Head Coach", "H2", Some("P1"), None)
  const AssistantWith := Coach("3", "Bob Assistant", "Assistant Coach", "A1", Some("P2"), None)
  const AssistantWithout := Coach("4", "Carol Assistant", "Assistant Coach", "A2", None, None)

  /** A permutation of two different coaches is one of the two orders. */
  lemma TwoOrders(a: Coach, b: Coach, shuffled: seq<Coach>)
    requires a != b && multiset(shuffled) == multiset{a, b}
    ensures shuffled == [a, b] || shuffled == [b, a]
  {
    assert |shuffled| == 2 by {
      assert |multiset(shuffled)| == |multiset{a, b}|;
    }
    assert shuffled[0] in multiset(shuffled) && shuffled[1] in multiset(shuffled);
    if shuffled[0] == shuffled[1] {
      RepeatCount(shuffled, 0, 1);
      assert false;
    }
  }

  /** The fallback pass on the two heads, for either order of the two assistants. */
  lemma CoverageFallback(pool: seq<Coach>)
    requires pool == [AssistantWith, AssistantWithout] || pool == [AssistantWithout, AssistantWith]
    ensures Fallback([HeadWithout, HeadWith], pool)
      == [Shell(HeadWithout, Some(AssistantWith)), Shell(HeadWith, Some(AssistantWithout))]
  {
    var h1, h2 := HeadWithout, HeadWith;
    assert [h1, h2][..1] == [h1] && [h1][..0] == [];
    FirstWithCoverageFinds(pool, true);
    var i := if pool[0] == AssistantWith then 0 else 1;
    assert PickIndex(h1, pool) == Some(i);
    assert RemoveAt(pool, i) == [AssistantWithout];
    assert FallbackRun([h1][..0], pool) == ([], pool);
    assert FallbackStep(h1, pool) == (Shell(h1, Some(AssistantWith)), [AssistantWithout]);
    assert FallbackRun([h1], pool).1 == [AssistantWithout];
    assert FallbackRun([h1], pool).0 == [] + [Shell(h1, Some(AssistantWith))];
    FirstWithCoverageFinds([AssistantWithout], false);
    assert PickIndex(h2, [AssistantWithout]) == Some(0);
  }

  /**
   * The head without an associated player takes the assistant who has one
   * and the head with one the assistant who has none, however the two
   * were shuffled.
   */
  lemma ComplementaryCoverage(shuffled: seq<Coach>)
    requires multiset(shuffled)
      == multiset(AvailableAssistants([HeadWithout, HeadWith], [AssistantWith, AssistantWithout]))
    ensures SeedShells([HeadWithout, HeadWith], [AssistantWith, AssistantWithout], shuffled)
      == [Shell(HeadWithout, Some(AssistantWith)), Shell(HeadWith, Some(AssistantWithout))]
  {
    var heads, assistants := [HeadWithout, HeadWith], [AssistantWith, AssistantWithout];
    NobodyReciprocates();
    assert SeedShells(heads, assistants, shuffled) == [] + Fallback(heads, shuffled);
    TwoOrders(AssistantWith, AssistantWithout, shuffled);
    CoverageFallback(shuffled);
  }

  /** Without pair ids the first pass forms no team and leaves every coach for the fallback. */
  lemma NobodyReciprocates()
    ensures FirstPass([HeadWithout, HeadWith], [AssistantWith, AssistantWithout]) == []
    ensures UnpairedHeads([HeadWithout, HeadWith], [AssistantWith, AssistantWithout]) == [HeadWithout, HeadWith]
    ensures AvailableAssistants([HeadWithout, HeadWith], [AssistantWith, AssistantWithout])
      == [AssistantWith, AssistantWithout]
  {
    var h1, h2, a1, a2 := HeadWithout, HeadWith, AssistantWith, AssistantWithout;
    assert [h1, h2][..1] == [h1] && [h1][..0] == [];
    assert PartnerOf(h1, [a1, a2]) == None && PartnerOf(h2, [a1, a2]) == None;
    assert FirstPass([h1], [a1, a2]) == [];
    assert FirstPass([h1, h2], [a1, a2]) == [];
    assert HeadIds([]) == {} && AssistantIds([]) == {};
    ExcludingAll([a1, a2]);
    ExcludingAll([h1, h2]);
  }

  /** Excluding no ids keeps every coach. */
  lemma {:induction false} ExcludingAll(cs: seq<Coach>)
    ensures ExcludingIds(cs, {}) == cs
  {
    if cs != [] {
      var n := |cs| - 1;
      ExcludingAll(cs[..n]);
      assert ExcludingIds(cs, {}) == ExcludingIds(cs[..n], {}) + [cs[n]];
      assert cs == cs[..n] + [cs[n]];
    }
  }
}
