# AYSTeamBuilder team-composition engine, modelled in Dafny

This project models the engine of the AYSTeamBuilder youth-sports team
builder. The engine takes a division's players and coaches and forms teams
in five steps:

1. **Skill scores.** One pass over the players collects per-feature
   bounds: age, experience, uniform-size ordinal and evaluation score. A
   player's skill score is the weighted mean of the min/max-normalized
   features it has, rounded to four decimals.
2. **Siblings.** Players that share a `(parent_name, street_address)` key
   are siblings.
3. **Seeding.** One team is seeded per head coach. First, a head and an
   assistant who name each other are paired. Then each remaining head takes
   an assistant from the shuffled leftovers, preferring complementary
   associated-player coverage. A head is left solo once no assistants
   remain.
4. **Assignment.** Players are assigned in four passes over the mutable
   team records:
   - the coaches' associated players;
   - sibling groups, kept together on one team;
   - a random fill of every team up to `MIN_TEAM_SIZE` = 3;
   - the remaining players by descending skill, each to a team with the
     lowest `(total_score, len(players))`.
5. **Bookkeeping.** Each team keeps a running total equal to the sum of
   its members' scores.

Modules, one file each, in dependency order:

- `Wrappers` holds `Option`.
- `Entities` holds the player and coach records, the twelve uniform sizes,
  `players.get` and the score sums. The player dictionary is the sequence
  of its values, in insertion order; its ids are distinct because the
  dictionary is keyed by them.
- `Scoring` holds the normalization context and the skill score, over
  `real`. The package copy and the single-file copy run the same algorithm
  and differ only in their weights. The weights are therefore a parameter,
  with the two constant sets `SingleFileWeights` (0.2/0.2/0.10/0.5) and
  `PackageWeights` (0.25/0.35/0.15/0.25).
- `Siblings` holds the sibling derivation of the player loader.
- `Teams` holds the `Team` class (mutable `players`, `sponsor`, `total`),
  `add_player_to_team`, the `min` query of `find_best_team_for_player`,
  and the roster views the passes are specified by.
- `Seeding` holds the reference functions of both seeding passes, and
  `seed_teams_with_coaches` as loops proved against them. Its properties
  are in `SeedingProperties`.
- `CoachPass`, `SiblingPass`, `FillPass` and `SkillPass` hold the four
  assignment passes. `PlayerFilters` holds the id-based selections shared
  between them.
- `Assignment` states what the passes promise on the rosters as values,
  and proves that their promises compose.
- `Pipeline` holds `assign_players_to_teams` and its end-to-end promise.

The three random draws of the source become choices:

- **The shuffle of the leftover assistants.** `SeedTeams` takes the
  shuffled list as its parameter `shuffled`, and is proved for every
  permutation of the leftovers.
- **The `randint` index of the fill.** It is a `:|` choice of a valid
  index.
- **The `random.random()` tie-break of `find_best_team_for_player`.**
  `FindBestTeam` takes the draws as a parameter. `LowestReachable` shows
  that every team that is lowest in `(total_score, len(players))` is
  picked for some draws in [0, 1). The passes therefore choose among the
  lowest teams with `:|`.

Where the code and the repository's own description of it differ, the
model follows the code:

- **Sponsor exclusivity.** The docstring at teambuilder/team_builder.py:4
  says no team gets more than one sponsored player. The tests at
  tst/test_team_builder.py:123-137 expect `find_best_team_for_player` to
  avoid a team that already has a sponsor. The code at
  src/teambuilder_single.py:312-315 compares teams only by
  `(total_score, len(players))` and a random draw, so the model ignores
  sponsors when choosing a team.
- **Sponsor overwrite.** `add_player_to_team`
  (src/teambuilder_single.py:285-286) replaces the team's sponsor with the
  sponsor of every added player whose sponsor is truthy. A team's sponsor
  is therefore that of the last such player (`Teams.SponsorAfterLastTruthy`).
  Every pass states each team's sponsor and total after it through
  `Teams.Follows`.
- **Missing family fields.** The family key at
  src/teambuilder_single.py:125 is the pair of raw fields. Players whose
  parent name and street address are both missing share one key, so they
  are siblings.

## Model

| member | source | states |
|---|---|---|
| Entities.IndexOf | src/teambuilder_single.py:183-184 | `UNIFORM_SIZES.index`: the first position of the size when it is listed, absent exactly when it is not |
| Entities.Lookup | src/teambuilder_single.py:294 | `players.get(id)`: a dictionary player with that id, or none when no player has it |
| Entities.LookupFindsMember | src/teambuilder_single.py:294 | with distinct ids, looking up a player's id gives back that player |
| Scoring.BuildNormalizationContext | src/teambuilder_single.py:173-198 | the one-pass loop over the players yields, per feature, the bounds of exactly the values collected for that feature |
| Scoring.CollectedMembers | teambuilder/scoring.py:28-38 | a value is collected for a feature exactly when some player has it: age and experience when present, the ordinal of a listed uniform size, and the evaluation score when its coercion succeeded |
| Scoring.ContextFeatureIndependent | teambuilder/scoring.py:28-38 | the bounds of a feature depend only on that feature's values, so a gap in one feature never changes another's bounds |
| Scoring.GetMinMax | teambuilder/scoring.py:40-43 | `get_min_max`: both bounds absent exactly for no values, otherwise a least and a greatest value of the list |
| Scoring.ContextWellFormed | teambuilder/scoring.py:40-50 | each bound pair is absent on both sides exactly when no player has the feature, and min <= max when present |
| Scoring.MemberWithinBounds | teambuilder/scoring.py:40-50 | a player's own feature value lies between the bounds of a context built from a population containing that player |
| Scoring.ContextIgnoresOrder | src/teambuilder_single.py:173-198 | two populations that are permutations of each other give the same context |
| Scoring.Norm | teambuilder/scoring.py:58-63 | `norm`: absent exactly when the value or a bound is; 0.5 for equal bounds; 0 at the minimum and 1 at the maximum; within [0, 1] for a value between the bounds |
| Scoring.NormScaling | src/teambuilder_single.py:201-206 | between distinct bounds, `norm` is the linear rescaling (v - min) / (max - min) |
| Scoring.NormMonotone | teambuilder/scoring.py:58-63 | with fixed ordered bounds, a larger raw value never normalizes to a smaller value |
| Scoring.PresentTerms | teambuilder/scoring.py:85-91 | the `present` list is empty exactly when no feature normalizes to a value, and each entry is a present feature's normalized value with that feature's weight |
| Scoring.WeightedSumBounds | src/teambuilder_single.py:230-231 | for values in [0, 1] and positive weights, 0 <= sum of v*w <= sum of w, and the weight sum is positive when a term is present |
| Scoring.WeightedMean | teambuilder/scoring.py:94-95 | the renormalized weighted mean of values in [0, 1] lies in [0, 1] |
| Scoring.RoundedTicks | src/teambuilder_single.py:232 | round half to even to an integer: within 0.5 of the input, and within [0, 10000] for inputs in that range |
| Scoring.Round4 | teambuilder/scoring.py:96 | `round(x, 4)` on the exact value: within 0.00005 of x, a whole number of ten-thousandths, and within [0, 1] when x is |
| Scoring.SkillScore | teambuilder/scoring.py:84-96 | `calculate_player_skill_score`: 0.0 when no feature is present; within [0, 1] when the present normalized features are; always four decimals at most |
| Scoring.ScoreInUnitInterval | teambuilder/scoring.py:91-96 | every player of the population the context was built from scores within [0, 1], for any positive weights |
| Scoring.ScoreOfAgreeingFeatures | src/teambuilder_single.py:227-232 | weights are renormalized over the present features: when all present features normalize to c, the score is c rounded, whatever the weights |
| Scoring.ScoreDependsOnFeaturesOnly | teambuilder/scoring.py:53-96 | the score depends on the player only through its four feature values |
| Scoring.ScoreIgnoresPopulationOrder | teambuilder/scoring.py:18-50 | scoring against the context of a reordered population gives the same score |
| Siblings.FamilyGroups | src/teambuilder_single.py:123-128 | the grouping loop maps every key seen to the ids of the players with that key, in player order |
| Siblings.IdsWithKeyMembers | src/teambuilder_single.py:123-128 | an id is in a key's group exactly when some player with that key has it |
| Siblings.Without | src/teambuilder_single.py:133 | the comprehension keeps exactly the ids other than the player's own |
| Siblings.DeriveSiblings | src/teambuilder_single.py:130-134 | each player gets the other ids of its group and nothing else changes; with distinct ids, j is listed as i's sibling exactly when i != j and their full keys are equal |
| Siblings.SiblingIdsExactly | src/teambuilder_single.py:122-133 | two different players are siblings exactly when their (parent name, street address) keys are equal |
| Siblings.SiblingSymmetric | src/teambuilder_single.py:122-133 | the sibling relation is symmetric |
| Siblings.SiblingIrreflexive | src/teambuilder_single.py:133 | no player is its own sibling |
| Teams.Team.constructor | src/teambuilder_single.py:43-51 | a new team has its id, name and coaches, an empty roster, no sponsor and total 0.0 |
| Teams.Team.AddPlayer | src/teambuilder_single.py:283-288 | `add_player_to_team`: appends exactly that player; a truthy sponsor replaces the team's and an absent or empty one leaves it; adds a present score to the total; keeps total == sum of scores |
| Teams.AddToTeam | src/teambuilder_single.py:283-288 | adding to team k of a list appends exactly that player to roster k; team k's sponsor becomes the player's when it is truthy and stays otherwise; its total grows by the player's score; no other team's roster, sponsor or total changes; totals stay consistent |
| Teams.AddAt | src/teambuilder_single.py:283-288 | `add_player_to_team` on team k of a list, seen on all the teams: roster k and account k change as adding that player says, and no other changes |
| Teams.PlacedAfterAdd | src/teambuilder_single.py:284 | appending a player to one roster adds exactly that player to everything placed and only extends the rosters |
| Teams.SponsorAfterLastTruthy | src/teambuilder_single.py:285-286 | after adding a list of players, the team's sponsor is that of the last added player whose sponsor is truthy |
| Teams.SponsorAfterNoneTruthy | src/teambuilder_single.py:285-286 | when no added player has a truthy sponsor, the team keeps the sponsor it had |
| Teams.AccountAfterConcat | src/teambuilder_single.py:283-288 | adding `xs` and then `ys` leaves the sponsor and total that adding `xs + ys` leaves |
| Teams.FollowsTransitive | src/teambuilder_single.py:283-288 | two stretches of `add_player_to_team` calls make one: the rosters only grow, and sponsors and totals follow the players added over both |
| Teams.FollowsConsistent | src/teambuilder_single.py:287-288 | totals that were the sums of their rosters' scores stay so after any stretch of additions |
| Teams.BestAmong | src/teambuilder_single.py:314 | Python's `min` on the key `(total_score, len(players), draw)`: the first team that no other team is strictly below |
| Teams.FindBestTeam | src/teambuilder_single.py:312-315 | `find_best_team_for_player` on a non-empty list returns a team minimal in `(total_score, len(players))`, reads the teams without changing them, and is strictly below all earlier teams |
| Teams.LowestExists | src/teambuilder_single.py:314 | a non-empty list of teams has a lowest team |
| Teams.LowestReachable | src/teambuilder_single.py:312-315 | every lowest team is the one returned for some tie-break draws in [0, 1) |
| Seeding.LastWord | src/teambuilder_single.py:243 | `split()[-1]` on a name with a word: a non-empty run of non-space characters |
| Seeding.LastWordSpec | src/teambuilder_single.py:243 | the last word is the maximal run of non-space characters followed only by spaces |
| Seeding.PartnerOf | src/teambuilder_single.py:240-242 | the first-pass search: a listed assistant that reciprocates the head, absent exactly when none does |
| Seeding.FindPartner | src/teambuilder_single.py:241-252 | the `for`/`break` search finds the index of the assistant `PartnerOf` names, or none exactly when it names none |
| Seeding.FirstPassSound | src/teambuilder_single.py:239-252 | every first-pass team pairs a listed head with the first listed assistant that names it back, and every head with such an assistant gets that team |
| Seeding.ReciprocalPass | src/teambuilder_single.py:236-252 | the first loop creates exactly the first-pass teams, records exactly their head and assistant ids, and seeds each team correctly |
| Seeding.ExcludedFromList | src/teambuilder_single.py:253-254 | the id filter keeps only listed coaches whose id was not used |
| Seeding.FirstWithCoverage | src/teambuilder_single.py:260-268 | the coverage search returns an index within the pool, or none |
| Seeding.FirstWithCoverageFinds | src/teambuilder_single.py:260-268 | the coverage search finds the first available assistant with (or without) an associated player, and none exactly when there is no such assistant |
| Seeding.FindCoverage | src/teambuilder_single.py:260-268 | the `enumerate` loop with `break` computes `FirstWithCoverage` |
| Seeding.PickIndex | src/teambuilder_single.py:258-270 | a fallback head takes an assistant exactly when the pool is non-empty, and the index is in range |
| Seeding.PickRules | src/teambuilder_single.py:258-270 | a head without an associated player takes the first assistant with one, if any; a head with one takes the first assistant without one, if any; otherwise the first assistant |
| Seeding.PickAssistant | src/teambuilder_single.py:257-270 | the three branches of the second pass compute `PickIndex` |
| Seeding.RemoveAt | src/teambuilder_single.py:262 | `pop(i)` removes one element and adds none |
| Seeding.RemoveAtMultiset | src/teambuilder_single.py:262 | the popped assistant and the remaining pool are together the pool before |
| Seeding.FallbackHead | src/teambuilder_single.py:256-274 | one head of the second pass gets its team shell and the pool after the `pop`, as `FallbackStep` defines them |
| Seeding.FallbackTeam | src/teambuilder_single.py:256-280 | one iteration appends that head's team and leaves the pool `FallbackStep` gives |
| Seeding.FallbackPass | src/teambuilder_single.py:256-280 | the second loop appends exactly the fallback teams of the unpaired heads |
| Seeding.AppendTeam | src/teambuilder_single.py:275-280 | a new team with id `head_assistant` or `head_solo` and name `Surname/Surname` or `Surname` is appended, and the list stays free of repeated teams |
| Seeding.SeedTeams | src/teambuilder_single.py:235-281 | `seed_teams_with_coaches`: distinct, empty, correctly named teams, with coaches from the inputs, forming `SeedShells` for some permutation of the leftover assistants |
| SeedingProperties.OneTeamPerHead | src/teambuilder_single.py:235-281 | with distinct head ids, exactly one team per head coach |
| SeedingProperties.AssistantsUsedOnce | src/teambuilder_single.py:235-281 | no assistant is used more often than listed; with distinct assistant ids, no assistant id is on two teams; leftover assistants are simply unused |
| SeedingProperties.PairedIff | src/teambuilder_single.py:239-252 | a head's id is used by the first pass exactly when an assistant reciprocates it |
| SeedingProperties.UnpairedIffUnreciprocated | src/teambuilder_single.py:253 | a head goes to the fallback pass exactly when no assistant names it back |
| SeedingProperties.ExcludingIdsMembers | src/teambuilder_single.py:253-254 | a coach survives the id filter exactly when it is listed and its id is unused |
| SeedingProperties.HeadsSplit | src/teambuilder_single.py:239-253 | the first-pass heads and the unpaired heads together are the heads, as a multiset |
| SeedingProperties.FirstPassNoRepeats | src/teambuilder_single.py:239-252 | with distinct head ids, no assistant is taken twice by the first pass |
| SeedingProperties.FirstPassTakesOnce | src/teambuilder_single.py:250-254 | with distinct head ids, the assistants the first pass takes and those left available together never exceed the listed assistants, so none is both taken and offered again |
| SeedingProperties.FallbackHeads | src/teambuilder_single.py:256-280 | every unpaired head gets exactly one fallback team, in order |
| SeedingProperties.FallbackConserves | src/teambuilder_single.py:256-270 | the assistants the fallback uses and those it leaves are exactly the shuffled pool |
| SeedingProperties.FallbackPoolSize | src/teambuilder_single.py:258-270 | after k fallback heads the pool has lost min(k, pool size) assistants |
| SeedingProperties.SoloExactlyWhenExhausted | src/teambuilder_single.py:256-274 | the i-th fallback team is solo exactly when at most i assistants were left to shuffle |
| SeedingProperties.UnreciprocatedHeadGoesSolo | src/teambuilder_single.py:239-281 | two heads naming one assistant who names only the second: the second pairs in the first pass and the first ends solo |
| SeedingProperties.ComplementaryCoverage | src/teambuilder_single.py:256-270 | for either order of the shuffle, the head without an associated player takes the assistant with one, and the head with one takes the assistant without |
| CoachPass.ClaimsFromCoaches | src/teambuilder_single.py:290-294 | every claim names an existing team and a dictionary player associated with that team's head or assistant |
| CoachPass.CoachesClaim | src/teambuilder_single.py:291-294 | a coach of a team with a truthy associated id of a known player makes that claim |
| CoachPass.GrantSpec | src/teambuilder_single.py:295-297 | granted claims are claims of the list for players not assigned before and never for one player twice; every claimed id ends up assigned; the assigned ids are the old ones plus the granted players' |
| CoachPass.FirstClaimGranted | src/teambuilder_single.py:295-297 | the first claim for a player not yet assigned is granted |
| CoachPass.GrantClaims | src/teambuilder_single.py:295-297 | the loop grants exactly `Grant`'s claims and appends them to their teams; each team's sponsor and total are what adding its granted players one by one makes of them; totals stay consistent |
| CoachPass.AssignCoachPlayers | src/teambuilder_single.py:290-297 | `assign_coach_associated_players`: the rosters after granting the coaches' claims in team, head, then assistant order, with each team's sponsor and total following the players it received |
| CoachPass.AddClaimsPlaces | src/teambuilder_single.py:296 | granting only appends, and a claim's player ends on its team's roster |
| CoachPass.AddClaimsPlaced | src/teambuilder_single.py:296 | granting places exactly the claimed players |
| Assignment.CoachPassPlaced | src/teambuilder_single.py:290-297 | the coach pass places exactly the dictionary players whose ids it assigns, once each, only appends, and honours every first claim |
| Assignment.GrantedPlayers | src/teambuilder_single.py:295-297 | the players of the granted claims are exactly the dictionary players with an assigned id, once each |
| Assignment.GrantedMembers | src/teambuilder_single.py:295-297 | a player is granted exactly when it is in the dictionary and its id was assigned |
| SiblingPass.FamilyGroupSets | src/teambuilder_single.py:323-329 | the grouping loop maps each key of a player with siblings, in first-seen order, to the ids of the players with siblings and that key |
| SiblingPass.FamilyIdsMembers | src/teambuilder_single.py:324-329 | an id is in a family's set exactly when a player with siblings and that key has it |
| SiblingPass.GroupKeysDistinct | src/teambuilder_single.py:323-332 | the family keys are visited once each |
| SiblingPass.SiblingGroupIds | src/teambuilder_single.py:326-332 | an id is in one of the groups of two or more exactly when its player has siblings and a family set of size at least two |
| SiblingPass.MultiGroupIdsAreGrouped | src/teambuilder_single.py:326-332 | the ids the group loop collects over all keys are exactly those of the players in a sibling group of two or more |
| SiblingPass.AddMembers | src/teambuilder_single.py:341-343 | a group's members are appended to the team in order; the team's sponsor and total are what adding them one by one makes of them; their ids are assigned |
| SiblingPass.PlaceGroup | src/teambuilder_single.py:340-343 | a group goes onto team t of the list: only roster t grows, by the members in order; team t's sponsor and total follow the members; no other team's roster, sponsor or total changes |
| SiblingPass.PlaceFamily | src/teambuilder_single.py:336-343 | the still-unassigned members of one group all go to a single lowest team and nowhere else; all its ids become assigned; sponsors and totals follow the players added |
| SiblingPass.CohesiveExtends | src/teambuilder_single.py:341-342 | appending to rosters keeps every group already placed on its team |
| SiblingPass.PlaceAllGroups | src/teambuilder_single.py:335-343 | the group loop assigns exactly the members of groups of two or more, places each group on one team, and leaves each team's sponsor and total following its added players |
| SiblingPass.AssignSiblingGroups | src/teambuilder_single.py:317-343 | `assign_sibling_groups_to_teams`: players with no sibling group stay unassigned; everyone newly assigned is placed, with the group's team; sponsors and totals follow the players added |
| FillPass.Pop | src/teambuilder_single.py:303 | `unassigned.pop(idx)`: the list without its element at idx, the others in order |
| FillPass.PopMultiset | src/teambuilder_single.py:303 | the popped player and the rest make up the list |
| FillPass.FillTeam | src/teambuilder_single.py:301-304 | the `while` loop moves players from the pool to the team until it has `minSize` or the pool is empty; takes none from a full team; never grows a team past `minSize`; the team's sponsor and total follow the players taken |
| FillPass.FillTeamsToMinimum | src/teambuilder_single.py:299-304 | `fill_teams_to_minimum`: players only move from the pool to teams; a team at the minimum is untouched; each team ends with at least the minimum unless the pool ran dry; teams after a short team get nobody; sponsors and totals follow the players added |
| SkillPass.InsertPos | src/teambuilder_single.py:307 | a player's insertion point in a descending list: after all players scored at least as high, before any scored lower |
| SkillPass.InsertKeepsOrder | src/teambuilder_single.py:307 | insertion puts a new player after the players of equal score already there |
| SkillPass.SortBySkillCorrect | src/teambuilder_single.py:307 | `sort(key=skill_score, reverse=True)` gives a descending permutation that keeps the original order among equal scores |
| SkillPass.DescendingUnique | src/teambuilder_single.py:307 | the stable descending order is unique: two descending lists with the same players, in the same order per score, are equal |
| SkillPass.LowestIsLowestRoster | src/teambuilder_single.py:312-315 | with consistent totals, the team `find_best_team_for_player` may return has a lowest roster sum and size |
| SkillPass.PlaceBySkill | src/teambuilder_single.py:308-310 | each player in turn goes to a lowest team: the rosters are the replay of those choices, the choices are greedy, and sponsors and totals follow the players added |
| SkillPass.AssignRemainingBySkill | src/teambuilder_single.py:306-310 | `assign_remaining_players_by_skill`: the players, sorted by descending skill, are each added to a lowest team in turn; exactly they are placed; sponsors and totals follow the players added |
| SkillPass.ReplayPlaced | src/teambuilder_single.py:308-310 | replaying in-range choices only appends and places exactly the players replayed |
| SkillPass.SpreadStep | src/teambuilder_single.py:309-310 | adding a player scored in [0, d] to a lowest team keeps all team totals within d of each other |
| SkillPass.GreedySpread | src/teambuilder_single.py:306-315 | when every score lies in [0, d] and team totals start within d of each other, the greedy pass ends with totals within d of each other |
| Pipeline.AssignPlayersToTeams | src/teambuilder_single.py:345-352 | `assign_players_to_teams`: every dictionary player is placed once more and nothing else; rosters only grow; each first coach claim is on the coach's team; sibling groups sit together; the coach ids and grouped ids are exactly those the first two passes define; the first two passes take the start rosters to `afterGroups`, placing exactly the granted coach players and the grouped players; from there the fill only appends players of the still unassigned list to reach `afterFill`, and what it leaves over is `rest`; the skill pass replays `SortBySkill(rest)` on lowest teams; sponsors and totals follow the players added and totals stay consistent |
| Pipeline.PlaceClaimsAndGroups | src/teambuilder_single.py:346-348 | the coach and sibling passes assign the coaches' granted ids plus exactly the grouped ids, place exactly those players, and leave sponsors and totals following them |
| Pipeline.PlaceRest | src/teambuilder_single.py:350-352 | the fill and skill passes place exactly the players not yet assigned: the fill only appends, taking the rosters to `afterFill` and leaving `rest`, so that `afterFill` plus `rest` holds the starting players plus the unassigned ones; then `SortBySkill(rest)` goes to lowest teams; sponsors and totals follow the players added |
| Pipeline.PlaceRestAfterGroups | src/teambuilder_single.py:345-352 | the last two passes, composed with the first two: if those placed the claims and groups from the start rosters, the whole pipeline did what `Assigned` says; the fill and skill passes run as in `PlaceRest`; sponsors and totals follow over all four passes |
| Assignment.PassesCompose | src/teambuilder_single.py:345-352 | the promises of the first two passes and of the last two compose into the pipeline's promise |
| Assignment.HonouredKept | src/teambuilder_single.py:347-352 | later passes only append, so a coach's associated player stays on the coach's team |
| Assignment.CohesiveKept | src/teambuilder_single.py:348-352 | later passes only append, so sibling groups stay together |
| Assignment.RestFromPlayers | src/teambuilder_single.py:350-351 | the players the fill leaves over come from the dictionary |
| Assignment.EachPlayerOnce | src/teambuilder_single.py:345-352 | with distinct ids, assigning to empty teams puts every dictionary player on exactly one team, exactly once, and nobody else |

## Left out

- CSV reading, header discovery, the exports (including `statistics.stdev`), argparse and `main` are file, terminal and float plumbing. Their outputs are the inputs of the engine.
- Age from date of birth uses calendar arithmetic. Age is an optional `real` input.
- The `int()`/`float()` coercion of raw fields follows Python's string-to-number rules. Each coerced field is an `Option` input.
- Floating point is modelled as exact `real` arithmetic, with `round(x, 4)` as exact round-half-to-even. IEEE rounding of the sums and of the division is not modelled.
- The PRNG is not modelled. The shuffle, `randint` and `random.random()` are arbitrary choices, as described above.
- SkillPass.AssignRemainingBySkill: the source sorts the caller's `unassigned` list in place. The model sorts a copy, because nothing reads the list afterwards.
- Pipeline.AssignPlayersToTeams: `team_size` is accepted and unused, as in the source. The fill uses `MIN_TEAM_SIZE` = 3.
- Pipeline.AssignPlayersToTeams requires every player to carry a skill score. That is stronger than the code needs: the sort raises only when two or more players are left and one is unscored. The program scores every player before calling it. The pass itself, `SkillPass.AssignRemainingBySkill`, requires exactly the condition under which the sort succeeds.
- Operations that raise are preconditions rather than modelled behaviour:
  - `min` over an empty team list, when there are players to place;
  - `split()[-1]` on a coach name without a word;
  - the descending sort when an unscored player meets another player.
- Teams.FindBestTeam takes no player argument, because the source never reads it.
- The `teambuilder` package's team builder, loader and output modules are stubs without code, and are not part of this model.
