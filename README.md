# matchlista draw core in Dafny

A model of the tournament draw in `lottning.py` (BkStarke/matchlista). Participants come in
groups; a draw of `T` matches gives every participant about `2T / N` matches, all inside their
own group, and then orders the matches so nobody plays twice in a row where that can be avoided.
The model covers the five algorithmic pieces of the draw:

- `round_robin.dfy` (module `RoundRobin`) — `round_robin_schedule`: the circle method with a `"BYE"` placeholder.
- `allocator.dfy` (module `Allocator`) — `find_k_per_group_dp`: the dynamic program that picks, per group, how many members play `q + 1` so that every group's total is even and the extras add up to `r`.
- `realizer.dfy` (module `Realizer`) — `realize_group_matches`: the greedy realization of one group's degree targets as a list of matches.
- `targets.dfy` (module `DegreeTargets`) — the target-building part of `generate_exact_matches`: the greedy fallback allocation, the per-participant assignment of `q` / `q + 1`, and the sum correction.
- `generator.dfy` (module `Generator`) — `generate_exact_matches` end to end: targets, the per-group parity fix, realization of every group, trimming and the tally.
- `sequencer.dfy` (module `Sequencer`) — `arrange_matches`: the greedy ordering with cooldowns.
- `types.dfy` (module `DrawTypes`) — participants, matches, groups, and the counting functions and lemmas the others share.

The source is imperative throughout, and so is the model. Each function is a method with loops over maps and
sequences, and the larger loop bodies are separate methods or lemmas. Python dictionaries are Dafny maps, and their
iteration order is a separate sequence (the group list or the member list). The order matters for tie-breaking and
for the witness the dynamic program keeps. Both `sort` on a negated key and `max` are modelled as "the first
maximal entry in sequence order". Each `random.shuffle` becomes an arbitrary permutation chosen with `:|`. Every
contract holds for every such choice.

Some results follow from the proofs rather than from reading the code:

- The round-robin top-up after the greedy fallback (lines 134-143) never runs. The remainder `r` is below `N`, so
  the first pass already uses it up. `FallbackAllocation` proves that nothing is left.
- For distinct participant labels, which the model assumes (`WellFormed`), the sum correction (lines 157-187) never
  changes the targets. After assignment they already add up to `2T`, and `PlanTargets` proves this. The correction is
  still modelled in full. Labels are built as `first_name (club)` (lines 12-14), so two entries with the same first
  name and club collide. The source's dictionaries then hold fewer keys than the participant list has entries, and the
  correction does run. For example, one group listing `A`, `A`, `B` with `T = 3` gives targets `A: 2, B: 2`, which
  sum to 4 instead of 6. Colliding labels are outside the model.
- The padding branch with `random.choice` (lines 207-210) never runs. Every group realizes at least its targets,
  and the targets add up to `2T`, so the matches are at least `T`. `EnoughMatches` proves this.
- The draw can still fail with the "cannot find a partner" error, even though the source's comment says this should
  not happen. The realizer fails exactly when a group's needs are not realizable: their total is odd, or one member
  needs more matches than all the others together (`RealizeGroupMatches`). So the draw fails exactly when some
  group's planned, parity-fixed targets are not realizable (`GenerateExactMatches`).
  - With `q ≥ 1`, any group of one makes the draw fail (`SingletonBlocksDraw`). A singleton can only be matched
    with itself (`LoneMemberCannotPlay`).
  - Groups of sizes 1, 1 and 2 with `T = 2` give `q = 1` and `r = 0`. The allocator finds nothing
    (`NoAllocationForSingletons`), and the draw fails (`DrawWithSingletons`).
  - The failure does not need the allocator to fail. Groups `[a]` and `[b, c]` with `T = 3` give `q = 2` and `r = 0`.
    The allocator succeeds with counts 0 and 0, and the draw still fails, since `a` needs two matches
    (`DrawWithLoneMember`).
- For distinct participant labels, when the allocator succeeds, no parity fix and no trimming happen. Every
  participant plays exactly `q` or `q + 1` matches, and the members on `q + 1` form a parity-respecting spread of `r`
  (`GenerateExactMatches`).

## Model

| member | source | states |
|---|---|---|
| `RoundRobin.RoundRobinSchedule` | lottning.py:17-33 | Fewer than two participants give no rounds. Otherwise there are (size padded to even) − 1 rounds, each with at most half the padded size of matches, none involving the placeholder, all between listed participants. For distinct participants without the placeholder name, every round has each participant at most once, no self-match, and exactly ⌊count / 2⌋ matches. Round k is exactly the pairing of the padded list after k rotations (`RoundPairs` of `RotatedTimes`). |
| `RoundRobin.PlayAllRounds` | lottning.py:24-33 | The loop runs size − 1 rounds, and round k satisfies the round contract for the list after k rotations. |
| `RoundRobin.PlayRound` | lottning.py:26-32 | One pass pairs the current list, which is the padded list after k rotations, and returns it rotated once more, with the same members and no repeats. |
| `RoundRobin.AddPair` | lottning.py:28-30 | The inner loop body extends the matches from the first i pairs to the first i + 1, keeping them between listed participants and free of repeats. |
| `RoundRobin.PaddingFacts` | lottning.py:18-23 | The padded list is the participants plus the placeholder when their count is odd. Its members are participants or the placeholder, and over distinct participants it has no repeats and holds the placeholder exactly when the count was odd. |
| `RoundRobin.Padded` | lottning.py:21-22 | The padded list has the padded size, starts with the participants, and ends with the placeholder when one was added. |
| `RoundRobin.RotatedTimes` | lottning.py:32 | Rotating k times keeps the length and the multiset of entries. |
| `RoundRobin.RoundPairs` | lottning.py:26-30 | The pairs of a round, position j against n − 1 − j in order, number i minus the pairs that involve the placeholder. |
| `RoundRobin.RoundPairsMembers` | lottning.py:27-30 | A match is in the round exactly when it pairs some position j < i with position n − 1 − j and neither is the placeholder. |
| `RoundRobin.PaddedSize` | lottning.py:20-22 | The padded size is even and at most one more than the count. |
| `RoundRobin.PairPositions` | lottning.py:26-30 | The round is exactly `RoundPairs(parts, n / 2)`: for each i < n / 2 in order, the match of position i with position n − 1 − i, unless either is the placeholder. It has at most n / 2 matches, all between listed participants. Over distinct positions it is a matching with ⌊count / 2⌋ pairs. |
| `RoundRobin.Rotated` | lottning.py:32 | The rotation keeps position 0, moves the last entry to position 1 and shifts the rest up by one. It is a permutation of the list. |
| `RoundRobin.RotationKeeps` | lottning.py:32 | The rotated list has the same members and stays free of repeats. |
| `RoundRobin.NewPairKeepsRoundDisjoint` | lottning.py:27-30 | Adding the pair at positions i and n − 1 − i to a round built from the outer positions keeps every participant to at most one match per round. |
| `RoundRobin.ByePairsCount` | lottning.py:28 | Over distinct positions exactly one pair of a round involves the placeholder when it is present, and none otherwise. |
| `Allocator.FindKPerGroup` | lottning.py:35-66 | When it returns a mapping, the keys are exactly the groups, and the counts in group order are a feasible allocation: each is within the group size, has the parity of q·size, and together they sum to r. It returns none exactly when no such allocation exists. |
| `Allocator.ExtendTable` | lottning.py:47-60 | One group step keeps the table invariant: each key is the sum of its stored witness, which is a feasible prefix within r, and every feasible prefix sum within r is a key. |
| `Allocator.ExtendEntry` | lottning.py:53-59 | Extending one reachable sum by every count of the right parity keeps every existing entry with its witness and records every new sum within r. A new sum x gets the witness `chosen + [x − accSum]`. |
| `Allocator.TryCount` | lottning.py:55-59 | One count: a sum within r that is not yet known is recorded with `chosen + [opt]`. Existing entries keep their witnesses. |
| `Allocator.CoverStep` | lottning.py:51-54 | Recording the sum of count `opt` covers every feasible count below `opt + 2`, since feasible counts step by two. |
| `Allocator.ExtendCovers` | lottning.py:52-59 | After all reachable sums have been extended, no feasible sum within r is missing from the new table. |
| `Allocator.EmptyTableRefutes` | lottning.py:61-62 | An empty table after some group proves that no allocation exists. |
| `Allocator.InitialTable` | lottning.py:46 | The start table {0: []} satisfies the invariant for zero groups. |
| `Allocator.ByGroup` | lottning.py:66 | The group-keyed dictionary maps the i-th group to the i-th count and has exactly the group names as keys. |
| `Realizer.RealizeGroupMatches` | lottning.py:68-103 | It fails with the odd-sum error exactly when the targets add up to an odd number. It succeeds exactly when the sum is even and the needs are realizable, so the missing-partner error comes exactly when the sum is even and some member needs more than all the others together. On success every member appears in exactly the positive part of its target, nobody plays themself, every match is inside the group, and the number of matches is half the positive total. |
| `Realizer.PairRepeatedly` | lottning.py:90-102 | Pairing u repeatedly keeps the invariant: appearances plus remaining need equal the target, and no need drops below zero unless it started there. The outstanding total falls. It stops with the missing-partner failure only when u still needs a match and no other member does. On success u has no need left. When the needs were realizable it succeeds and they stay realizable. |
| `Realizer.PosTotalOfThree` | lottning.py:90-102 | The needs of three different members together never exceed the outstanding total. |
| `Realizer.RealizedIsRealizable` | lottning.py:82-103 | Needs met exactly by matches between different members are realizable: the total is even and nobody needs more than all the others together. |
| `Realizer.PairKeepsRealizable` | lottning.py:98-102 | Pairing u with the neediest other member keeps the needs realizable. |
| `Realizer.StuckNotRealizable` | lottning.py:92-97 | When u still needs a match and no other member does, the needs are not realizable. |
| `Realizer.PairStep` | lottning.py:99-102 | One pairing of two members with positive need keeps the invariant and lowers the outstanding total by exactly two, which makes the loop terminate. |
| `Realizer.FirstMax` | lottning.py:84-88 | The member chosen is eligible (positive need, not excluded) with the largest need, and it is the first such in dictionary order. It returns none exactly when nobody is eligible. |
| `Realizer.Finished` | lottning.py:85-86 | When nobody has positive need, every member has played exactly its target and the matches are half the total. |
| `Realizer.PosTotalUpdate` | lottning.py:101-102 | Changing one member's remaining need changes the outstanding total by the change of its positive part. |
| `DegreeTargets.FallbackAllocation` | lottning.py:125-143 | The greedy fill gives every group a count within its size. The counts add up to exactly r, so the top-up loop has nothing to do. Groups are filled in order: after a group that was not filled completely, every later group gets 0. |
| `DegreeTargets.FillGroups` | lottning.py:128-133 | The fill loop keys every group. Each group takes between 0 and its size, and what is left is r minus what was taken. While something is left, every group so far was filled completely, and after a group that was not, the later groups take 0. |
| `DegreeTargets.FillDone` | lottning.py:134-135 | After the last group nothing is left of r when r is at most the number of participants. |
| `DegreeTargets.AssignTargets` | lottning.py:145-155 | Every participant gets q or q + 1, and exactly k_g members of group g get q + 1. |
| `DegreeTargets.AssignGroup` | lottning.py:147-155 | For one group and any shuffle, the first k shuffled members get q + 1 and the others q. Exactly k members get q + 1, and nobody outside the group changes. |
| `DegreeTargets.EarlierGroupsKept` | lottning.py:154-155 | Assigning one group leaves the q + 1 members of the earlier groups unchanged. |
| `DegreeTargets.SumOfTwoLevels` | lottning.py:158 | Targets that are all q or q + 1 sum to q per participant plus the number of q + 1 targets. |
| `DegreeTargets.GroupedSum` | lottning.py:158 | When each group sums to q·size + k_g, all targets sum to q·N + Σk_g. |
| `DegreeTargets.CorrectDegreeSum` | lottning.py:157-187 | After the correction the targets sum to exactly 2T and have the same keys. Nothing changes when the sum was already 2T. Targets only move in the direction of the difference. |
| `DegreeTargets.RaiseTargets` | lottning.py:162-170 | Cycling through any shuffle and adding one at a time raises the sum by exactly the difference, and lowers no target. |
| `DegreeTargets.LowerTargets` | lottning.py:171-187 | The two lowering passes lower the sum by exactly the difference and raise no target. |
| `DegreeTargets.LowerPositives` | lottning.py:172-179 | The first pass takes at most one from each target, and only from positive ones. In the sorted order, a positive target is passed over only if no later one is lowered. While something is still left to take, every positive target was lowered. The sum falls by what it took, and what is left never exceeds the need. |
| `DegreeTargets.LowerAt` | lottning.py:174-179 | One step of the first pass lowers the participant at idx by one if its target is positive, and keeps the pass's state. |
| `DegreeTargets.LowerAround` | lottning.py:180-187 | The last resort lowers the sum by exactly what is left and raises no target. |
| `DegreeTargets.SortByTargetDesc` | lottning.py:172 | The sort returns a permutation of the participants. |
| `DegreeTargets.SortByTargetDescSorted` | lottning.py:172 | The sort's result is in descending order of target. |
| `DegreeTargets.InsertDescSorted` | lottning.py:172 | Inserting into a descending list keeps it descending. |
| `DegreeTargets.InsertDescStable` | lottning.py:172 | Inserting `x` puts it after every entry that has the same target, and keeps the order of those entries. |
| `DegreeTargets.SortByTargetDescStable` | lottning.py:172 | The sort is stable, as Python's `sorted` is: for every target value, the participants with that target appear in the same order as in the input. |
| `Generator.PlanTargets` | lottning.py:113-187 | The targets are keyed by all participants. Each is q or q + 1 with q = 2T div N, and they sum to exactly 2T. When a parity-respecting allocation of r exists, every group sums to an even number and the per-group numbers of q + 1 targets form such an allocation. When none exists, the per-group numbers of q + 1 targets fill the groups in order up to r. |
| `Generator.PlannedTargets` | lottning.py:145-187 | Targets of q or q + 1 whose per-group counts are the allocation, or the in-order fill when there is none, meet the planned-targets description. |
| `Generator.Quota` | lottning.py:119 | q = 2T div N satisfies qN ≤ 2T < (q + 1)N. |
| `Generator.Extra` | lottning.py:118-120 | The remainder r = 2T − qN satisfies 0 ≤ r < N and qN + r = 2T. |
| `Generator.Average` | lottning.py:121 | The average per participant times N is 2T. |
| `Generator.GroupTargets` | lottning.py:192-198 | A group's targets are its members' targets, with the first member raised by one when they sum to an odd number. The result is `FixedTargets` and always has an even sum. |
| `Generator.FixedTargets` | lottning.py:194-198 | The parity-fixed targets are keyed by the group's members, and for distinct members give member j its target plus one when j = 0 and the group's sum is odd. |
| `Generator.RealizeAllGroups` | lottning.py:189-200 | The only possible failure is the missing partner, because the odd-sum error cannot occur. It succeeds exactly when every group's parity-fixed targets are realizable. On success every match is between two different members of one group, and every member plays exactly the positive part of its parity-fixed target. |
| `Generator.RealizeNextGroup` | lottning.py:190-200 | One group step fails exactly when that group's parity-fixed targets are not realizable. Otherwise it appends the group's matches and keeps the realized-so-far state. |
| `Generator.AppendGroup` | lottning.py:199-200 | Appending one group's matches keeps the earlier groups' appearances and gives the new group's members their targets. |
| `Generator.TotalDegreeCompare` | lottning.py:203 | Appearances summed over participants are at least the targets summed, and equal when each participant plays exactly its target. |
| `Generator.RealizedAtLeastTargets` | lottning.py:194-200 | Every participant plays at least its target. With even group sums and non-negative targets, it plays exactly its target. |
| `Generator.EnoughMatches` | lottning.py:203-210 | The realized matches are at least half the target sum, so the list is never shorter than T and the padding never runs. |
| `Generator.BalancedOutcome` | lottning.py:203-206 | With balanced targets every participant plays exactly its target, the matches are exactly half the total so nothing is trimmed, and the q + 1 players per group are the allocator's counts. |
| `Generator.TargetsAddUp` | lottning.py:146-158 | With the allocator's counts, each group sums to q·size + k_g, and all targets sum to q·N + r. |
| `Generator.TallyCounts` | lottning.py:212-216 | The counts have exactly the participants who appear as keys, each mapped to its number of appearances. |
| `Generator.GenerateExactMatches` | lottning.py:105-218 | No participants give no matches, no counts and average 0. Otherwise the only failure is a missing partner. On success there are exactly T matches, each between two different members of one group, the counts tally them, appearances sum to 2T, and the average is 2T / N. When a parity-respecting allocation exists, everyone plays q or q + 1 and the q + 1 players form such an allocation. The draw succeeds exactly when the planned targets of every group, after the parity fix, are realizable. With q ≥ 1 and a group of one it fails. |
| `Generator.DrawWithSingletons` | lottning.py:105-218 | Groups of sizes 1, 1 and 2 with T = 2 make the draw fail. |
| `Generator.DrawWithLoneMember` | lottning.py:105-218 | Groups `[a]` and `[b, c]` with T = 3 (quota 2, remainder 0) make the draw fail. |
| `Generator.SingletonBlocksDraw` | lottning.py:192-200 | With positive targets, a group of one makes the parity-fixed targets unrealizable. |
| `Generator.LoneMemberCannotPlay` | lottning.py:77-97 | A positive target for the only member of a group of one is not realizable. By `RealizeGroupMatches`, the realizer then fails with the odd-sum error (lines 77-79) when the target is odd, and with the missing-partner error (lines 92-97) when it is even. In the draw the parity fix (lines 194-198) has already made the target even, so there it is always the missing-partner error. |
| `Generator.NoAllocationForSingletons` | lottning.py:35-66 | Groups of sizes 1, 1 and 2 with q = 1 and r = 0 admit no parity-respecting allocation, so the draw falls back to the greedy fill. |
| `Sequencer.ArrangeMatches` | lottning.py:220-245 | The result is a permutation of the input, so empty input gives empty output. Every placement is a greedy choice from the matches not yet placed: it shares no player with the previous match whenever some remaining match allows that, and among the allowed matches its less-rested player has rested longest. |
| `Sequencer.PlaceAll` | lottning.py:229-244 | The loop places every match of the shuffled pool, each as a greedy choice from what remained. |
| `Sequencer.ChooseNext` | lottning.py:230-238 | The chosen match is in the pool and is a greedy choice. |
| `Sequencer.PlaceNext` | lottning.py:230-244 | One pass appends a greedy choice `best` to the placed list, removes its first occurrence from the pool, and applies the cooldown update for `best`. The cooldown table stays equal to how long each player has rested. |
| `Sequencer.StartState` | lottning.py:224-228 | Before anything is placed, all cooldowns are 0, which is how long everyone has rested. Every match of the shuffled pool is between players. |
| `Sequencer.Players` | lottning.py:227 | Both players of every match are in the player set. |
| `Sequencer.PlayersExact` | lottning.py:227 | The player set is exactly the players of the matches: a participant is in it if and only if it plays in some match. |
| `Sequencer.AfterPlaying` | lottning.py:241-244 | After placing `best`, its two players have cooldown 0 and every other player's cooldown is one more. |
| `Sequencer.CooldownStep` | lottning.py:241-244 | Adding one to every cooldown and resetting the two players of the placed match keeps each cooldown equal to the number of placements since that player last played. |
| `Sequencer.ChoiceIsGreedy` | lottning.py:233-238 | The first candidate with the largest min-cooldown is a greedy choice from the whole remaining pool. |
| `Sequencer.FirstBest` | lottning.py:238 | `max` returns the first candidate whose key is largest. |
| `Sequencer.NotSharing` | lottning.py:231-233 | The candidates are exactly the remaining matches that share no player with the last one. |
| `Sequencer.RemoveFirst` | lottning.py:240 | Removing an entry drops exactly one occurrence of it. |
| `Sequencer.PlacementStep` | lottning.py:239-240 | Moving a greedy choice from the pool to the placed list keeps every earlier placement a greedy choice from what followed it. |
| `Sequencer.SamePoolSameChoice` | lottning.py:229-238 | Whether a choice is greedy depends only on the contents of the pool, not on its order. |
| `Sequencer.RepeatOnlyWhenForced` | lottning.py:230-237 | A placement shares a player with the previous one only if every match placed after it does too. |
| `DrawTypes.AllParticipantsMember` | lottning.py:113 | A participant is in the flattened list exactly when it is a member of some group. |
| `DrawTypes.AllParticipantsLength` | lottning.py:113-114 | The flattened list has as many entries as the group sizes add up to. |
| `DrawTypes.DegreeAtMostLength` | lottning.py:92-100 | Without self-matches, nobody appears in more matches than there are. |
| `DrawTypes.Handshake` | lottning.py:213-216 | For matches between listed participants, the appearances summed over participants are twice the number of matches. |

## Left out

- `main` (lines 247-311) is console I/O and prompting, and is not modelled. The `target_total >= 0` check it performs is modelled by `targetTotal: nat`.
- `read_participants_from_text` (lines 6-15) is text parsing with whitespace and f-string semantics, and is not modelled. Groups arrive already parsed as a sequence of named member lists.
- The average `target_per_person_float` (line 121) is an exact real 2T / N, not a binary64 float.
- The `random` module is not modelled. Each `random.shuffle` (lines 152, 165, 226) is an arbitrary permutation chosen nondeterministically, and every contract holds for every choice.
- `random.choice` in the padding (lines 207-210) is not modelled, because the padding branch is proved unreachable (`Generator.EnoughMatches`). The generator keeps only the trimming branch.
- The round-robin top-up loop (lines 134-143) is not written out. `DegreeTargets.FallbackAllocation` proves that the remainder is already used up, so the loop never runs.
- The model requires distinct group names and distinct participants across groups (`WellFormed`). The source's dictionaries would silently merge duplicates.
- That the caller's participant list is not mutated by `round_robin_schedule` holds trivially, since sequences are values.
- The unused `participants` parameter of `realize_group_matches` is replaced by the member order, which determines the dictionary iteration order.
- `RoundRobin.RoundRobinSchedule`: does not state that every pair of participants meets exactly once over all rounds. Only the per-round properties are proved.
- `DegreeTargets.LowerTargets`: does not state that targets stay non-negative when enough of them are positive. It only states the sum and the direction of change.
- `DegreeTargets.RaiseTargets`: does not state the spread bound (each target raised by at most ⌈diff / N⌉).
- `Generator.GenerateExactMatches`: states nothing about each participant's count when the allocator fails. The parity fix and the trimming can then move counts away from q and q + 1.
- `Generator.PlanTargets`: with colliding participant labels (lines 12-14), the source's target dictionary holds fewer keys than the participant list has entries and the sum correction then runs. The model assumes distinct labels (`WellFormed`) and makes no claim for that case.
- The fairness or optimality of the ordering is not claimed. The source promises only the greedy rule, which `Sequencer.ArrangeMatches` states.
