# Generational scheduler of `evolve`

This project models the scheduler inside `evolve` (include/evolution.hpp), the
driver of the evo-devo genetic algorithm. Each `evolve` call keeps two
generations of genomes, fitness values and body-buffer handles. For every
repeat of every stage of the selection plan it does the following:

- It runs the stage's substages in order, filling the next generation from a
  write cursor:
  - ROULETTE, LINEAR, EXPONENTIAL and TOURNAMENT rank the population and copy
    survivors;
  - TWO_POINTS_CO and UNIFORM_CO pick partners by assortative mating;
  - MUTATE mutates the members of a shuffled prefix.
- It exchanges the two generations.
- It redevelops the bodies of the slots whose genome changed.
- It rescores either those slots or, when the weights changed, every slot.

At the end the final generation is copied back into the caller's arrays.

The model is imperative where the source is.

- `Scheduler.Population` is a class. Its array fields are the two generations'
  genome, fitness and handle arrays plus the `winners` array. Its `seq` fields
  are the invalidation list and the contents of the body buffers, indexed by
  handle.
- Each block of `evolve` is a method with the loop it has in the source:
  - the survivor copy and handle swap;
  - the shuffle;
  - the two nested loops of partner selection;
  - the commit;
  - the redevelopment and rescoring passes;
  - the copy-back.
- Each method states its new state against a function on values, or through
  the ledger invariants below for fitness values and buffer contents:
  - the six arrays of one repeat against `Fill.FillAll` and `Fill.Exchanged`;
  - the genomes, handles and winners of a repeat, a stage and the whole plan
    against `Fill.RepeatLineage`, `Fill.StageLineage` and `Fill.PlanLineage`.
    These decide the lineage without reading a fitness value (the ranking
    picks are inputs).
- The lemmas in the modules state the properties of those functions:
  - `Fill` covers the substage loop on the contents of the six arrays;
  - `Survivors` covers the handle exchange;
  - `Permutations` covers the inside-out shuffle;
  - `Mating` covers partner choice;
  - `Plan` covers the cursor, the invalidation list and the weights;
  - `Invalidation` covers the sort;
  - `Loci` covers the locus table;
  - `Substages` covers the substage type tags.
- Ghost tags (`Scheduler.Ledger`) record, for every slot, the body its
  fitness value was computed from and the weights it was computed with. Every
  repeat keeps the invariant `Scored`: each current fitness value is the
  fitness function of its recorded body under its recorded weights.
- A `Fixes` value selects, for each of the three discrepancies listed
  under Findings below, the code as written or the evidently intended code.
  `Scheduler.Evolve` runs everything as written (`AsWritten`). Under
  `Scheduler.Population.RunPlan`, every final fitness value is computed with
  the weights of the last repeat that ran in two cases: when the stage loop
  carries `previousWeights` across stages (the corrected loop), or, as
  written, when every stage's reset of `previousWeights` is harmless
  (`Plan.ResetHarmless`).

External collaborators are inputs rather than code:

- **Ranking and shuffle draws.** The ranking oracles and the random shuffle
  draws are per-substage inputs (`Plan.SubstageDraws`). Their contract is
  `Plan.DrawsFit`.
- **Genome and body operations.** The developmental simulator (`loadGenome`,
  `developBody`, `birthBody`, `isolateBody`), the fitness function with its
  targets, `mutateGenome`, `geneticDistance` and the weight interpolation are
  pure functions in `Scheduler.Operators`.
- **Types.** Genome, fitness, body and weight types are type parameters.

## Model

| member | source | states |
|---|---|---|
| Substages.FromTag | include/evolution.hpp:12-20 | an enumerator value names a kind exactly when it is below 7, and then it is the kind's declared value |
| Substages.TagRoundTrip | include/evolution.hpp:12-20 | every kind's tag is below 7 and reads back as that kind |
| Substages.CopiesSurvivors | include/evolution.hpp:235 | the survivor block runs exactly for ROULETTE, LINEAR, EXPONENTIAL and TOURNAMENT, which are exactly the kinds that do not invalidate slots |
| Loci.BuildLociTable | include/evolution.hpp:84-90 | the two loops fill the table with `LociTable` |
| Loci.LociTableShape | include/evolution.hpp:84-90 | length S*F*8 + 7*F, identity on the first S*F*8 entries, entry S*F*8+i is S*F*8+2i |
| Loci.LociTableStrictlyIncreasing | include/evolution.hpp:84-90 | the table is strictly increasing |
| Loci.LociTableLast | include/evolution.hpp:88-90 | the last offset is S*F*8 + 14F - 2 |
| Permutations.InsideOutShuffle | include/evolution.hpp:218-226 | the shuffle loop leaves `Shuffle(draws)`, which is a permutation of [0, n) |
| Permutations.ShuffleIsPermutation | include/evolution.hpp:218-226 | for every draw sequence with draw l in [0, l] the shuffle is a permutation of [0, n) |
| Permutations.ShuffleUnshuffle | include/evolution.hpp:218-226 | every permutation of [0, n) is the shuffle of some admissible draw sequence |
| Permutations.ShuffleInjective | include/evolution.hpp:218-226 | different draw sequences give different permutations, so the draws and the permutations correspond one to one |
| Permutations.PositionOfLast | include/evolution.hpp:225 | after the last step the largest index sits at the last draw and nowhere else |
| Permutations.UndoIsPermutation | include/evolution.hpp:222-225 | undoing the last step of a permutation of [0, l] leaves a permutation of [0, l) |
| Permutations.RedoStep | include/evolution.hpp:222-225 | redoing the last step on the undone prefix gives back the permutation |
| Mating.ScanParents | include/evolution.hpp:124-130 | `ok` is true exactly when m is not a parent |
| Mating.MaxDelta | include/evolution.hpp:121-138 | maxDelta bounds every parent-candidate distance and is either 0 or attained by some pair |
| Mating.MaxDeltaZero | include/evolution.hpp:121-138 | maxDelta is 0 exactly when all parent-candidate distances are 0 |
| Mating.ChoosePartner | include/evolution.hpp:139-160 | the argmin loop with early exit returns `Partner` |
| Mating.PartnerSpec | include/evolution.hpp:139-160 | the partner lies in [-1, n) and is never a parent; it is -1 exactly when no candidate scores strictly below FLT_MAX; otherwise earlier candidates score strictly more and later ones at least as much, unless the score was exactly 0 |
| Mating.PartnerIsFirstMinimum | include/evolution.hpp:146-156 | when no candidate scores exactly 0, the partner is the first candidate of least score |
| Mating.NormalisedScore | include/evolution.hpp:151 | the score is unordered (NaN) exactly when maxDelta is 0; when it is ordered and delta <= maxDelta, it lies in [desired - 1, desired] |
| Mating.AsWrittenNoPartnerWhenMaxDeltaZero | include/evolution.hpp:151-160 | as written, with maxDelta 0 (by `MaxDeltaZero`, exactly when every parent-candidate distance is 0) no candidate is ever accepted and the partner stays -1 |
| Mating.AsWrittenNoPartnerExample | include/evolution.hpp:151-161 | two identical genomes with parent 0 and candidate 1 leave the partner at -1 |
| Mating.CorrectedScore | include/evolution.hpp:151 | the corrected score is always ordered and at most `desired`, and it agrees with the source's score whenever maxDelta > 0 |
| Mating.CorrectedPartnerExists | include/evolution.hpp:139-160 | with the corrected score every parent gets a candidate partner whenever a candidate exists |
| Mating.AsWrittenPartnerExists | include/evolution.hpp:139-160 | as written, with maxDelta > 0 and a candidate within maxDelta of the parent, the parent gets a candidate partner |
| Mating.AssortativeMating | include/evolution.hpp:119-160 | maxDelta bounds every parent-candidate distance and is 0 or attained; one partner per parent, each `Partner` of line 151's scores (or of the corrected ones); as written a maxDelta of 0 leaves every partner at -1, and with maxDelta > 0 (or corrected) each partner is a candidate whenever one exists |
| Invalidation.Sort | include/evolution.hpp:259 | `std::sort` leaves an ascending rearrangement of the list |
| Invalidation.SortedPermutationUnique | include/evolution.hpp:259 | any two ascending rearrangements of a list are equal, so any sort gives `Sort` |
| Invalidation.SortOfAscending | include/evolution.hpp:259 | sorting an ascending list leaves it unchanged |
| Invalidation.SortMembers | include/evolution.hpp:259 | sorting keeps exactly the list's members |
| Invalidation.AppendRange | include/evolution.hpp:162 | a strictly ascending list below lo, followed by the run [lo, hi), stays strictly ascending |
| Plan.ProducedPrefix | include/evolution.hpp:248 | the cursor only advances |
| Plan.InvalidatedByShape | include/evolution.hpp:97-248 | the invalidation list is strictly ascending and holds only filled slots |
| Plan.InvalidatedByMembers | include/evolution.hpp:97-248 | a slot is listed exactly when it lies in the block of a crossover or mutate substage |
| Plan.InvalidatedInSomeBlock | include/evolution.hpp:97-248 | a listed slot lies in the block of some crossover or mutate substage |
| Plan.BlockInvalidated | include/evolution.hpp:97-248 | every slot of a crossover or mutate block is listed |
| Plan.SortInvalidated | include/evolution.hpp:259 | the sort before the redevelopment pass leaves the list as it is |
| Plan.RescoreFresh | include/evolution.hpp:266-276 | if every unlisted slot was scored with `previous`, every slot is scored with the effective weights afterwards |
| Plan.CopiedTags | include/evolution.hpp:244-246 | copied fitness values keep the weights they were computed with |
| Plan.AsWrittenStageStartKeepsStaleFitness | include/evolution.hpp:93-276 | two stages with bases 1 and 2 and a ranking-only substage: as written, the second stage leaves the slot scored with weights 1; corrected, with weights 2 |
| Plan.AsWrittenResetLeavesStale | include/evolution.hpp:93-276 | when stage i's reset is not harmless and every slot was scored with the weights in force, the first repeat leaves every unlisted slot with a tag other than its effective weights |
| Survivors.CommitOwns | include/evolution.hpp:250-252 | exchanging the handle arrays keeps each buffer owned by exactly one slot |
| Survivors.SwapAllOwns | include/evolution.hpp:239-243 | the exchange loop keeps each buffer owned by exactly one slot across both generations |
| Survivors.SwapAllKeepsHandles | include/evolution.hpp:239-243 | the multiset of handles across both generations is unchanged, even with repeated winners |
| Survivors.SwapAllFrame | include/evolution.hpp:239-243 | next-generation slots outside the block and current slots that are no winner keep their handles |
| Survivors.SwapAllFirstOccurrence | include/evolution.hpp:239-243 | the first time a winner is met, its slot gets the winner's own buffer |
| Survivors.SwapAllLastOccurrence | include/evolution.hpp:239-243 | after a winner's last occurrence, the winner holds the buffer that slot had |
| Survivors.SwapAllRepeatedWinner | include/evolution.hpp:239-243 | a repeated winner's later slot gets the scratch buffer the winner took at its previous occurrence, not the winner's body |
| Survivors.SwapAllIdentity | include/evolution.hpp:239-243 | winners 0..n-1 in order exchange the two generations' handle arrays |
| Survivors.Splice | include/evolution.hpp:236-246 | a block written at offset ig: the block holds the source values and every other slot is unchanged |
| Survivors.SurvivorsAreOwnPicks | include/evolution.hpp:100-237 | with the corrected offset the survivor block reads exactly the picks its own ranking substage wrote |
| Survivors.AsWrittenIgnoresOwnPicks | include/evolution.hpp:100-237 | as written, a block at offset ig >= its length reads the first winners, whatever the substage picked |
| Survivors.AsWrittenSecondSubstageExample | include/evolution.hpp:100-237 | a second ROULETTE substage that picks slot 1 copies slot 0 as written |
| Fill.StepFrame | include/evolution.hpp:98-248 | a substage changes no next-generation genome, fitness value or handle outside its own block |
| Fill.FillKeepsBlocks | include/evolution.hpp:96-249 | the substages' blocks do not overlap: after the whole loop each slot of substage i's block still holds what substage i wrote there |
| Fill.IdentityStep | include/evolution.hpp:235-246 | a ranking substage at cursor 0 picking 0, 1, ..., n-1 copies the current genomes and fitness values into the next generation and exchanges the two handle arrays |
| Fill.IdentityRepeat | include/evolution.hpp:96-258 | a repeat whose one ranking substage picks 0, 1, ..., n-1 gives back, after the commit, the same genomes, fitness values and handles in the current generation, as written and corrected |
| Fill.FillAllLineage | include/evolution.hpp:96-249 | two stores with the same genomes, handles and winners end the substage loop with the same genomes, handles and winners, whatever their fitness values |
| Fill.RepeatLineage | include/evolution.hpp:96-258 | one repeat's effect on genomes, handles and winners: the substage loop, then the commit; every sequence keeps n slots and every winner stays a slot |
| Fill.RepeatRunsIs | include/evolution.hpp:96-258 | when the substages fit the store, `RepeatRuns` means the store after the repeat is `Exchanged(FillAll(...))` of the store before |
| Fill.RepeatRunsFacts | include/evolution.hpp:96-258 | after a repeat the genomes, handles and winners are `RepeatLineage` of those before, and every current fitness value is the one the substage loop copied into the next generation |
| Fill.RepeatCarriesIs | include/evolution.hpp:236-258 | when the substages fit the store, `RepeatCarries` means every unlisted slot holds the next-generation fitness value of `FillAll` |
| Fill.CarriesFrame | include/evolution.hpp:266-270 | values that agree with carried ones on every unlisted slot are carried too, as the rescoring pass with unchanged weights leaves them |
| Fill.RepeatOfStore | include/evolution.hpp:96-258 | the genomes, handles and winners after a repeat are `RepeatLineage` of those before, whatever the fitness values |
| Fill.StageLineage | include/evolution.hpp:94-279 | the first j repeats of a stage, one `RepeatLineage` after another; every sequence keeps n slots |
| Fill.PlanLineage | include/evolution.hpp:92-280 | the first i stages of a plan, one `StageLineage` after another; every sequence keeps n slots |
| Fill.PlanRunsIs | include/evolution.hpp:92-280 | when a plan fits the population, `PlanRuns` of all its stages means the end lineage is `PlanLineage` of all its stages |
| Fill.IdentityRepeatLineage | include/evolution.hpp:96-258 | a repeat whose one ranking substage picks 0, 1, ..., n-1 keeps the current genomes and handles; the next genomes become the current ones and the winners are the picks |
| Fill.IdentityPlanLineage | include/evolution.hpp:92-280 | a plan of one stage with one such repeat fits the population and ends with the genomes and handles it started from |
| Plan.StageKeepsFresh | include/evolution.hpp:93-279 | if stage i starts from the weights in force (carried, or as written with every reset so far harmless), its last weights are those in force after stage i, and every slot is then scored with them |
| Scheduler.MutatedValues | include/evolution.hpp:227-231 | the MUTATE effect `Mutated` determines both genome arrays: the current one is `MutatedCurrent` and the next one has `MutatedCopies` spliced in at ig |
| Scheduler.StepOfSubstage | include/evolution.hpp:98-248 | the effects `RunSubstage` states on the six arrays are exactly `Fill.SubstageStep` |
| Scheduler.CopyBlock | include/evolution.hpp:236-238 | slot ig + l takes winner l's value; nothing else changes |
| Scheduler.SwapHandles | include/evolution.hpp:239-243 | the handle arrays end up as `SwapAll` of their old contents |
| Scheduler.RedevelopedSpec | include/evolution.hpp:260-264 | with no shared buffer, a listed slot's buffer holds its genome's body and every other buffer is unchanged |
| Scheduler.DevelopListed | include/evolution.hpp:260-264 | listed slots hold their genome's body; all other buffers of both generations keep their contents |
| Scheduler.DevelopInitial | include/evolution.hpp:71-80 | every slot holds its generated genome, the developed body and that body's fitness under the first stage's base weights |
| Scheduler.SubstageTags | include/evolution.hpp:97-248 | after every substage, each filled and unlisted slot carries a fitness value copied from the current generation |
| Scheduler.SubstageScores | include/evolution.hpp:236-246 | after every substage, each filled and unlisted slot holds the fitness of the body and weights it was scored from, copied with its fitness value |
| Scheduler.MutateBlock | include/evolution.hpp:227-231 | current genome permutation[l] is mutated in place and copied into slot ig + l, the block ig.. is returned for the list, and no other genome changes |
| Scheduler.RescoreSlots | include/evolution.hpp:266-276 | with unchanged weights exactly the listed slots are scored from their buffers under the effective weights, otherwise every slot is; the other slots keep their value |
| Scheduler.Population.constructor | include/evolution.hpp:54-80 | current generation in the caller's arrays, handles 0..n-1 and n..2n-1, `winners` all 0, the genomes are `initial`, each current slot's buffer holds its genome's body, each current fitness is that body's fitness under the first weights, and `Scored` holds |
| Scheduler.Population.RankWinners | include/evolution.hpp:100 | the oracle's picks are written at `winners + ig` and every winner stays a slot of the population |
| Scheduler.Population.CopySurvivors | include/evolution.hpp:236-246 | genome and fitness of winner l copied into slot ig + l, handles exchanged by `SwapAll`, ownership kept |
| Scheduler.Population.MutateSubstage | include/evolution.hpp:216-232 | the permutation is the shuffle; current genome permutation[l] is mutated in place and copied into slot ig + l; the block is listed; other slots are unchanged |
| Scheduler.Population.RecombineSubstage | include/evolution.hpp:115-214 | partners as `AssortativeMating` on the current genomes; as written a maxDelta of 0 leaves every partner at -1; the block ig..ig+individuals-1 is appended to the list; no genome, winner or fitness changes |
| Scheduler.Population.Execute | include/evolution.hpp:98-234 | the kind selects the executor: ranking kinds write their picks at `winners + ig` and change no genome; crossover kinds list their block and change no genome or winner; MUTATE mutates and copies as `Mutated` says with the shuffle a permutation, and changes no winner |
| Scheduler.Population.RunSubstage | include/evolution.hpp:98-248 | after the executor, ranking kinds copy genome, fitness and ledger entries of the winners `SurvivorBlock` reads (`winners[0..n)` as written, `winners[ig..ig+n)` corrected) into ig.., and exchange handles by `SwapAll`; other kinds leave fitness, handles and winners alone |
| Scheduler.Population.Survive | include/evolution.hpp:236-246 | genome, fitness, recorded body and recorded weights of winner l go to slot ig + l, the handles are exchanged by `SwapAll`, and the current generation and winners stay |
| Scheduler.Population.FillStep | include/evolution.hpp:97-248 | one substage turns the six arrays into `Fill.SubstageStep` of their old contents, adds its block to the list if it is a variation substage, and extends both ledger invariants over its block |
| Scheduler.Population.FillNext | include/evolution.hpp:96-249 | iteration i of the substage loop: the arrays go from `FillAll` of the first i substages to `FillAll` of the first i + 1, the cursor advances by substage i's count, and the list becomes `InvalidatedBy` of the first i + 1 substages |
| Scheduler.Population.RunSubstages | include/evolution.hpp:96-249 | the six arrays end as `Fill.FillAll` of their old contents; the list is `InvalidatedBy` of the substages, and every unlisted filled slot carries a copied tag and the fitness of its recorded body under its recorded weights |
| Scheduler.Population.Commit | include/evolution.hpp:250-258 | the three array pairs and the two halves of the ledger are exchanged; shape and ownership are kept |
| Scheduler.Population.Redevelop | include/evolution.hpp:259-265 | the list is sorted; a listed slot's buffer holds its genome's body; every other buffer of both generations is unchanged |
| Scheduler.Population.Rescore | include/evolution.hpp:266-276 | with unchanged weights exactly the listed slots get the fitness of their body under the effective weights, otherwise every slot does; the tags become `RescoreTags` and `Scored` holds again |
| Scheduler.Population.Generate | include/evolution.hpp:96-258 | the six arrays end as `Fill.Exchanged(Fill.FillAll(...))` of their old contents (`Fill.RepeatRuns`, which `Fill.RepeatRunsIs` turns into that equality); the list is `InvalidatedBy` of the substages, every unlisted slot holds the fitness of its recorded body and weights, and it was scored with `previous` if every slot was before |
| Scheduler.Population.Refresh | include/evolution.hpp:259-277 | the list is cleared; the listed slots, or every slot if the effective weights differ from `previous`, are rescored with the effective weights from their own buffers (`RescoreTags` for the tags); every other slot keeps its fitness value exactly; each listed slot holds its own body and that body's fitness; no genome, handle, winner or next-generation fitness value changes |
| Scheduler.Population.RunRepeat | include/evolution.hpp:94-278 | one repeat with effective weights `weights[0] + weights[1]*j`: `Scored` is kept, every tag is the effective weights if all were `previous` or the weights changed, listed slots hold their own body and its fitness; with changed weights every slot holds the fitness of its own buffer under them; with unchanged weights every unlisted slot keeps the fitness value the substage loop copied into it (`Fill.RepeatCarries`); and the genomes, handles and winners end as `Fill.RepeatLineage` of their old values |
| Scheduler.Population.RunStage | include/evolution.hpp:94-279 | `Scored` is kept; every tag is the last repeat's effective weights if all were `previous` before or the first repeat changes the weights; a stage without repeats changes no tag; the genomes, handles and winners end as `Fill.StageLineage` of all the repeats (`Fill.StageRuns`) |
| Scheduler.Population.RunPlan | include/evolution.hpp:92-280 | `Scored` is kept; with the corrected carried weights, or as written when every stage's reset is harmless, every final fitness value is computed with the weights of the last repeat that ran; the genomes, handles and winners end as `Fill.PlanLineage` of every stage (`Fill.PlanRuns`) |
| Scheduler.Population.PlanStage | include/evolution.hpp:93-279 | stage i starts from the stage's base weights as written or the carried weights corrected; the freshness of the weights in force moves on to stage i + 1, and so does the lineage: from `PlanLineage` of the first i stages to that of the first i + 1 |
| Scheduler.Population.Finalize | include/evolution.hpp:282-299 | the caller's arrays receive the current genomes and fitness values, and body i is read from slot i's buffer |
| Scheduler.Evolve | include/evolution.hpp:49-302 | as written throughout: the caller's arrays end with the final generation, body i is slot i's buffer, fitness i is the fitness of its recorded body under its recorded weights, and those weights are the last in force when every reset is harmless; the final genomes and handles are those of `final`, which is `Fill.PlanLineage` of every stage from `initial`, the allocated handles and winners 0 (`Fill.PlanRuns`, `Fill.PlanRunsIs`) |

## Left out

- The OpenGL context and the simulator calls are not modelled as such. `develop` stands for `loadGenome` followed by `developBody` and `birthBody`, and a body is read from its buffer directly instead of through `isolateBody`. GPU state is not modelled.
- The four ranking algorithms and the roulette choice of parents are external. Their outputs are inputs (`SubstageDraws.picks`) with `individuals` indices in [0, populationSize). `plan.maximizeFitness` and the kind parameters other than the mutation probability and the desired distance reach only those oracles, so they are not modelled.
- The random device, the Mersenne Twister and `uniform_int_distribution` are replaced by an input draw sequence with draw l in [0, l].
- `mutateGenome` is a pure function of the genome and the probability. Its own randomness is folded into that function.
- `generateGenome` and its randomness become the input sequence `initial`.
- The crossover operators are called with a destination written as a byte offset, `(uint8_t*) nextGenome + individualsGenerated + l` (lines 161 and 211). What they write is not modelled, so crossover slots keep their previous genome in the model. In the source the `uint8_t*` cast makes that offset count bytes, so the offspring's `sizeof(Genome_t)` bytes land from byte ig + l of the array: over genome 0 and the start of genome 1, not in slot ig + l. So in the source, too, slot ig + l keeps its previous genome and is then redeveloped. The overwrite of genome 0 (and of the start of genome 1) is not modelled, because genomes are opaque values here, not bytes. The partner choice, the invalidation of the slots and their redevelopment are modelled.
- With partner -1 the source passes the genome at index -1 to the crossover (see Findings). The model does not follow that call.
- The locus table is built by `Loci.BuildLociTable`, but it only feeds the crossover calls, so `Scheduler.Evolve` does not build it.
- `Mating.NormalisedScore`: the float division and the FLT_MAX bound are exact reals, so float rounding of `desired - dist/maxDelta` is not modelled. With maxDelta 0 the model gives every score as unordered (NaN). In the source that holds for delta 0 (0/0); a delta above 0 would give -inf instead. By `Mating.MaxDeltaZero`, maxDelta is 0 only when every parent-candidate distance is 0, so line 151 never sees that second input.
- Weights are compared with the weight type's own `==`. For `float` this includes NaN, and that is not modelled.
- Allocation and deallocation are not modelled: `new`, `delete[]`, and the `delete[] nextGenome` / `delete[] nextFitness` that free a caller array after an odd number of commits. Buffer contents are one `seq` indexed by handle.
- `memcpy` becomes an element-wise copy.
- Logging with `std::cout` is left out.
- `Scheduler.Population.RunPlan` requires a plan with at least one stage, because the initial scoring reads `plan.stages[0]`.
- Survivor bodies are not copied: the survivor block exchanges the two slots' buffer handles (lines 239-243), and the model follows that. A winner picked twice therefore gives its later slot the scratch buffer it took at its earlier occurrence (`Survivors.SwapAllRepeatedWinner`). That slot is a survivor, not a listed slot, so the redevelopment pass (lines 260-264) never rebuilds its body. Its stale body is rescored when the weights change (lines 272-275), and `evolve` returns it to the caller as that slot's body (lines 286-288).
- MUTATE mutates the current genome where it lies (line 228) and then copies it into the next generation (line 229). The model does the same.
- `int winners[populationSize]` (line 69) is left uninitialised, so a survivor block that reads winners no oracle has written yet reads indeterminate values. The model starts `winners` at all zeros, a value the source can hold but does not promise.
- `Substages.Substage.individuals` is an `int` in the source and a `nat` in the model. A negative count, which the source would pass to the executors and add to the cursor, is excluded by the type.
- The plan's contract that every stage with repeats produces exactly `populationSize` individuals (`Plan.PlanFits`) is a caller obligation. The source does not check it.
- The ledger of recorded bodies and weights is ghost state. The source keeps neither. The model records what each fitness value was computed from, so that freshness can be stated.
- The model does not relate bodies to genomes for slots outside the invalidation list; a copied slot holds whatever body its handle names.
- Buffer contents and fitness values are not folded into `Fill.StageLineage` and `Fill.PlanLineage`. Across a stage and the plan they are stated through the ledger invariants (`Scored`, the weights in force) and the buffers of listed slots.
- `Scheduler.Evolve` returns the next-generation genome array as allocated as the ghost `scratch`. That array is read only by crossover blocks, whose offspring write is not part of this model, and its allocation holds unspecified genomes.

## Findings

| source | as written | input that shows it | evidently intended | confidence | as-written member | corrected member |
|---|---|---|---|---|---|---|
| include/evolution.hpp:151 | every score is `desired - dist/float(maxDelta)`, here and in the copy at line 201 | every candidate at distance 0 from every parent, e.g. two identical genomes, parent 0: maxDelta is 0, every score is 0/0 = NaN, no `<` holds, and the partner stays -1 | with maxDelta 0 every normalised distance counts as 0, so a candidate is chosen | high (not executed) | Mating.AsWrittenNoPartnerWhenMaxDeltaZero | Mating.CorrectedPartnerExists |
| include/evolution.hpp:237-245 | the survivor block reads `winners[l]` in its three loops | a first ROULETTE substage picks [0] and a second picks [1]: the second block copies slot 0 again | read `winners[individualsGenerated + l]`, the block the oracle just wrote at line 100 | high (not executed) | Survivors.AsWrittenSecondSubstageExample | Survivors.SurvivorsAreOwnPicks |
| include/evolution.hpp:93 | `previousWeights` is reset to the stage's `weights[0]` at each stage | stage 0 with base 1, stage 1 with base 2 and increment 0, one ROULETTE substage: at stage 1 repeat 0 the weights equal `previousWeights`, nothing is rescored, and every fitness still uses weights 1 | carry `previousWeights` across stages, starting from stage 0's base used by the initial scoring | medium (not executed) | Plan.AsWrittenResetLeavesStale | Scheduler.Population.RunPlan |
