/**
 The generational scheduler of `evolve`: the population store with its two
 generations of genomes, fitness values and body-buffer handles, the substage
 executors that fill the next generation, the commit that exchanges the two,
 and the redevelopment and rescoring passes.

 Genomes, fitness values, bodies and weights are type parameters. The external
 collaborators are `Operators`: the developmental simulator as the function
 from a genome to the body it grows into, the fitness function (with the
 plan's targets fixed), the mutation operator, the genetic distance and the
 weight interpolation `weights[0] + weights[1] * j`.
 */
module Scheduler {
  import opened Substages
  import opened Invalidation
  import opened Survivors
  import opened Plan
  import Permutations
  import Mating
  import opened Fill

  datatype Operators<!Genome, Fitness, !Body, !Weights> = Operators(
    develop: Genome -> Body,
    fitness: (Body, Weights) -> Fitness,
    mutate: (Genome, real) -> Genome,
    distance: (Genome, Genome) -> nat,
    interpolate: (Weights, Weights, nat) -> Weights)

  /**
   Which of the three corrections the scheduler applies: the survivor block
   reading the winners its own substage wrote, the partner score treating a
   maxDelta of 0 as distance 0, and `previousWeights` carried across stages
   instead of reset at each stage. `evolve` as written applies none of them.
   */
  datatype Fixes = Fixes(survivorOffset: bool, zeroDistance: bool, carriedWeights: bool)

  const AsWritten := Fixes(false, false, false)
  const Corrected := Fixes(true, true, true)

  /** The copy loop of a survivor block: slot ig + l of dst takes the value of winner l. */
  method CopyBlock<T>(dst: array<T>, values: seq<T>, sources: seq<int>, ig: nat)
    requires SourcesIn(sources, |values|) && ig + |sources| <= dst.Length
    modifies dst
    ensures dst[..] == Splice(old(dst[..]), ig, Gather(values, sources))
  {
    for l := 0 to |sources|
      invariant forall k :: 0 <= k < dst.Length ==>
        dst[k] == if ig <= k < ig + l then values[sources[k - ig]] else old(dst[k])
    {
      dst[ig + l] := values[sources[l]];
    }
    assert dst[..] == Splice(old(dst[..]), ig, Gather(values, sources));
  }

  /** The exchange loop of a survivor block on the two handle arrays. */
  method SwapHandles(current: array<Handle>, next: array<Handle>, sources: seq<int>, ig: nat)
    requires current != next
    requires SourcesIn(sources, current.Length) && ig + |sources| <= next.Length
    modifies current, next
    ensures Gens(current[..], next[..]) == SwapAll(Gens(old(current[..]), old(next[..])), sources, ig)
  {
    ghost var g0 := Gens(current[..], next[..]);
    for l := 0 to |sources|
      invariant Gens(current[..], next[..]) == SwapAll(g0, sources[..l], ig)
    {
      var dummy := next[ig + l];
      next[ig + l] := current[sources[l]];
      current[sources[l]] := dummy;
      assert sources[..l + 1][..l] == sources[..l];
    }
    assert sources[..|sources|] == sources;
  }

  /**
   The buffer contents after the listed slots are developed in order, each
   into the buffer its handle names.
   */
  function Redeveloped<G, B>(b: seq<B>, handles: seq<Handle>, genomes: seq<G>, list: seq<int>,
                             develop: G -> B): (r: seq<B>)
    requires |handles| == |genomes| && forall k :: 0 <= k < |handles| ==> handles[k] < |b|
    requires forall i :: 0 <= i < |list| ==> 0 <= list[i] < |handles|
    ensures |r| == |b|
    decreases |list|
  {
    if list == [] then b
    else
      var last := |list| - 1;
      var slot := list[last];
      Redeveloped(b, handles, genomes, list[..last], develop)[handles[slot] := develop(genomes[slot])]
  }

  /**
   With no buffer shared between slots, a listed slot's buffer holds its
   genome's body afterwards, and every other buffer is unchanged.
   */
  lemma {:induction false} RedevelopedSpec<G, B>(b: seq<B>, handles: seq<Handle>, genomes: seq<G>, list: seq<int>,
                                                 develop: G -> B)
    requires |handles| == |genomes| && forall k :: 0 <= k < |handles| ==> handles[k] < |b|
    requires forall i :: 0 <= i < |list| ==> 0 <= list[i] < |handles|
    requires forall i, j :: 0 <= i < j < |handles| ==> handles[i] != handles[j]
    ensures forall k :: 0 <= k < |handles| ==>
      Redeveloped(b, handles, genomes, list, develop)[handles[k]] == if k in list then develop(genomes[k]) else b[handles[k]]
    ensures forall h :: 0 <= h < |b| && h !in handles ==> Redeveloped(b, handles, genomes, list, develop)[h] == b[h]
    decreases |list|
  {
    if list != [] {
      var last := |list| - 1;
      RedevelopedSpec(b, handles, genomes, list[..last], develop);
      assert forall k :: k in list <==> k in list[..last] || k == list[last];
    }
  }

  /**
   The loop of the redevelopment pass over the sorted list: each listed slot of
   the current generation gets its genome's body in the buffer it owns, and
   every other buffer of either generation keeps its contents.
   */
  method DevelopListed<G, B>(b: seq<B>, current: array<Handle>, next: array<Handle>, genomes: array<G>,
                             list: seq<int>, develop: G -> B) returns (developed: seq<B>)
    requires genomes.Length == current.Length && |b| == 2 * current.Length
    requires Owns(Gens(current[..], next[..]), current.Length)
    requires forall i :: 0 <= i < |list| ==> 0 <= list[i] < current.Length
    ensures |developed| == |b|
    ensures forall k :: 0 <= k < current.Length ==>
      developed[current[k]] == if k in list then develop(genomes[k]) else b[current[k]]
    ensures forall k :: 0 <= k < next.Length ==> developed[next[k]] == b[next[k]]
  {
    developed := b;
    for i := 0 to |list|
      invariant developed == Redeveloped(b, current[..], genomes[..], list[..i], develop)
    {
      var slot := list[i];
      developed := developed[current[slot] := develop(genomes[slot])];
      assert list[..i + 1][..i] == list[..i];
    }
    assert list[..|list|] == list;
    RedevelopedSpec(b, current[..], genomes[..], list, develop);
    assert forall k :: 0 <= k < next.Length ==> next[k] !in current[..];
  }

  /**
   The initial development (lines 71-80): every slot gets its generated genome,
   the body developed from it in the slot's own buffer and that body's fitness
   under the first weights. The second half of the buffers starts out blank.
   */
  method DevelopInitial<G, F, B(0), W>(genomes: array<G>, fitness: array<F>, initial: seq<G>,
                                       ops: Operators<G, F, B, W>, w: W) returns (developed: seq<B>)
    requires genomes.Length == |initial| && fitness.Length == |initial| && genomes as object != fitness
    modifies genomes, fitness
    ensures genomes[..] == initial && |developed| == 2 * |initial|
    ensures forall k :: 0 <= k < |initial| ==> developed[k] == ops.develop(initial[k])
    ensures forall k :: 0 <= k < |initial| ==> fitness[k] == ops.fitness(developed[k], w)
  {
    var n := |initial|;
    var store := new B[2 * n];
    developed := store[..];
    for i := 0 to n
      invariant |developed| == 2 * n
      invariant forall k :: 0 <= k < i ==> genomes[k] == initial[k] && developed[k] == ops.develop(initial[k])
      invariant forall k :: 0 <= k < i ==> fitness[k] == ops.fitness(developed[k], w)
    {
      genomes[i] := initial[i];
      developed := developed[i := ops.develop(genomes[i])];
      fitness[i] := ops.fitness(developed[i], w);
    }
    assert genomes[..] == initial;
  }

  /**
   One substage keeps the tag invariant of the fill loop: every slot filled so
   far and not in the invalidation list carries a fitness value copied from the
   current generation. A ranking substage copies its block from the current
   generation, and a variation substage lists its whole block.
   */
  lemma SubstageTags<W>(current: seq<W>, before: seq<W>, after: seq<W>, listed: seq<int>, relisted: seq<int>,
                        lo: nat, s: Substage, picks: seq<int>)
    requires lo + s.individuals <= |before|
    requires relisted == listed + (if Invalidates(s.kind) then Range(lo, lo + s.individuals) else [])
    requires CopiesSurvivors(s.kind) ==> |picks| == s.individuals && SourcesIn(picks, |current|)
    requires CopiesSurvivors(s.kind) ==> after == Splice(before, lo, Gather(current, picks))
    requires !CopiesSurvivors(s.kind) ==> after == before
    requires Carried(current, before, listed, lo)
    ensures |after| == |before|
    ensures Carried(current, after, relisted, lo + s.individuals)
  {
    forall k | 0 <= k < lo + s.individuals && k !in relisted
      ensures after[k] in current
    {
      if k >= lo {
        InRange(lo, lo + s.individuals, k);
        assert CopiesSurvivors(s.kind);
        assert after[k] == current[picks[k - lo]];
      }
    }
  }

  /**
   One substage keeps the score invariant of the fill loop: every slot filled
   so far and not in the invalidation list holds the fitness of the body it
   was scored from under the weights it was scored with. A ranking substage
   copies all three from scored slots of the current generation.
   */
  lemma SubstageScores<F, B, W>(fitness: seq<F>, bodies: seq<B>, tags: seq<W>, f: (B, W) -> F,
                                fitness0: seq<F>, bodies0: seq<B>, tags0: seq<W>,
                                fitness1: seq<F>, bodies1: seq<B>, tags1: seq<W>,
                                listed: seq<int>, relisted: seq<int>, lo: nat, s: Substage, picks: seq<int>)
    requires |fitness| == |bodies| == |tags| && CarriedScores(fitness, bodies, tags, f, [], |fitness|)
    requires lo + s.individuals <= |fitness0| == |bodies0| == |tags0|
    requires relisted == listed + (if Invalidates(s.kind) then Range(lo, lo + s.individuals) else [])
    requires CopiesSurvivors(s.kind) ==> |picks| == s.individuals && SourcesIn(picks, |fitness|)
    requires CopiesSurvivors(s.kind) ==>
      && fitness1 == Splice(fitness0, lo, Gather(fitness, picks))
      && bodies1 == Splice(bodies0, lo, Gather(bodies, picks))
      && tags1 == Splice(tags0, lo, Gather(tags, picks))
    requires !CopiesSurvivors(s.kind) ==> fitness1 == fitness0 && bodies1 == bodies0 && tags1 == tags0
    requires CarriedScores(fitness0, bodies0, tags0, f, listed, lo)
    ensures |fitness1| == |bodies1| == |tags1| == |fitness0|
    ensures CarriedScores(fitness1, bodies1, tags1, f, relisted, lo + s.individuals)
  {
    forall k | 0 <= k < lo + s.individuals && k !in relisted
      ensures fitness1[k] == f(bodies1[k], tags1[k])
    {
      if k >= lo {
        InRange(lo, lo + s.individuals, k);
        assert CopiesSurvivors(s.kind);
        var w := picks[k - lo];
        assert fitness1[k] == fitness[w] && bodies1[k] == bodies[w] && tags1[k] == tags[w];
      }
    }
  }

  /**
   The ghost record of how every fitness value was computed: for each
   generation, the weights each fitness value was computed with and the body
   it was computed from.
   */
  datatype Ledger<B, W> = Ledger(currentTags: seq<W>, nextTags: seq<W>, currentScored: seq<B>, nextScored: seq<B>)

  /**
   The arrays of a store with n individuals: one slot per individual in each,
   and the arrays that play different roles are different objects.
   */
  ghost predicate Shaped<G, F>(n: nat, thisGenome: array<G>, nextGenome: array<G>,
                               currentFitness: array<F>, nextFitness: array<F>,
                               thisGen: array<Handle>, nextGen: array<Handle>, winners: array<int>)
  {
    && thisGenome.Length == n && nextGenome.Length == n
    && currentFitness.Length == n && nextFitness.Length == n
    && thisGen.Length == n && nextGen.Length == n && winners.Length == n
    && thisGenome != nextGenome && currentFitness != nextFitness && thisGen != nextGen
    && thisGenome as object != currentFitness && thisGenome as object != nextFitness
    && nextGenome as object != currentFitness && nextGenome as object != nextFitness
    && thisGenome as object != thisGen && thisGenome as object != nextGen
    && nextGenome as object != thisGen && nextGenome as object != nextGen
    && currentFitness as object != thisGen && currentFitness as object != nextGen
    && nextFitness as object != thisGen && nextFitness as object != nextGen
    && thisGenome as object != winners && nextGenome as object != winners
    && currentFitness as object != winners && nextFitness as object != winners
    && thisGen as object != winners && nextGen as object != winners
  }

  /** Exchanging the two generations keeps the shape. */
  lemma ShapedCommit<G, F>(n: nat, thisGenome: array<G>, nextGenome: array<G>,
                           currentFitness: array<F>, nextFitness: array<F>,
                           thisGen: array<Handle>, nextGen: array<Handle>, winners: array<int>)
    requires Shaped(n, thisGenome, nextGenome, currentFitness, nextFitness, thisGen, nextGen, winners)
    ensures Shaped(n, nextGenome, thisGenome, nextFitness, currentFitness, nextGen, thisGen, winners)
  {
  }

  /**
   The effect of a MUTATE substage on the two genome arrays, from `current`
   and `next` to `current'` and `next'`: for l below `individuals` the current
   genome permutation[l] is replaced by its mutation and slot ig + l of the
   next generation receives a copy of it; every other genome of both arrays is
   unchanged.
   */
  ghost predicate Mutated<G>(current: seq<G>, next: seq<G>, current': seq<G>, next': seq<G>,
                             permutation: seq<int>, individuals: nat, ig: nat, probability: real,
                             mutate: (G, real) -> G)
    requires |current'| == |current| && |next'| == |next| && ig + individuals <= |next|
    requires individuals <= |permutation| && forall l :: 0 <= l < individuals ==> 0 <= permutation[l] < |current|
  {
    && (forall l :: 0 <= l < individuals ==>
          next'[ig + l] == mutate(current[permutation[l]], probability) && current'[permutation[l]] == next'[ig + l])
    && (forall k :: 0 <= k < |current| && k !in permutation[..individuals] ==> current'[k] == current[k])
    && (forall k :: 0 <= k < |next| && !(ig <= k < ig + individuals) ==> next'[k] == next[k])
  }

  /** `Mutated` pins the two genome arrays down to the MUTATE step of the fill. */
  lemma MutatedValues<G>(current: seq<G>, next: seq<G>, current': seq<G>, next': seq<G>,
                         permutation: seq<int>, individuals: nat, ig: nat, probability: real,
                         mutate: (G, real) -> G)
    requires |current'| == |current| && |next'| == |next| && ig + individuals <= |next|
    requires individuals <= |permutation| && forall l :: 0 <= l < individuals ==> 0 <= permutation[l] < |current|
    requires Mutated(current, next, current', next', permutation, individuals, ig, probability, mutate)
    ensures current' == MutatedCurrent(current, permutation, individuals, probability, mutate)
    ensures next' == Splice(next, ig, MutatedCopies(current, permutation, individuals, probability, mutate))
  {
    var mutated := MutatedCurrent(current, permutation, individuals, probability, mutate);
    forall k | 0 <= k < |current|
      ensures current'[k] == mutated[k]
    {
      if k in permutation[..individuals] {
        var l :| 0 <= l < individuals && permutation[..individuals][l] == k;
        assert permutation[l] == k;
      }
    }
    var spliced := Splice(next, ig, MutatedCopies(current, permutation, individuals, probability, mutate));
    forall k | 0 <= k < |next|
      ensures next'[k] == spliced[k]
    {
      if ig <= k < ig + individuals {
        assert next'[ig + (k - ig)] == mutate(current[permutation[k - ig]], probability);
      }
    }
  }

  /**
   The effects `RunSubstage` states, on the contents of the six arrays, are
   exactly one step of the fill.
   */
  lemma StepOfSubstage<G, F>(before: Store<G, F>, after: Store<G, F>, s: Substage, d: SubstageDraws, ig: nat,
                             mutate: (G, real) -> G, survivorOffset: bool)
    requires Fits(before, |before.thisGenome|) && Fits(after, |before.thisGenome|)
    requires DrawsFit(s, d, |before.thisGenome|) && ig + s.individuals <= |before.thisGenome|
    requires after.currentFitness == before.currentFitness
    requires CopiesSurvivors(s.kind) ==> after.winners == Splice(before.winners, ig, d.picks)
    requires CopiesSurvivors(s.kind) ==>
      && SourcesIn(SurvivorSourcesFor(survivorOffset, after.winners, ig, s.individuals), |before.thisGenome|)
      && after.thisGenome == before.thisGenome
      && after.nextGenome ==
           Splice(before.nextGenome, ig, Gather(after.thisGenome, SurvivorSourcesFor(survivorOffset, after.winners, ig, s.individuals)))
      && after.nextFitness ==
           Splice(before.nextFitness, ig, Gather(after.currentFitness, SurvivorSourcesFor(survivorOffset, after.winners, ig, s.individuals)))
      && after.gens == SwapAll(before.gens, SurvivorSourcesFor(survivorOffset, after.winners, ig, s.individuals), ig)
    requires !CopiesSurvivors(s.kind) ==>
      after.winners == before.winners && after.nextFitness == before.nextFitness && after.gens == before.gens
    requires s.kind == TwoPointsCo || s.kind == UniformCo ==>
      after.thisGenome == before.thisGenome && after.nextGenome == before.nextGenome
    requires s.kind == Mutate ==> Permutations.IsPermutation(Permutations.Shuffle(d.shuffle), |before.thisGenome|)
    requires s.kind == Mutate ==>
      Mutated(before.thisGenome, before.nextGenome, after.thisGenome, after.nextGenome,
              Permutations.Shuffle(d.shuffle), s.individuals, ig, s.param, mutate)
    ensures after == SubstageStep(before, s, d, ig, mutate, survivorOffset)
  {
    if s.kind == Mutate {
      MutatedValues(before.thisGenome, before.nextGenome, after.thisGenome, after.nextGenome,
                    Permutations.Shuffle(d.shuffle), s.individuals, ig, s.param, mutate);
    }
  }

  /**
   The loop of the MUTATE substage (lines 220-231): the genome permutation[l]
   is mutated in place, copied into slot ig + l of the next generation, and
   ig + l is pushed onto the invalidation list.
   */
  method MutateBlock<G>(current: array<G>, next: array<G>, permutation: seq<int>, individuals: nat, ig: nat,
                        probability: real, mutate: (G, real) -> G)
    returns (pushed: seq<int>)
    requires current != next && next.Length == current.Length
    requires Permutations.IsPermutation(permutation, current.Length)
    requires individuals <= current.Length && ig + individuals <= next.Length
    modifies current, next
    ensures pushed == Range(ig, ig + individuals)
    ensures Mutated(old(current[..]), old(next[..]), current[..], next[..], permutation, individuals, ig,
                    probability, mutate)
  {
    pushed := [];
    for l := 0 to individuals
      invariant forall l' :: 0 <= l' < l ==>
        next[ig + l'] == mutate(old(current[permutation[l']]), probability) &&
        current[permutation[l']] == next[ig + l']
      invariant forall k :: 0 <= k < current.Length && k !in permutation[..l] ==> current[k] == old(current[k])
      invariant forall k :: 0 <= k < next.Length && !(ig <= k < ig + l) ==> next[k] == old(next[k])
      invariant pushed == Range(ig, ig + l)
    {
      assert forall k :: k !in permutation[..l + 1] ==> k !in permutation[..l] && k != permutation[l];
      assert permutation[l] !in permutation[..l];
      current[permutation[l]] := mutate(current[permutation[l]], probability);
      next[ig + l] := current[permutation[l]];
      pushed := pushed + [ig + l];
      assert Range(ig, ig + l + 1) == Range(ig, ig + l) + [ig + l];
    }
  }

  /**
   The two rescoring loops (lines 266-276) on the fitness array: with
   unchanged weights only the listed slots are scored again, from the body
   their handle names; otherwise every slot is.
   */
  method RescoreSlots<F, B, W(==)>(scores: array<F>, buffers: seq<B>, handles: seq<Handle>, list: seq<int>,
                                   effective: W, previous: W, fitness: (B, W) -> F)
    requires scores.Length == |handles| && forall k :: 0 <= k < |handles| ==> handles[k] < |buffers|
    requires forall i :: 0 <= i < |list| ==> 0 <= list[i] < |handles|
    modifies scores
    ensures forall k :: 0 <= k < |handles| ==>
      scores[k] == if effective != previous || k in list then fitness(buffers[handles[k]], effective) else old(scores[k])
  {
    if effective == previous {
      for i := 0 to |list|
        invariant forall k :: 0 <= k < |handles| ==>
          scores[k] == if k in list[..i] then fitness(buffers[handles[k]], effective) else old(scores[k])
      {
        var k := list[i];
        scores[k] := fitness(buffers[handles[k]], effective);
        assert forall s :: s in list[..i + 1] <==> s in list[..i] || s == k;
      }
      assert list[..|list|] == list;
    } else {
      for k := 0 to |handles|
        invariant forall s :: 0 <= s < |handles| ==>
          scores[s] == if s < k then fitness(buffers[handles[s]], effective) else old(scores[s])
      {
        scores[k] := fitness(buffers[handles[k]], effective);
      }
    }
  }

  /**
   The state `evolve` keeps across generations. `thisGenome`/`nextGenome`,
   `currentFitness`/`nextFitness` and `thisGen`/`nextGen` are the current and
   the next generation; the first two pairs start out as the caller's arrays
   and a fresh one, and are exchanged at every commit. `buffers` holds the
   contents of the body buffers, indexed by handle. The ghost tags record the
   weights each fitness value was computed with, and the ghost scored bodies
   the body it was computed from.
   */
  class Population<Genome(0), Fitness(0), Body(0), Weights(==)> {
    const populationSize: nat
    const callerGenomes: array<Genome>
    const callerFitness: array<Fitness>
    const winners: array<int>
    ghost const Repr: set<object>
    var thisGenome: array<Genome>
    var nextGenome: array<Genome>
    var currentFitness: array<Fitness>
    var nextFitness: array<Fitness>
    var thisGen: array<Handle>
    var nextGen: array<Handle>
    var buffers: seq<Body>
    var invalidatedBodies: seq<int>
    ghost var commits: nat
    ghost var ledger: Ledger<Body, Weights>

    /**
     The store's shape: every array has a slot per individual, there are two
     body buffers per individual, and after an even number of commits the
     current generation lives in the caller's arrays, after an odd number the next.
     */
    ghost predicate Valid()
      reads this
    {
      && Shaped(populationSize, thisGenome, nextGenome, currentFitness, nextFitness, thisGen, nextGen, winners)
      && |buffers| == 2 * populationSize
      && |ledger.currentTags| == populationSize && |ledger.nextTags| == populationSize
      && |ledger.currentScored| == populationSize && |ledger.nextScored| == populationSize
      && Housed()
      && (if commits % 2 == 0 then thisGenome == callerGenomes && currentFitness == callerFitness
          else nextGenome == callerGenomes && nextFitness == callerFitness)
    }

    /**
     The handles of both generations name distinct buffers, and every entry
     of `winners` is a slot of the population.
     */
    ghost predicate Owned()
      reads this, thisGen, nextGen, winners
    {
      Owns(Gens(thisGen[..], nextGen[..]), populationSize) && SourcesIn(winners[..], populationSize)
    }

    /** The array references the commit exchanges. */
    ghost function Refs(): (array<Genome>, array<Genome>, array<Fitness>, array<Fitness>, array<Handle>, array<Handle>)
      reads this
    {
      (thisGenome, nextGenome, currentFitness, nextFitness, thisGen, nextGen)
    }

    /** The contents of the six arrays, as the fill on values sees them. */
    ghost function Snapshot(): Store<Genome, Fitness>
      reads this, thisGenome, nextGenome, currentFitness, nextFitness, thisGen, nextGen, winners
    {
      Store(thisGenome[..], nextGenome[..], currentFitness[..], nextFitness[..], Gens(thisGen[..], nextGen[..]), winners[..])
    }

    /** Every array the store uses is one it owns. */
    ghost predicate Housed()
      reads this
    {
      && thisGenome in Repr && nextGenome in Repr && currentFitness in Repr && nextFitness in Repr
      && thisGen in Repr && nextGen in Repr && winners in Repr
    }

    /**
     Every fitness value of the current generation is the fitness function
     applied to the body it was scored from and the weights it was scored with.
     */
    ghost predicate Scored(fitness: (Body, Weights) -> Fitness)
      reads this, currentFitness
    {
      && currentFitness.Length == |ledger.currentScored| == |ledger.currentTags| == populationSize
      && CarriedScores(currentFitness[..], ledger.currentScored, ledger.currentTags, fitness, [], populationSize)
    }

    /** Every fitness value of the current generation was computed with weights w. */
    ghost predicate ScoredWith(w: Weights)
      reads this
    {
      forall k :: 0 <= k < |ledger.currentTags| ==> ledger.currentTags[k] == w
    }

    /**
     Allocation and the initial development (lines 55-80): the current
     generation takes the caller's genome and fitness arrays, every genome is
     generated (here: taken from `initial`), developed into its own buffer and
     scored with the first stage's base weights.
     */
    constructor (genomes: array<Genome>, fitness: array<Fitness>, initial: seq<Genome>,
                 ops: Operators<Genome, Fitness, Body, Weights>, initialWeights: Weights)
      requires genomes.Length == |initial| && fitness.Length == |initial|
      requires genomes as object != fitness
      modifies genomes, fitness
      ensures Valid() && Owned() && Scored(ops.fitness)
      ensures populationSize == |initial| && callerGenomes == genomes && callerFitness == fitness
      ensures thisGenome == genomes && currentFitness == fitness
      ensures commits == 0 && invalidatedBodies == []
      ensures fresh(nextGenome) && fresh(nextFitness) && fresh(thisGen) && fresh(nextGen) && fresh(winners)
      ensures Repr == {genomes as object, fitness, nextGenome, nextFitness, thisGen, nextGen, winners}
      ensures Gens(thisGen[..], nextGen[..]) == InitialGens(|initial|)
      ensures thisGenome[..] == initial && winners[..] == seq(|initial|, _ => 0)
      ensures forall i :: 0 <= i < populationSize ==> buffers[thisGen[i]] == ops.develop(initial[i])
      ensures forall i :: 0 <= i < populationSize ==> currentFitness[i] == ops.fitness(buffers[thisGen[i]], initialWeights)
      ensures ScoredWith(initialWeights)
    {
      var n := genomes.Length;
      populationSize := n;
      callerGenomes := genomes;
      callerFitness := fitness;
      thisGenome := genomes;
      nextGenome := new Genome[n];
      thisGen := new Handle[n](i => i);
      nextGen := new Handle[n](i => n + i);
      currentFitness := fitness;
      nextFitness := new Fitness[n];
      winners := new int[n](_ => 0);
      Repr := {genomes as object, fitness, nextGenome, nextFitness, thisGen, nextGen, winners};
      invalidatedBodies := [];
      commits := 0;
      var developed := DevelopInitial(genomes, fitness, initial, ops, initialWeights);
      buffers := developed;
      ledger := Ledger(seq(n, _ => initialWeights), seq(n, _ => initialWeights), developed[..n], developed[..n]);
      new;
      assert thisGenome[..] == initial && winners[..] == seq(n, _ => 0);
      assert Gens(thisGen[..], nextGen[..]) == InitialGens(n);
    }

    /** The ranking oracle's output written into the winner block at offset ig (line 100 and its three siblings). */
    method RankWinners(picks: seq<int>, ig: nat)
      requires Valid() && Owned() && ig + |picks| <= populationSize && SourcesIn(picks, populationSize)
      modifies winners
      ensures Owned()
      ensures winners[..] == Splice(old(winners[..]), ig, picks)
    {
      for l := 0 to |picks|
        invariant forall k :: 0 <= k < winners.Length ==>
          winners[k] == if ig <= k < ig + l then picks[k - ig] else old(winners[k])
      {
        winners[ig + l] := picks[l];
      }
    }

    /**
     The survivor block (lines 236-246): genome and fitness of winner l are
     copied into slot ig + l, and the two slots exchange their body buffers.
     */
    method CopySurvivors(sources: seq<int>, ig: nat)
      requires Valid() && Owned()
      requires SourcesIn(sources, populationSize) && ig + |sources| <= populationSize
      modifies nextGenome, nextFitness, thisGen, nextGen
      ensures Owned()
      ensures nextGenome[..] == Splice(old(nextGenome[..]), ig, Gather(thisGenome[..], sources))
      ensures nextFitness[..] == Splice(old(nextFitness[..]), ig, Gather(currentFitness[..], sources))
      ensures Gens(thisGen[..], nextGen[..]) == SwapAll(Gens(old(thisGen[..]), old(nextGen[..])), sources, ig)
    {
      ghost var w := winners[..];
      CopyBlock(nextGenome, thisGenome[..], sources, ig);
      SwapHandles(thisGen, nextGen, sources, ig);
      CopyBlock(nextFitness, currentFitness[..], sources, ig);
      SwapAllOwns(Gens(old(thisGen[..]), old(nextGen[..])), populationSize, sources, ig);
      assert winners[..] == w;
    }

    /**
     The MUTATE substage (lines 216-232): a shuffle of all slots, then for the
     first `individuals` entries of the permutation the current genome is
     mutated where it lies and copied into slot ig + l, which is invalidated.
     */
    method MutateSubstage(individuals: nat, draws: seq<int>, probability: real, ig: nat,
                          mutate: (Genome, real) -> Genome)
      returns (permutation: seq<int>)
      requires Valid() && Owned()
      requires |draws| == populationSize && Permutations.ValidDraws(draws)
      requires individuals <= populationSize && ig + individuals <= populationSize
      modifies this, thisGenome, nextGenome
      ensures Valid() && Owned() && Refs() == old(Refs())
      ensures buffers == old(buffers) && commits == old(commits) && ledger == old(ledger)
      ensures permutation == Permutations.Shuffle(draws) && Permutations.IsPermutation(permutation, populationSize)
      ensures invalidatedBodies == old(invalidatedBodies) + Range(ig, ig + individuals)
      ensures Mutated(old(thisGenome[..]), old(nextGenome[..]), thisGenome[..], nextGenome[..],
                      permutation, individuals, ig, probability, mutate)
    {
      permutation := Permutations.InsideOutShuffle(populationSize, draws);
      var pushed := MutateBlock(thisGenome, nextGenome, permutation, individuals, ig, probability, mutate);
      invalidatedBodies := invalidatedBodies + pushed;
    }

    /**
     The TWO_POINTS_CO and UNIFORM_CO substages (lines 115-214): the parents
     come from the roulette oracle, each takes a partner by assortative mating,
     and each offspring slot ig + l is invalidated. As written, a maxDelta of 0
     leaves every partner at -1.
     */
    method RecombineSubstage(parents: seq<int>, desired: real, ig: nat, distance: (Genome, Genome) -> nat,
                             corrected: bool)
      returns (maxDelta: nat, partners: seq<int>)
      requires Valid() && Owned()
      requires Mating.ParentsInRange(parents, populationSize) && ig + |parents| <= populationSize
      modifies this
      ensures Valid() && Owned() && Refs() == old(Refs())
      ensures buffers == old(buffers) && commits == old(commits) && ledger == old(ledger)
      ensures invalidatedBodies == old(invalidatedBodies) + Range(ig, ig + |parents|)
      ensures |partners| == |parents|
      ensures forall l :: 0 <= l < |parents| ==>
        partners[l] == Mating.Partner(populationSize, parents,
                                      Mating.ParentScores(corrected, thisGenome[..], parents[l], desired, maxDelta, distance))
      ensures (corrected || maxDelta > 0) && desired < Mating.FltMax &&
              (exists m :: Mating.IsCandidate(m, populationSize, parents)) ==>
        forall l :: 0 <= l < |parents| ==> Mating.IsCandidate(partners[l], populationSize, parents)
      ensures !corrected && maxDelta == 0 ==> forall l :: 0 <= l < |parents| ==> partners[l] == -1
    {
      maxDelta, partners := Mating.AssortativeMating(thisGenome[..], parents, desired, distance, corrected);
      var pushed := invalidatedBodies;
      for l := 0 to |parents|
        invariant pushed == old(invalidatedBodies) + Range(ig, ig + l)
      {
        pushed := pushed + [ig + l];
        assert Range(ig, ig + l + 1) == Range(ig, ig + l) + [ig + l];
      }
      invalidatedBodies := pushed;
    }

    /**
     The switch on the substage kind (lines 98-234): ranking kinds write their
     picks into `winners`, the recombination kinds choose partners and change
     no genome, and MUTATE mutates and copies.
     */
    method Execute(s: Substage, d: SubstageDraws, ig: nat, ops: Operators<Genome, Fitness, Body, Weights>, fixes: Fixes)
      requires Valid() && Owned()
      requires DrawsFit(s, d, populationSize) && ig + s.individuals <= populationSize
      modifies this, thisGenome, nextGenome, winners
      ensures Valid() && Owned() && Refs() == old(Refs())
      ensures buffers == old(buffers) && commits == old(commits) && ledger == old(ledger)
      ensures invalidatedBodies ==
        old(invalidatedBodies) + (if Invalidates(s.kind) then Range(ig, ig + s.individuals) else [])
      ensures CopiesSurvivors(s.kind) ==> winners[..] == Splice(old(winners[..]), ig, d.picks)
      ensures !CopiesSurvivors(s.kind) ==> winners[..] == old(winners[..])
      ensures s.kind != Mutate ==> thisGenome[..] == old(thisGenome[..]) && nextGenome[..] == old(nextGenome[..])
      ensures s.kind == Mutate ==> Permutations.IsPermutation(Permutations.Shuffle(d.shuffle), populationSize)
      ensures s.kind == Mutate ==>
        Mutated(old(thisGenome[..]), old(nextGenome[..]), thisGenome[..], nextGenome[..],
                Permutations.Shuffle(d.shuffle), s.individuals, ig, s.param, ops.mutate)
    {
      ghost var current, next, picked := thisGenome[..], nextGenome[..], winners[..];
      match s.kind
      case Roulette | Linear | Exponential | Tournament =>
        assert CopiesSurvivors(s.kind) && !Invalidates(s.kind);
        RankWinners(d.picks, ig);
        assert thisGenome[..] == current && nextGenome[..] == next;
      case TwoPointsCo | UniformCo =>
        assert !CopiesSurvivors(s.kind) && Invalidates(s.kind);
        var maxDelta, partners := RecombineSubstage(d.picks, s.param, ig, ops.distance, fixes.zeroDistance);
        assert thisGenome[..] == current && nextGenome[..] == next && winners[..] == picked;
      case Mutate =>
        var permutation := MutateSubstage(s.individuals, d.shuffle, s.param, ig, ops.mutate);
        assert winners[..] == picked;
    }

    /** The winners the survivor block of a substage at offset ig with n individuals reads. */
    function SurvivorBlock(fixes: Fixes, ig: nat, n: nat): seq<int>
      requires ig + n <= winners.Length
      reads winners
    {
      SurvivorSourcesFor(fixes.survivorOffset, winners[..], ig, n)
    }

    /**
     One substage (lines 98-248): the executor its kind selects, then, for the
     four ranking kinds only, the survivor block. As written the block reads
     the winners at offset 0; with the corrected offset it reads the ones the
     oracle just wrote.
     */
    method RunSubstage(s: Substage, d: SubstageDraws, ig: nat, ops: Operators<Genome, Fitness, Body, Weights>,
                       fixes: Fixes)
      requires Valid() && Owned()
      requires DrawsFit(s, d, populationSize) && ig + s.individuals <= populationSize
      modifies this, thisGenome, nextGenome, nextFitness, thisGen, nextGen, winners
      ensures Valid() && Owned() && Refs() == old(Refs())
      ensures buffers == old(buffers) && commits == old(commits)
      ensures ledger.currentTags == old(ledger.currentTags) && ledger.currentScored == old(ledger.currentScored)
      ensures invalidatedBodies ==
        old(invalidatedBodies) + (if Invalidates(s.kind) then Range(ig, ig + s.individuals) else [])
      ensures CopiesSurvivors(s.kind) ==> winners[..] == Splice(old(winners[..]), ig, d.picks)
      ensures CopiesSurvivors(s.kind) ==>
        && SourcesIn(SurvivorBlock(fixes, ig, s.individuals), populationSize)
        && thisGenome[..] == old(thisGenome[..])
        && nextGenome[..] == Splice(old(nextGenome[..]), ig, Gather(thisGenome[..], SurvivorBlock(fixes, ig, s.individuals)))
        && nextFitness[..] == Splice(old(nextFitness[..]), ig, Gather(currentFitness[..], SurvivorBlock(fixes, ig, s.individuals)))
        && ledger.nextTags == Splice(old(ledger.nextTags), ig, Gather(ledger.currentTags, SurvivorBlock(fixes, ig, s.individuals)))
        && ledger.nextScored == Splice(old(ledger.nextScored), ig, Gather(ledger.currentScored, SurvivorBlock(fixes, ig, s.individuals)))
        && Gens(thisGen[..], nextGen[..]) ==
             SwapAll(Gens(old(thisGen[..]), old(nextGen[..])), SurvivorBlock(fixes, ig, s.individuals), ig)
      ensures !CopiesSurvivors(s.kind) ==>
        && winners[..] == old(winners[..])
        && nextFitness[..] == old(nextFitness[..]) && ledger.nextTags == old(ledger.nextTags) && ledger.nextScored == old(ledger.nextScored)
        && thisGen[..] == old(thisGen[..]) && nextGen[..] == old(nextGen[..])
      ensures s.kind == TwoPointsCo || s.kind == UniformCo ==>
        thisGenome[..] == old(thisGenome[..]) && nextGenome[..] == old(nextGenome[..])
      ensures s.kind == Mutate ==> Permutations.IsPermutation(Permutations.Shuffle(d.shuffle), populationSize)
      ensures s.kind == Mutate ==>
        Mutated(old(thisGenome[..]), old(nextGenome[..]), thisGenome[..], nextGenome[..],
                Permutations.Shuffle(d.shuffle), s.individuals, ig, s.param, ops.mutate)
    {
      Execute(s, d, ig, ops, fixes);
      if CopiesSurvivors(s.kind) {
        Survive(SurvivorBlock(fixes, ig, s.individuals), ig);
      }
    }

    /**
     The survivor block with its bookkeeping: the copied slots take the
     body and weights their fitness was scored from along with it.
     */
    method Survive(sources: seq<int>, ig: nat)
      requires Valid() && Owned()
      requires SourcesIn(sources, populationSize) && ig + |sources| <= populationSize
      modifies this, nextGenome, nextFitness, thisGen, nextGen
      ensures Valid() && Owned() && Refs() == old(Refs())
      ensures buffers == old(buffers) && commits == old(commits) && invalidatedBodies == old(invalidatedBodies)
      ensures ledger.currentTags == old(ledger.currentTags) && ledger.currentScored == old(ledger.currentScored)
      ensures thisGenome[..] == old(thisGenome[..]) && winners[..] == old(winners[..])
      ensures nextGenome[..] == Splice(old(nextGenome[..]), ig, Gather(thisGenome[..], sources))
      ensures nextFitness[..] == Splice(old(nextFitness[..]), ig, Gather(currentFitness[..], sources))
      ensures ledger.nextTags == Splice(old(ledger.nextTags), ig, Gather(ledger.currentTags, sources))
      ensures ledger.nextScored == Splice(old(ledger.nextScored), ig, Gather(ledger.currentScored, sources))
      ensures Gens(thisGen[..], nextGen[..]) == SwapAll(Gens(old(thisGen[..]), old(nextGen[..])), sources, ig)
    {
      CopySurvivors(sources, ig);
      ledger := ledger.(nextTags := Splice(ledger.nextTags, ig, Gather(ledger.currentTags, sources)),
                        nextScored := Splice(ledger.nextScored, ig, Gather(ledger.currentScored, sources)));
    }

    /**
     One step of the substage loop: the substage at write cursor ig, which
     extends both fill invariants over its block.
     */
    method FillStep(s: Substage, d: SubstageDraws, ig: nat, ops: Operators<Genome, Fitness, Body, Weights>,
                    fixes: Fixes)
      requires Valid() && Owned() && Scored(ops.fitness)
      requires DrawsFit(s, d, populationSize) && ig + s.individuals <= populationSize
      requires Carried(ledger.currentTags, ledger.nextTags, invalidatedBodies, ig)
      requires CarriedScores(nextFitness[..], ledger.nextScored, ledger.nextTags, ops.fitness, invalidatedBodies, ig)
      modifies this, thisGenome, nextGenome, nextFitness, thisGen, nextGen, winners
      ensures Valid() && Owned() && Scored(ops.fitness) && Refs() == old(Refs())
      ensures buffers == old(buffers) && commits == old(commits)
      ensures ledger.currentTags == old(ledger.currentTags) && ledger.currentScored == old(ledger.currentScored)
      ensures invalidatedBodies ==
        old(invalidatedBodies) + (if Invalidates(s.kind) then Range(ig, ig + s.individuals) else [])
      ensures Carried(ledger.currentTags, ledger.nextTags, invalidatedBodies, ig + s.individuals)
      ensures CarriedScores(nextFitness[..], ledger.nextScored, ledger.nextTags, ops.fitness, invalidatedBodies, ig + s.individuals)
      ensures Fits(old(Snapshot()), populationSize)
      ensures Snapshot() == SubstageStep(old(Snapshot()), s, d, ig, ops.mutate, fixes.survivorOffset)
    {
      ghost var tags0, scored0, fitness0 := ledger.nextTags, ledger.nextScored, nextFitness[..];
      ghost var listed := invalidatedBodies;
      ghost var before := Snapshot();
      RunSubstage(s, d, ig, ops, fixes);
      StepOfSubstage(before, Snapshot(), s, d, ig, ops.mutate, fixes.survivorOffset);
      ghost var sources := SurvivorBlock(fixes, ig, s.individuals);
      SubstageTags(ledger.currentTags, tags0, ledger.nextTags, listed, invalidatedBodies, ig, s, sources);
      SubstageScores(currentFitness[..], ledger.currentScored, ledger.currentTags, ops.fitness, fitness0, scored0, tags0,
                     nextFitness[..], ledger.nextScored, ledger.nextTags, listed, invalidatedBodies, ig, s, sources);
    }

    /**
     Iteration i of the substage loop: substage i runs at the cursor its
     predecessors left, and the loop's invariants move from the first i
     substages to the first i + 1.
     */
    method FillNext(ss: seq<Substage>, ds: seq<SubstageDraws>, i: nat, ig: nat, ghost start: Store<Genome, Fitness>,
                    ops: Operators<Genome, Fitness, Body, Weights>, fixes: Fixes)
      requires Valid() && Owned() && Scored(ops.fitness)
      requires RepeatFits(ss, ds, populationSize) && Produced(ss) <= populationSize && i < |ss|
      requires ig == Produced(ss[..i]) <= Produced(ss) && invalidatedBodies == InvalidatedBy(ss[..i])
      requires Carried(ledger.currentTags, ledger.nextTags, invalidatedBodies, ig)
      requires CarriedScores(nextFitness[..], ledger.nextScored, ledger.nextTags, ops.fitness, invalidatedBodies, ig)
      requires Fits(start, populationSize) && RepeatFits(ss[..i], ds[..i], populationSize)
      requires Snapshot() == FillAll(start, ss[..i], ds[..i], ops.mutate, fixes.survivorOffset)
      modifies this, thisGenome, nextGenome, nextFitness, thisGen, nextGen, winners
      ensures Valid() && Owned() && Scored(ops.fitness) && Refs() == old(Refs())
      ensures buffers == old(buffers) && commits == old(commits)
      ensures ledger.currentTags == old(ledger.currentTags) && ledger.currentScored == old(ledger.currentScored)
      ensures ig + ss[i].individuals == Produced(ss[..i + 1]) <= Produced(ss)
      ensures invalidatedBodies == InvalidatedBy(ss[..i + 1])
      ensures Carried(ledger.currentTags, ledger.nextTags, invalidatedBodies, ig + ss[i].individuals)
      ensures CarriedScores(nextFitness[..], ledger.nextScored, ledger.nextTags, ops.fitness, invalidatedBodies, ig + ss[i].individuals)
      ensures RepeatFits(ss[..i + 1], ds[..i + 1], populationSize)
      ensures Snapshot() == FillAll(start, ss[..i + 1], ds[..i + 1], ops.mutate, fixes.survivorOffset)
    {
      StepInvalidated(ss, i);
      ProducedPrefix(ss, i + 1);
      FillAllStep(start, ss, ds, i, ops.mutate, fixes.survivorOffset);
      FillStep(ss[i], ds[i], ig, ops, fixes);
    }

    /**
     The substage loop of one repeat (lines 96-249): the write cursor starts at
     0 and advances by each substage's count. Afterwards the invalidation list
     is the variation substages' blocks, and every other filled slot carries a
     fitness value copied, with its body and weights, from a scored slot of the
     current generation.
     */
    method RunSubstages(ss: seq<Substage>, ds: seq<SubstageDraws>, ops: Operators<Genome, Fitness, Body, Weights>,
                        fixes: Fixes)
      requires Valid() && Owned() && Scored(ops.fitness) && invalidatedBodies == []
      requires RepeatFits(ss, ds, populationSize) && Produced(ss) <= populationSize
      modifies this, thisGenome, nextGenome, nextFitness, thisGen, nextGen, winners
      ensures Valid() && Owned() && Scored(ops.fitness) && Refs() == old(Refs())
      ensures buffers == old(buffers) && commits == old(commits)
      ensures ledger.currentTags == old(ledger.currentTags) && ledger.currentScored == old(ledger.currentScored)
      ensures invalidatedBodies == InvalidatedBy(ss)
      ensures Carried(ledger.currentTags, ledger.nextTags, invalidatedBodies, Produced(ss))
      ensures CarriedScores(nextFitness[..], ledger.nextScored, ledger.nextTags, ops.fitness, invalidatedBodies, Produced(ss))
      ensures Fits(old(Snapshot()), populationSize)
      ensures Snapshot() == FillAll(old(Snapshot()), ss, ds, ops.mutate, fixes.survivorOffset)
    {
      ghost var start := Snapshot();
      var individualsGenerated := 0;
      for i := 0 to |ss|
        invariant Valid() && Owned() && Scored(ops.fitness) && Refs() == old(Refs())
        invariant buffers == old(buffers) && commits == old(commits)
        invariant ledger.currentTags == old(ledger.currentTags) && ledger.currentScored == old(ledger.currentScored)
        invariant individualsGenerated == Produced(ss[..i]) <= Produced(ss)
        invariant invalidatedBodies == InvalidatedBy(ss[..i])
        invariant Carried(ledger.currentTags, ledger.nextTags, invalidatedBodies, individualsGenerated)
        invariant CarriedScores(nextFitness[..], ledger.nextScored, ledger.nextTags, ops.fitness, invalidatedBodies, individualsGenerated)
        invariant Fits(start, populationSize) && RepeatFits(ss[..i], ds[..i], populationSize)
        invariant Snapshot() == FillAll(start, ss[..i], ds[..i], ops.mutate, fixes.survivorOffset)
      {
        FillNext(ss, ds, i, individualsGenerated, start, ops, fixes);
        individualsGenerated := individualsGenerated + ss[i].individuals;
      }
      assert ss[..|ss|] == ss && ds[..|ds|] == ds;
    }

    /** The commit (lines 250-258): the two generations exchange all three array pairs. */
    method Commit()
      requires Valid() && Owned()
      modifies this
      ensures Valid()
      ensures Owned()
      ensures thisGenome == old(nextGenome) && nextGenome == old(thisGenome)
      ensures currentFitness == old(nextFitness) && nextFitness == old(currentFitness)
      ensures thisGen == old(nextGen) && nextGen == old(thisGen)
      ensures ledger == Ledger(old(ledger.nextTags), old(ledger.currentTags), old(ledger.nextScored), old(ledger.currentScored))
      ensures commits == old(commits) + 1
      ensures buffers == old(buffers) && invalidatedBodies == old(invalidatedBodies)
    {
      ghost var g := Gens(thisGen[..], nextGen[..]);
      CommitOwns(g, populationSize);
      ShapedCommit(populationSize, thisGenome, nextGenome, currentFitness, nextFitness, thisGen, nextGen, winners);
      thisGenome, nextGenome := nextGenome, thisGenome;
      currentFitness, nextFitness := nextFitness, currentFitness;
      thisGen, nextGen := nextGen, thisGen;
      ledger := Ledger(ledger.nextTags, ledger.currentTags, ledger.nextScored, ledger.currentScored);
      commits := commits + 1;
    }

    /**
     The redevelopment pass (lines 259-265): the list is sorted, and each listed
     slot's genome is developed into that slot's own buffer. Because no two
     slots share a buffer, no other slot's body changes.
     */
    method Redevelop(develop: Genome -> Body)
      requires Valid() && Owned()
      requires forall k :: k in invalidatedBodies ==> 0 <= k < populationSize
      modifies this
      ensures Valid()
      ensures Owned()
      ensures Refs() == old(Refs())
      ensures commits == old(commits) && ledger == old(ledger)
      ensures invalidatedBodies == Sort(old(invalidatedBodies))
      ensures forall k :: 0 <= k < populationSize ==>
        buffers[thisGen[k]] == if k in old(invalidatedBodies) then develop(thisGenome[k]) else old(buffers[thisGen[k]])
      ensures forall k :: 0 <= k < populationSize ==> buffers[nextGen[k]] == old(buffers[nextGen[k]])
    {
      var listed := invalidatedBodies;
      SortMembers(listed);
      var sorted := Sort(listed);
      assert forall i :: 0 <= i < |sorted| ==> sorted[i] in listed;
      var developed := DevelopListed(buffers, thisGen, nextGen, thisGenome, sorted, develop);
      assert forall k :: 0 <= k < populationSize ==>
        developed[thisGen[k]] == if k in listed then develop(thisGenome[k]) else buffers[thisGen[k]];
      invalidatedBodies, buffers := sorted, developed;
    }

    /**
     The rescoring pass (lines 266-276): with the effective weights equal to
     `previous`, only the listed slots are scored again; otherwise every slot
     is. A rescored slot is scored from its own buffer, so if every other slot
     held the fitness of its scored body, every slot does afterwards.
     */
    method Rescore(effective: Weights, previous: Weights, fitness: (Body, Weights) -> Fitness)
      requires Valid() && Owned()
      requires forall i :: 0 <= i < |invalidatedBodies| ==> 0 <= invalidatedBodies[i] < populationSize
      requires CarriedScores(currentFitness[..], ledger.currentScored, ledger.currentTags, fitness, invalidatedBodies, populationSize)
      modifies this, currentFitness
      ensures Valid() && Owned() && Refs() == old(Refs())
      ensures buffers == old(buffers) && invalidatedBodies == old(invalidatedBodies)
      ensures commits == old(commits) && ledger.nextTags == old(ledger.nextTags) && ledger.nextScored == old(ledger.nextScored)
      ensures forall k :: 0 <= k < populationSize ==>
        currentFitness[k] == if effective != previous || k in invalidatedBodies
                             then fitness(buffers[thisGen[k]], effective) else old(currentFitness[k])
      ensures ledger.currentTags == RescoreTags(old(ledger.currentTags), invalidatedBodies, effective, previous)
      ensures Scored(fitness)
    {
      ghost var before := currentFitness[..];
      RescoreSlots(currentFitness, buffers, thisGen[..], invalidatedBodies, effective, previous, fitness);
      ghost var scored, tags, list := ledger.currentScored, ledger.currentTags, invalidatedBodies;
      ghost var buf, handles := buffers, thisGen[..];
      ledger := ledger.(currentTags := RescoreTags(tags, list, effective, previous),
                        currentScored := seq(populationSize, k requires 0 <= k < populationSize =>
                          if effective != previous || k in list then buf[handles[k]] else scored[k]));
      forall k | 0 <= k < populationSize
        ensures currentFitness[..][k] == fitness(ledger.currentScored[k], ledger.currentTags[k])
      {
        if effective == previous && k !in list {
          assert currentFitness[k] == before[k];
        }
      }
    }

    /**
     The first half of a repeat (lines 96-258): the substages fill the next
     generation, and the generations are exchanged. Every slot of the new
     current generation outside the invalidation list carries a fitness value
     copied from a scored slot, computed with the old weights when those were
     all `previous`. The six arrays end as `Fill.Exchanged(Fill.FillAll(...))`
     of their old contents (`Fill.RepeatRuns`).
     */
    method Generate(ss: seq<Substage>, ds: seq<SubstageDraws>, previous: Weights,
                    ops: Operators<Genome, Fitness, Body, Weights>, fixes: Fixes)
      requires Valid() && Owned() && Scored(ops.fitness) && invalidatedBodies == []
      requires Produced(ss) == populationSize && RepeatFits(ss, ds, populationSize)
      modifies this, Repr
      ensures Valid() && Owned() && commits == old(commits) + 1
      ensures invalidatedBodies == InvalidatedBy(ss)
      ensures CarriedScores(currentFitness[..], ledger.currentScored, ledger.currentTags, ops.fitness, invalidatedBodies, populationSize)
      ensures old(ScoredWith(previous)) ==>
        forall k :: 0 <= k < populationSize && k !in invalidatedBodies ==> ledger.currentTags[k] == previous
      ensures Fits(old(Snapshot()), populationSize)
      ensures RepeatRuns(old(Snapshot()), Snapshot(), ss, ds, ops.mutate, fixes.survivorOffset)
    {
      ghost var wasFresh := ScoredWith(previous);
      RunSubstages(ss, ds, ops, fixes);
      if wasFresh {
        CopiedTags(ledger.currentTags, ledger.nextTags, invalidatedBodies, previous);
      }
      Commit();
    }

    /**
     The second half of a repeat (lines 259-277): the listed slots are
     redeveloped, the fitness values are brought up to the effective weights,
     and the list is cleared. Each listed slot then holds its own genome's body
     and that body's fitness under the effective weights; a rescored slot is
     scored from its own buffer and any other keeps its value. No genome, handle,
     winner or next-generation fitness value changes.
     */
    method Refresh(ss: seq<Substage>, effective: Weights, previous: Weights,
                   ops: Operators<Genome, Fitness, Body, Weights>)
      requires Valid() && Owned() && invalidatedBodies == InvalidatedBy(ss) && Produced(ss) == populationSize
      requires CarriedScores(currentFitness[..], ledger.currentScored, ledger.currentTags, ops.fitness, invalidatedBodies, populationSize)
      modifies this, Repr
      ensures Valid() && Owned() && Scored(ops.fitness) && invalidatedBodies == [] && commits == old(commits)
      ensures Refs() == old(Refs()) && winners[..] == old(winners[..])
      ensures thisGenome[..] == old(thisGenome[..]) && nextGenome[..] == old(nextGenome[..])
      ensures thisGen[..] == old(thisGen[..]) && nextGen[..] == old(nextGen[..]) && nextFitness[..] == old(nextFitness[..])
      ensures ledger.currentTags == RescoreTags(old(ledger.currentTags), InvalidatedBy(ss), effective, previous)
      ensures forall k :: 0 <= k < populationSize ==>
        currentFitness[k] == if effective != previous || k in InvalidatedBy(ss)
                             then ops.fitness(buffers[thisGen[k]], effective) else old(currentFitness[k])
      ensures forall k :: 0 <= k < populationSize && k in InvalidatedBy(ss) ==>
        && buffers[thisGen[k]] == ops.develop(thisGenome[k])
        && currentFitness[k] == ops.fitness(ops.develop(thisGenome[k]), effective)
    {
      InvalidatedByShape(ss);
      Redevelop(ops.develop);
      SortInvalidated(ss);
      Rescore(effective, previous, ops.fitness);
      invalidatedBodies := [];
    }

    /**
     One repeat of a stage (lines 94-278) with effective weights
     `weights[0] + weights[1] * j`. Every fitness value is computed with the
     effective weights afterwards if it was computed with `previous` before,
     or if the effective weights differ from `previous`, so that every slot is
     rescored from its own buffer. With unchanged weights every unlisted slot
     keeps the fitness value the substage loop copied into it
     (`Fill.RepeatCarries`). The genomes, handles and winners end as
     `Fill.RepeatLineage` of their old values.
     */
    method RunRepeat(st: Stage<Weights>, j: nat, ds: seq<SubstageDraws>, previous: Weights,
                     ops: Operators<Genome, Fitness, Body, Weights>, fixes: Fixes) returns (effective: Weights)
      requires Valid() && Owned() && Scored(ops.fitness) && invalidatedBodies == []
      requires Produced(st.substages) == populationSize && RepeatFits(st.substages, ds, populationSize)
      modifies this, Repr
      ensures Valid() && Owned() && Scored(ops.fitness) && invalidatedBodies == [] && commits == old(commits) + 1
      ensures effective == Effective(st, j, ops.interpolate)
      ensures old(ScoredWith(previous)) || effective != previous ==> ScoredWith(effective)
      ensures forall k :: 0 <= k < populationSize && k in InvalidatedBy(st.substages) ==>
        && buffers[thisGen[k]] == ops.develop(thisGenome[k])
        && currentFitness[k] == ops.fitness(ops.develop(thisGenome[k]), effective)
      ensures effective != previous ==>
        forall k :: 0 <= k < populationSize ==> currentFitness[k] == ops.fitness(buffers[thisGen[k]], effective)
      ensures effective == previous ==>
        RepeatCarries(old(Snapshot()), st.substages, ds, ops.mutate, fixes.survivorOffset,
                      InvalidatedBy(st.substages), currentFitness[..])
      ensures LineageFits(LineageOf(old(Snapshot())), populationSize)
      ensures LineageOf(Snapshot()) == RepeatLineage(LineageOf(old(Snapshot())), st.substages, ds, ops.mutate, fixes.survivorOffset)
    {
      ghost var wasFresh := ScoredWith(previous);
      ghost var before := Snapshot();
      effective := ops.interpolate(st.base, st.increment, j);
      Generate(st.substages, ds, previous, ops, fixes);
      ghost var filled := Snapshot();
      ghost var tags := ledger.currentTags;
      Refresh(st.substages, effective, previous, ops);
      RepeatRunsFacts(before, filled, st.substages, ds, ops.mutate, fixes.survivorOffset, InvalidatedBy(st.substages));
      if effective == previous {
        CarriesFrame(before, st.substages, ds, ops.mutate, fixes.survivorOffset, InvalidatedBy(st.substages),
                     filled.currentFitness, currentFitness[..]);
      }
      if wasFresh {
        RescoreFresh(tags, InvalidatedBy(st.substages), effective, previous);
      }
    }

    /**
     The repeats of one stage (lines 94-279), starting from `previous`, the
     value `previousWeights` has at the stage start. Afterwards every fitness
     value is computed with the effective weights of the last repeat if every
     one was computed with `previous` before, or if the first repeat's weights
     differ from `previous`. A stage without repeats changes no tag. The
     genomes, handles and winners end as `Fill.StageLineage` of the stage's
     repeats from their values at the stage start (`Fill.StageRuns`).
     */
    method RunStage(st: Stage<Weights>, ds: seq<seq<SubstageDraws>>, previous: Weights,
                    ops: Operators<Genome, Fitness, Body, Weights>, fixes: Fixes) returns (last: Weights)
      requires Valid() && Owned() && Scored(ops.fitness) && invalidatedBodies == []
      requires st.repeats > 0 ==> Produced(st.substages) == populationSize
      requires |ds| == st.repeats
      requires forall j :: 0 <= j < st.repeats ==> RepeatFits(st.substages, ds[j], populationSize)
      modifies this, Repr
      ensures Valid() && Owned() && Scored(ops.fitness) && invalidatedBodies == []
      ensures commits == old(commits) + st.repeats
      ensures last == if st.repeats == 0 then previous else Effective(st, st.repeats - 1, ops.interpolate)
      ensures st.repeats == 0 ==> ledger.currentTags == old(ledger.currentTags)
      ensures old(ScoredWith(previous)) || (st.repeats > 0 && Effective(st, 0, ops.interpolate) != previous) ==>
        ScoredWith(last)
      ensures StageRuns(LineageOf(old(Snapshot())), LineageOf(Snapshot()), st.substages, ds, st.repeats, ops.mutate, fixes.survivorOffset)
    {
      ghost var wasFresh := ScoredWith(previous);
      ghost var start := LineageOf(Snapshot());
      last := previous;
      for j := 0 to st.repeats
        invariant Valid() && Owned() && Scored(ops.fitness) && invalidatedBodies == []
        invariant commits == old(commits) + j
        invariant last == if j == 0 then previous else Effective(st, j - 1, ops.interpolate)
        invariant j == 0 ==> ledger.currentTags == old(ledger.currentTags)
        invariant wasFresh || (j > 0 && Effective(st, 0, ops.interpolate) != previous) ==> ScoredWith(last)
        invariant LineageFits(start, populationSize)
        invariant StageRuns(start, LineageOf(Snapshot()), st.substages, ds, j, ops.mutate, fixes.survivorOffset)
      {
        ghost var mid := LineageOf(Snapshot());
        last := RunRepeat(st, j, ds[j], last, ops, fixes);
        StageRunsStep(start, mid, LineageOf(Snapshot()), st.substages, ds, j, ops.mutate, fixes.survivorOffset);
      }
    }

    /**
     The stage loop (lines 92-280). As written, `previousWeights` is reset to
     each stage's base weights (line 93); with `fixes.carriedWeights` it is
     carried from one stage to the next. With carried weights, and as written
     whenever every stage's reset is harmless, every final fitness value is
     computed with the weights of the last repeat that ran. Every fitness value
     is the fitness of its scored body under its weights in any case. The
     genomes, handles and winners end as `Fill.PlanLineage` of every stage from
     their values before the loop (`Fill.PlanRuns`, `Fill.PlanRunsIs`).
     */
    method RunPlan(plan: seq<Stage<Weights>>, draws: seq<seq<seq<SubstageDraws>>>,
                   ops: Operators<Genome, Fitness, Body, Weights>, fixes: Fixes)
      requires Valid() && Owned() && Scored(ops.fitness) && invalidatedBodies == []
      requires PlanFits(plan, draws, populationSize) && ScoredWith(plan[0].base)
      modifies this, Repr
      ensures Valid() && Owned() && Scored(ops.fitness) && invalidatedBodies == []
      ensures fixes.carriedWeights || (forall i :: 0 <= i < |plan| ==> ResetHarmless(plan, i, ops.interpolate)) ==>
        ScoredWith(WeightsInForce(plan, |plan|, ops.interpolate))
      ensures PlanRuns(LineageOf(old(Snapshot())), LineageOf(Snapshot()), plan, draws, |plan|, ops.mutate, fixes.survivorOffset)
    {
      ghost var start := LineageOf(Snapshot());
      var previous := plan[0].base;
      for i := 0 to |plan|
        invariant Valid() && Owned() && Scored(ops.fitness) && invalidatedBodies == []
        invariant fixes.carriedWeights ==> previous == WeightsInForce(plan, i, ops.interpolate)
        invariant fixes.carriedWeights || (forall i' :: 0 <= i' < i ==> ResetHarmless(plan, i', ops.interpolate)) ==>
          ScoredWith(WeightsInForce(plan, i, ops.interpolate))
        invariant LineageFits(start, populationSize)
        invariant PlanRuns(start, LineageOf(Snapshot()), plan, draws, i, ops.mutate, fixes.survivorOffset)
      {
        previous := PlanStage(plan, draws, i, previous, start, ops, fixes);
      }
    }

    /**
     Stage i of the stage loop (lines 93-279): `previousWeights` starts as the
     stage's base weights as written, or as the carried `previous` with
     `fixes.carriedWeights`, and the stage's repeats run. The weights in force
     move on to those after stage i, and the lineage from `origin` moves on
     from the first i stages to the first i + 1.
     */
    method PlanStage(plan: seq<Stage<Weights>>, draws: seq<seq<seq<SubstageDraws>>>, i: nat, previous: Weights,
                     ghost origin: Lineage<Genome>, ops: Operators<Genome, Fitness, Body, Weights>, fixes: Fixes)
      returns (last: Weights)
      requires Valid() && Owned() && Scored(ops.fitness) && invalidatedBodies == []
      requires PlanFits(plan, draws, populationSize) && i < |plan|
      requires fixes.carriedWeights ==> previous == WeightsInForce(plan, i, ops.interpolate)
      requires fixes.carriedWeights || (forall i' :: 0 <= i' < i ==> ResetHarmless(plan, i', ops.interpolate)) ==>
        ScoredWith(WeightsInForce(plan, i, ops.interpolate))
      requires PlanRuns(origin, LineageOf(Snapshot()), plan, draws, i, ops.mutate, fixes.survivorOffset)
      requires LineageFits(origin, populationSize)
      modifies this, Repr
      ensures Valid() && Owned() && Scored(ops.fitness) && invalidatedBodies == []
      ensures fixes.carriedWeights ==> last == WeightsInForce(plan, i + 1, ops.interpolate)
      ensures fixes.carriedWeights || (forall i' :: 0 <= i' < i + 1 ==> ResetHarmless(plan, i', ops.interpolate)) ==>
        ScoredWith(WeightsInForce(plan, i + 1, ops.interpolate))
      ensures PlanRuns(origin, LineageOf(Snapshot()), plan, draws, i + 1, ops.mutate, fixes.survivorOffset)
    {
      var start := if fixes.carriedWeights then previous else plan[i].base;
      ghost var before := ledger.currentTags;
      last := RunStage(plan[i], draws[i], start, ops, fixes);
      StageKeepsFresh(plan, i, ops.interpolate, fixes.carriedWeights, previous, last, before, ledger.currentTags);
      PlanRunsStep(origin, old(LineageOf(Snapshot())), LineageOf(Snapshot()), plan, draws, i, ops.mutate, fixes.survivorOffset);
    }

    /**
     The copy-back (lines 282-299): the caller's genome and fitness arrays
     receive the current generation where it lives elsewhere, and each
     individual's body is read out of the buffer its handle names.
     */
    method Finalize() returns (bodies: seq<Body>)
      requires Valid() && Owned()
      modifies callerGenomes, callerFitness
      ensures callerGenomes[..] == old(thisGenome[..]) && callerFitness[..] == old(currentFitness[..])
      ensures |bodies| == populationSize
      ensures forall i :: 0 <= i < populationSize ==> bodies[i] == buffers[thisGen[i]]
    {
      if callerGenomes != thisGenome {
        forall i | 0 <= i < populationSize {
          callerGenomes[i] := thisGenome[i];
        }
      }
      bodies := [];
      for i := 0 to populationSize
        invariant |bodies| == i
        invariant forall k :: 0 <= k < i ==> bodies[k] == buffers[thisGen[k]]
      {
        bodies := bodies + [buffers[thisGen[i]]];
      }
      if callerFitness != currentFitness {
        forall i | 0 <= i < populationSize {
          callerFitness[i] := currentFitness[i];
        }
      }
    }
  }

  /**
   The whole of `evolve` as written (lines 49-302): the population is
   allocated and scored with the first stage's base weights, the plan runs
   with `previousWeights` reset at each stage, and the caller's arrays receive
   the final generation. The final genomes and handles are those of `final`,
   the plan's lineage (`PlanRunsIs`: `PlanLineage` of all its stages) from
   the initial genomes, the handles as allocated, winners of 0 and the
   next-generation genome array as allocated (`scratch`, read only by a
   crossover block, whose offspring write is not part of this model). Every
   final fitness value is the fitness of its scored body under its weights,
   and when every stage's reset is harmless those weights are the last ones
   in force.
   */
  method Evolve<Genome(0), Fitness(0), Body(0), Weights(==)>(
    genomes: array<Genome>, fitness: array<Fitness>, initial: seq<Genome>,
    plan: seq<Stage<Weights>>, draws: seq<seq<seq<SubstageDraws>>>,
    ops: Operators<Genome, Fitness, Body, Weights>)
    returns (bodies: seq<Body>, ghost population: Population<Genome, Fitness, Body, Weights>, ghost scratch: seq<Genome>,
             ghost final: Lineage<Genome>)
    requires genomes.Length == |initial| && fitness.Length == |initial| && genomes as object != fitness
    requires PlanFits(plan, draws, |initial|)
    modifies genomes, fitness
    ensures |bodies| == |initial| && population.Valid() && population.Owned()
    ensures genomes[..] == population.thisGenome[..] && fitness[..] == population.currentFitness[..]
    ensures forall i :: 0 <= i < |initial| ==> bodies[i] == population.buffers[population.thisGen[i]]
    ensures forall i :: 0 <= i < |initial| ==>
      fitness[i] == ops.fitness(population.ledger.currentScored[i], population.ledger.currentTags[i])
    ensures (forall i :: 0 <= i < |plan| ==> ResetHarmless(plan, i, ops.interpolate)) ==>
      population.ScoredWith(WeightsInForce(plan, |plan|, ops.interpolate))
    ensures |scratch| == |initial|
    ensures var start := Lineage(initial, scratch, InitialGens(|initial|), seq(|initial|, _ => 0));
      && LineageFits(start, |initial|)
      && PlanRuns(start, final, plan, draws, |plan|, ops.mutate, AsWritten.survivorOffset)
    ensures genomes[..] == final.thisGenome && population.thisGen[..] == final.gens.current
  {
    var p := new Population(genomes, fitness, initial, ops, plan[0].base);
    scratch := p.nextGenome[..];
    ghost var start := LineageOf(p.Snapshot());
    assert start == Lineage(initial, scratch, InitialGens(|initial|), seq(|initial|, _ => 0));
    p.RunPlan(plan, draws, ops, AsWritten);
    final := LineageOf(p.Snapshot());
    bodies := p.Finalize();
    population := p;
  }
}
