/**
 The substage loop of one repeat as a function on values: what the six arrays
 of the population (genomes, fitness values and buffer handles of both
 generations, and the winners) hold after each substage, and after the commit
 that ends the fill. The scheduler's loop is proved against `FillAll`.
 */
module Fill {
  import opened Substages
  import opened Survivors
  import opened Plan
  import Permutations

  /** The contents of the population's arrays. */
  datatype Store<G, F> = Store(thisGenome: seq<G>, nextGenome: seq<G>,
                               currentFitness: seq<F>, nextFitness: seq<F>,
                               gens: Gens, winners: seq<int>)

  /** Every array has n slots, and every winner is a slot. */
  predicate Fits<G, F>(st: Store<G, F>, n: nat)
  {
    && |st.thisGenome| == n && |st.nextGenome| == n
    && |st.currentFitness| == n && |st.nextFitness| == n
    && |st.gens.current| == n && |st.gens.next| == n
    && |st.winners| == n && SourcesIn(st.winners, n)
  }

  /** The current genomes after a MUTATE substage: the first `individuals` entries of the permutation are mutated. */
  function MutatedCurrent<G>(current: seq<G>, permutation: seq<int>, individuals: nat, probability: real,
                             mutate: (G, real) -> G): (r: seq<G>)
    requires individuals <= |permutation|
    ensures |r| == |current|
  {
    seq(|current|, k requires 0 <= k < |current| =>
      if k in permutation[..individuals] then mutate(current[k], probability) else current[k])
  }

  /** The block a MUTATE substage writes: entry l is the mutation of current genome permutation[l]. */
  function MutatedCopies<G>(current: seq<G>, permutation: seq<int>, individuals: nat, probability: real,
                            mutate: (G, real) -> G): (r: seq<G>)
    requires individuals <= |permutation| && forall l :: 0 <= l < individuals ==> 0 <= permutation[l] < |current|
    ensures |r| == individuals
  {
    seq(individuals, l requires 0 <= l < individuals => mutate(current[permutation[l]], probability))
  }

  /**
   One substage at write cursor ig (lines 98-248). A ranking substage writes
   its picks at `winners + ig`, then copies genome and fitness of the winners
   the survivor block reads into the block and exchanges their handles. MUTATE
   mutates the shuffled prefix where it lies and copies it into the block. The
   recombination kinds change none of the six arrays.
   */
  function SubstageStep<G, F>(st: Store<G, F>, s: Substage, d: SubstageDraws, ig: nat,
                              mutate: (G, real) -> G, survivorOffset: bool): (r: Store<G, F>)
    requires Fits(st, |st.thisGenome|) && DrawsFit(s, d, |st.thisGenome|)
    requires ig + s.individuals <= |st.thisGenome|
    ensures Fits(r, |st.thisGenome|)
  {
    var n := |st.thisGenome|;
    if CopiesSurvivors(s.kind) then
      var w := Splice(st.winners, ig, d.picks);
      var sources := SurvivorSourcesFor(survivorOffset, w, ig, s.individuals);
      assert SourcesIn(w, n);
      assert forall l :: 0 <= l < |sources| ==> sources[l] in w;
      Store(st.thisGenome, Splice(st.nextGenome, ig, Gather(st.thisGenome, sources)),
            st.currentFitness, Splice(st.nextFitness, ig, Gather(st.currentFitness, sources)),
            SwapAll(st.gens, sources, ig), w)
    else if s.kind == Mutate then
      Permutations.ShuffleIsPermutation(d.shuffle);
      var p := Permutations.Shuffle(d.shuffle);
      st.(thisGenome := MutatedCurrent(st.thisGenome, p, s.individuals, s.param, mutate),
          nextGenome := Splice(st.nextGenome, ig, MutatedCopies(st.thisGenome, p, s.individuals, s.param, mutate)))
    else
      st
  }

  /** The substage loop (lines 96-249): every substage in order, each at the cursor its predecessors left. */
  function FillAll<G, F>(st: Store<G, F>, ss: seq<Substage>, ds: seq<SubstageDraws>,
                         mutate: (G, real) -> G, survivorOffset: bool): (r: Store<G, F>)
    requires Fits(st, |st.thisGenome|) && RepeatFits(ss, ds, |st.thisGenome|) && Produced(ss) <= |st.thisGenome|
    ensures Fits(r, |st.thisGenome|)
    decreases |ss|
  {
    if ss == [] then st
    else
      var last := |ss| - 1;
      assert RepeatFits(ss[..last], ds[..last], |st.thisGenome|);
      SubstageStep(FillAll(st, ss[..last], ds[..last], mutate, survivorOffset),
                   ss[last], ds[last], Produced(ss[..last]), mutate, survivorOffset)
  }

  /** The commit (lines 250-258): the two generations exchange their genomes, fitness values and handles. */
  function Exchanged<G, F>(st: Store<G, F>): Store<G, F>
  {
    Store(st.nextGenome, st.thisGenome, st.nextFitness, st.currentFitness, Gens(st.gens.next, st.gens.current), st.winners)
  }

  /** The draws of a prefix of the substages fit that prefix. */
  lemma RepeatFitsPrefix(ss: seq<Substage>, ds: seq<SubstageDraws>, n: nat, i: nat)
    requires RepeatFits(ss, ds, n) && i <= |ss|
    ensures RepeatFits(ss[..i], ds[..i], n)
  {
  }

  /** One substage more: the fill of the first i + 1 substages is substage i applied to the fill of the first i. */
  lemma FillAllStep<G, F>(st: Store<G, F>, ss: seq<Substage>, ds: seq<SubstageDraws>, i: nat,
                          mutate: (G, real) -> G, survivorOffset: bool)
    requires Fits(st, |st.thisGenome|) && RepeatFits(ss, ds, |st.thisGenome|) && i < |ss|
    requires Produced(ss[..i + 1]) <= |st.thisGenome|
    ensures RepeatFits(ss[..i], ds[..i], |st.thisGenome|) && Produced(ss[..i]) + ss[i].individuals <= |st.thisGenome|
    ensures RepeatFits(ss[..i + 1], ds[..i + 1], |st.thisGenome|)
    ensures FillAll(st, ss[..i + 1], ds[..i + 1], mutate, survivorOffset) ==
      SubstageStep(FillAll(st, ss[..i], ds[..i], mutate, survivorOffset), ss[i], ds[i], Produced(ss[..i]),
                   mutate, survivorOffset)
  {
    assert ss[..i + 1][..i] == ss[..i] && ds[..i + 1][..i] == ds[..i];
  }

  /**
   A substage writes only its own block of the next generation: every other
   next-generation genome, fitness value and handle is unchanged.
   */
  lemma StepFrame<G, F>(st: Store<G, F>, s: Substage, d: SubstageDraws, ig: nat,
                        mutate: (G, real) -> G, survivorOffset: bool, k: nat)
    requires Fits(st, |st.thisGenome|) && DrawsFit(s, d, |st.thisGenome|)
    requires ig + s.individuals <= |st.thisGenome|
    requires k < |st.thisGenome| && !(ig <= k < ig + s.individuals)
    ensures SubstageStep(st, s, d, ig, mutate, survivorOffset).nextGenome[k] == st.nextGenome[k]
    ensures SubstageStep(st, s, d, ig, mutate, survivorOffset).nextFitness[k] == st.nextFitness[k]
    ensures SubstageStep(st, s, d, ig, mutate, survivorOffset).gens.next[k] == st.gens.next[k]
  {
    if CopiesSurvivors(s.kind) {
      var w := Splice(st.winners, ig, d.picks);
      var sources := SurvivorSourcesFor(survivorOffset, w, ig, s.individuals);
      assert forall l :: 0 <= l < |sources| ==> sources[l] in w;
      SwapAllFrame(st.gens, sources, ig);
    }
  }

  /**
   The blocks of the substages do not overlap: after the whole loop, every
   slot of substage i's block still holds the genome, fitness value and handle
   substage i wrote there.
   */
  lemma {:induction false} FillKeepsBlocks<G, F>(st: Store<G, F>, ss: seq<Substage>, ds: seq<SubstageDraws>,
                                                 mutate: (G, real) -> G, survivorOffset: bool, i: nat, k: nat)
    requires Fits(st, |st.thisGenome|) && RepeatFits(ss, ds, |st.thisGenome|) && Produced(ss) <= |st.thisGenome|
    requires i < |ss| && InBlock(ss, i, k)
    ensures Produced(ss[..i + 1]) <= |st.thisGenome| && RepeatFits(ss[..i + 1], ds[..i + 1], |st.thisGenome|)
    ensures
      && FillAll(st, ss, ds, mutate, survivorOffset).nextGenome[k]
           == FillAll(st, ss[..i + 1], ds[..i + 1], mutate, survivorOffset).nextGenome[k]
      && FillAll(st, ss, ds, mutate, survivorOffset).nextFitness[k]
           == FillAll(st, ss[..i + 1], ds[..i + 1], mutate, survivorOffset).nextFitness[k]
      && FillAll(st, ss, ds, mutate, survivorOffset).gens.next[k]
           == FillAll(st, ss[..i + 1], ds[..i + 1], mutate, survivorOffset).gens.next[k]
    decreases |ss|
  {
    ProducedPrefix(ss, i + 1);
    var last := |ss| - 1;
    if i == last {
      assert ss[..i + 1] == ss && ds[..i + 1] == ds;
    } else {
      var prefix, dprefix := ss[..last], ds[..last];
      assert prefix[..i + 1] == ss[..i + 1] && dprefix[..i + 1] == ds[..i + 1];
      assert prefix[..i] == ss[..i];
      ProducedPrefix(prefix, i + 1);
      RepeatFitsPrefix(ss, ds, |st.thisGenome|, last);
      FillKeepsBlocks(st, prefix, dprefix, mutate, survivorOffset, i, k);
      var mid := FillAll(st, prefix, dprefix, mutate, survivorOffset);
      assert FillAll(st, ss, ds, mutate, survivorOffset)
          == SubstageStep(mid, ss[last], ds[last], Produced(prefix), mutate, survivorOffset);
      StepFrame(mid, ss[last], ds[last], Produced(prefix), mutate, survivorOffset, k);
    }
  }

  /** Gathering the winners 0, 1, ..., n-1 reads the values back in order. */
  lemma GatherIdentity<T>(values: seq<T>)
    ensures Gather(values, seq(|values|, i => i)) == values
  {
  }

  /**
   A ranking substage at cursor 0 whose picks are 0, 1, ..., n-1 copies the
   current generation into the next one and exchanges the two handle arrays.
   */
  lemma IdentityStep<G, F>(st: Store<G, F>, s: Substage, d: SubstageDraws, mutate: (G, real) -> G,
                           survivorOffset: bool)
    requires Fits(st, |st.thisGenome|) && CopiesSurvivors(s.kind)
    requires s.individuals == |st.thisGenome| && d.picks == seq(|st.thisGenome|, i => i)
    ensures DrawsFit(s, d, |st.thisGenome|)
    ensures var r := SubstageStep(st, s, d, 0, mutate, survivorOffset);
      && r.thisGenome == st.thisGenome && r.currentFitness == st.currentFitness
      && r.nextGenome == st.thisGenome && r.nextFitness == st.currentFitness
      && r.gens == Gens(st.gens.next, st.gens.current) && r.winners == d.picks
  {
    var n := |st.thisGenome|;
    var w := Splice(st.winners, 0, d.picks);
    assert w == d.picks;
    assert SurvivorSourcesFor(survivorOffset, w, 0, n) == d.picks;
    GatherIdentity(st.thisGenome);
    GatherIdentity(st.currentFitness);
    SwapAllIdentity(st.gens, n);
  }

  /**
   The identity round trip: a repeat whose one ranking substage fills the
   whole population with the picks 0, 1, ..., n-1 gives back, after the
   commit, the same genomes, fitness values and handles (so the same bodies)
   in the current generation, as written and with the corrected offset.
   */
  lemma IdentityRepeat<G, F>(st: Store<G, F>, s: Substage, d: SubstageDraws, mutate: (G, real) -> G,
                             survivorOffset: bool)
    requires Fits(st, |st.thisGenome|) && CopiesSurvivors(s.kind)
    requires s.individuals == |st.thisGenome| && d.picks == seq(|st.thisGenome|, i => i)
    ensures RepeatFits([s], [d], |st.thisGenome|) && Produced([s]) == |st.thisGenome|
    ensures var r := Exchanged(FillAll(st, [s], [d], mutate, survivorOffset));
      && r.thisGenome == st.thisGenome && r.currentFitness == st.currentFitness && r.gens == st.gens
      && r.nextGenome == st.thisGenome && r.nextFitness == st.currentFitness && r.winners == d.picks
  {
    IdentityStep(st, s, d, mutate, survivorOffset);
    FillOne(st, s, d, mutate, survivorOffset);
  }

  /** The substage loop over a single substage is that substage at cursor 0. */
  lemma FillOne<G, F>(st: Store<G, F>, s: Substage, d: SubstageDraws, mutate: (G, real) -> G, survivorOffset: bool)
    requires Fits(st, |st.thisGenome|) && DrawsFit(s, d, |st.thisGenome|) && s.individuals <= |st.thisGenome|
    ensures RepeatFits([s], [d], |st.thisGenome|) && Produced([s]) == s.individuals
    ensures FillAll(st, [s], [d], mutate, survivorOffset) == SubstageStep(st, s, d, 0, mutate, survivorOffset)
  {
    assert [s][..0] == [] && [d][..0] == [];
  }

  /**
   After a repeat from store `before`, every current slot outside `listed`
   holds in `fitness` the value the substage loop copied into it: the
   next-generation fitness of `FillAll` (the commit makes it current). The
   equality is stated for the store `before` under a trigger on its `FillAll`
   term, so a caller unfolds the loop only where it names that term.
   */
  ghost predicate RepeatCarries<G, F>(before: Store<G, F>, ss: seq<Substage>, ds: seq<SubstageDraws>,
                                      mutate: (G, real) -> G, survivorOffset: bool, listed: seq<int>, fitness: seq<F>)
  {
    forall st {:trigger FillAll(st, ss, ds, mutate, survivorOffset)} ::
      && st == before && Fits(st, |st.thisGenome|) && RepeatFits(ss, ds, |st.thisGenome|)
      && Produced(ss) <= |st.thisGenome| ==>
        forall k :: 0 <= k < |fitness| && k < |st.thisGenome| && k !in listed ==>
          fitness[k] == FillAll(st, ss, ds, mutate, survivorOffset).nextFitness[k]
  }

  /** For a store the substages fit, `RepeatCarries` is the plain equality on every unlisted slot. */
  lemma RepeatCarriesIs<G, F>(before: Store<G, F>, ss: seq<Substage>, ds: seq<SubstageDraws>,
                              mutate: (G, real) -> G, survivorOffset: bool, listed: seq<int>, fitness: seq<F>)
    requires Fits(before, |before.thisGenome|) && RepeatFits(ss, ds, |before.thisGenome|)
    requires Produced(ss) <= |before.thisGenome| && |fitness| == |before.thisGenome|
    requires RepeatCarries(before, ss, ds, mutate, survivorOffset, listed, fitness)
    ensures forall k :: 0 <= k < |fitness| && k !in listed ==>
      fitness[k] == FillAll(before, ss, ds, mutate, survivorOffset).nextFitness[k]
  {
  }

  /** Values that agree with carried ones on every unlisted slot carry the same fill. */
  lemma CarriesFrame<G, F>(before: Store<G, F>, ss: seq<Substage>, ds: seq<SubstageDraws>,
                           mutate: (G, real) -> G, survivorOffset: bool, listed: seq<int>,
                           carried: seq<F>, fitness: seq<F>)
    requires RepeatCarries(before, ss, ds, mutate, survivorOffset, listed, carried)
    requires |fitness| == |carried|
    requires forall k :: 0 <= k < |fitness| && k !in listed ==> fitness[k] == carried[k]
    ensures RepeatCarries(before, ss, ds, mutate, survivorOffset, listed, fitness)
  {
    forall st | st == before && Fits(st, |st.thisGenome|) && RepeatFits(ss, ds, |st.thisGenome|)
                && Produced(ss) <= |st.thisGenome|
      ensures forall k :: 0 <= k < |fitness| && k < |st.thisGenome| && k !in listed ==>
        fitness[k] == FillAll(st, ss, ds, mutate, survivorOffset).nextFitness[k]
    {
      assert forall k :: 0 <= k < |carried| && k < |st.thisGenome| && k !in listed ==>
        carried[k] == FillAll(st, ss, ds, mutate, survivorOffset).nextFitness[k];
    }
  }

  /**
   The part of the store the fitness values never influence: the genomes,
   handles and winners of both generations. Every substage, the commit and
   the redevelopment and rescoring passes decide it without looking at a
   fitness value or a body.
   */
  datatype Lineage<G> = Lineage(thisGenome: seq<G>, nextGenome: seq<G>, gens: Gens, winners: seq<int>)

  function LineageOf<G, F>(st: Store<G, F>): Lineage<G>
  {
    Lineage(st.thisGenome, st.nextGenome, st.gens, st.winners)
  }

  /** A lineage as a store whose fitness values carry no information. */
  function Unscored<G>(l: Lineage<G>): Store<G, ()>
  {
    Store(l.thisGenome, l.nextGenome, seq(|l.thisGenome|, _ => ()), seq(|l.thisGenome|, _ => ()), l.gens, l.winners)
  }

  /** Every sequence of the lineage has n slots, and every winner is a slot. */
  predicate LineageFits<G>(l: Lineage<G>, n: nat)
  {
    Fits(Unscored(l), n)
  }

  /** Two stores with the same lineage reach the same lineage through one substage. */
  lemma StepLineage<G, F, F'>(a: Store<G, F>, b: Store<G, F'>, s: Substage, d: SubstageDraws, ig: nat,
                              mutate: (G, real) -> G, survivorOffset: bool)
    requires Fits(a, |a.thisGenome|) && Fits(b, |a.thisGenome|) && LineageOf(a) == LineageOf(b)
    requires DrawsFit(s, d, |a.thisGenome|) && ig + s.individuals <= |a.thisGenome|
    ensures LineageOf(SubstageStep(a, s, d, ig, mutate, survivorOffset))
         == LineageOf(SubstageStep(b, s, d, ig, mutate, survivorOffset))
  {
  }

  /** Two stores with the same lineage reach the same lineage through the substage loop. */
  lemma {:induction false} FillAllLineage<G, F, F'>(a: Store<G, F>, b: Store<G, F'>, ss: seq<Substage>,
                                                    ds: seq<SubstageDraws>, mutate: (G, real) -> G,
                                                    survivorOffset: bool)
    requires Fits(a, |a.thisGenome|) && Fits(b, |a.thisGenome|) && LineageOf(a) == LineageOf(b)
    requires RepeatFits(ss, ds, |a.thisGenome|) && Produced(ss) <= |a.thisGenome|
    ensures LineageOf(FillAll(a, ss, ds, mutate, survivorOffset)) == LineageOf(FillAll(b, ss, ds, mutate, survivorOffset))
    decreases |ss|
  {
    if ss != [] {
      var last := |ss| - 1;
      assert RepeatFits(ss[..last], ds[..last], |a.thisGenome|);
      FillAllLineage(a, b, ss[..last], ds[..last], mutate, survivorOffset);
      StepLineage(FillAll(a, ss[..last], ds[..last], mutate, survivorOffset),
                  FillAll(b, ss[..last], ds[..last], mutate, survivorOffset),
                  ss[last], ds[last], Produced(ss[..last]), mutate, survivorOffset);
    }
  }

  /** One repeat on the lineage (lines 96-258): the substage loop, then the commit. */
  function RepeatLineage<G>(l: Lineage<G>, ss: seq<Substage>, ds: seq<SubstageDraws>,
                            mutate: (G, real) -> G, survivorOffset: bool): (r: Lineage<G>)
    requires LineageFits(l, |l.thisGenome|) && RepeatFits(ss, ds, |l.thisGenome|) && Produced(ss) <= |l.thisGenome|
    ensures LineageFits(r, |l.thisGenome|)
  {
    LineageOf(Exchanged(FillAll(Unscored(l), ss, ds, mutate, survivorOffset)))
  }

  /**
   A repeat decides the lineage from the lineage alone: whatever the fitness
   values of the store, its lineage after the fill and the commit is
   `RepeatLineage` of its lineage before.
   */
  lemma RepeatOfStore<G, F>(st: Store<G, F>, ss: seq<Substage>, ds: seq<SubstageDraws>,
                            mutate: (G, real) -> G, survivorOffset: bool)
    requires Fits(st, |st.thisGenome|) && RepeatFits(ss, ds, |st.thisGenome|) && Produced(ss) <= |st.thisGenome|
    ensures LineageFits(LineageOf(st), |st.thisGenome|)
    ensures LineageOf(Exchanged(FillAll(st, ss, ds, mutate, survivorOffset)))
         == RepeatLineage(LineageOf(st), ss, ds, mutate, survivorOffset)
  {
    FillAllLineage(st, Unscored(LineageOf(st)), ss, ds, mutate, survivorOffset);
  }

  /** The first j repeats of one stage on the lineage (lines 94-279): `dss[j']` are the draws of repeat j'. */
  function StageLineage<G>(l: Lineage<G>, ss: seq<Substage>, dss: seq<seq<SubstageDraws>>, j: nat,
                           mutate: (G, real) -> G, survivorOffset: bool): (r: Lineage<G>)
    requires LineageFits(l, |l.thisGenome|) && j <= |dss| && (j > 0 ==> Produced(ss) <= |l.thisGenome|)
    requires forall j' :: 0 <= j' < |dss| ==> RepeatFits(ss, dss[j'], |l.thisGenome|)
    ensures LineageFits(r, |l.thisGenome|)
  {
    if j == 0 then l
    else RepeatLineage(StageLineage(l, ss, dss, j - 1, mutate, survivorOffset), ss, dss[j - 1], mutate, survivorOffset)
  }

  /**
   One repeat (the substage loop, then the commit, lines 96-258) takes store
   `before` to store `after`, when the substages fit `before`. As with
   `StageRuns`, the equality waits for its `FillAll` term.
   */
  ghost predicate RepeatRuns<G, F>(before: Store<G, F>, after: Store<G, F>, ss: seq<Substage>, ds: seq<SubstageDraws>,
                                   mutate: (G, real) -> G, survivorOffset: bool)
  {
    forall st {:trigger FillAll(st, ss, ds, mutate, survivorOffset)} ::
      && st == before && Fits(st, |st.thisGenome|) && RepeatFits(ss, ds, |st.thisGenome|)
      && Produced(ss) <= |st.thisGenome| ==>
        after == Exchanged(FillAll(st, ss, ds, mutate, survivorOffset))
  }

  /** For substages that fit, `RepeatRuns` is the equality with the fill and the commit. */
  lemma RepeatRunsIs<G, F>(before: Store<G, F>, after: Store<G, F>, ss: seq<Substage>, ds: seq<SubstageDraws>,
                           mutate: (G, real) -> G, survivorOffset: bool)
    requires Fits(before, |before.thisGenome|) && RepeatFits(ss, ds, |before.thisGenome|)
    requires Produced(ss) <= |before.thisGenome|
    requires RepeatRuns(before, after, ss, ds, mutate, survivorOffset)
    ensures after == Exchanged(FillAll(before, ss, ds, mutate, survivorOffset))
  {
  }

  /**
   What a repeat leaves, read two ways: the genomes, handles and winners are
   `RepeatLineage` of those before, and every current fitness value is the
   one the substage loop put into the next generation.
   */
  lemma RepeatRunsFacts<G, F>(before: Store<G, F>, after: Store<G, F>, ss: seq<Substage>, ds: seq<SubstageDraws>,
                              mutate: (G, real) -> G, survivorOffset: bool, listed: seq<int>)
    requires Fits(before, |before.thisGenome|) && RepeatFits(ss, ds, |before.thisGenome|)
    requires Produced(ss) <= |before.thisGenome|
    requires RepeatRuns(before, after, ss, ds, mutate, survivorOffset)
    ensures LineageFits(LineageOf(before), |before.thisGenome|)
    ensures LineageOf(after) == RepeatLineage(LineageOf(before), ss, ds, mutate, survivorOffset)
    ensures |after.currentFitness| == |before.thisGenome|
    ensures RepeatCarries(before, ss, ds, mutate, survivorOffset, listed, after.currentFitness)
  {
    RepeatRunsIs(before, after, ss, ds, mutate, survivorOffset);
    RepeatOfStore(before, ss, ds, mutate, survivorOffset);
  }

  /** The first i stages of a plan on the lineage (lines 92-280). */
  function PlanLineage<G, W>(l: Lineage<G>, plan: seq<Stage<W>>, draws: seq<seq<seq<SubstageDraws>>>, i: nat,
                             mutate: (G, real) -> G, survivorOffset: bool): (r: Lineage<G>)
    requires LineageFits(l, |l.thisGenome|) && PlanFits(plan, draws, |l.thisGenome|) && i <= |plan|
    ensures LineageFits(r, |l.thisGenome|)
  {
    if i == 0 then l
    else StageLineage(PlanLineage(l, plan, draws, i - 1, mutate, survivorOffset), plan[i - 1].substages, draws[i - 1],
                      plan[i - 1].repeats, mutate, survivorOffset)
  }

  /** The draws of a stage fit it, and its first j repeats can run from lineage l. */
  predicate StageFits<G>(l: Lineage<G>, ss: seq<Substage>, dss: seq<seq<SubstageDraws>>, j: nat)
  {
    && LineageFits(l, |l.thisGenome|) && j <= |dss| && (j > 0 ==> Produced(ss) <= |l.thisGenome|)
    && forall j' :: 0 <= j' < |dss| ==> RepeatFits(ss, dss[j'], |l.thisGenome|)
  }

  /**
   The first j repeats of a stage take lineage `before` to lineage `after`
   (when they can run from `before`).
   */
  ghost predicate StageRuns<G>(before: Lineage<G>, after: Lineage<G>, ss: seq<Substage>, dss: seq<seq<SubstageDraws>>,
                               j: nat, mutate: (G, real) -> G, survivorOffset: bool)
  {
    forall j' {:trigger StageLineage(before, ss, dss, j', mutate, survivorOffset)} ::
      j' == j && StageFits(before, ss, dss, j') ==> after == StageLineage(before, ss, dss, j', mutate, survivorOffset)
  }

  /**
   The first i stages of a plan take lineage `before` to lineage `after`
   (when the plan and its draws fit `before`).
   */
  ghost predicate PlanRuns<G, W>(before: Lineage<G>, after: Lineage<G>, plan: seq<Stage<W>>,
                                 draws: seq<seq<seq<SubstageDraws>>>, i: nat, mutate: (G, real) -> G, survivorOffset: bool)
  {
    forall i' {:trigger PlanLineage(before, plan, draws, i', mutate, survivorOffset)} ::
      i' == i && LineageFits(before, |before.thisGenome|) && PlanFits(plan, draws, |before.thisGenome|) && i' <= |plan| ==>
        after == PlanLineage(before, plan, draws, i', mutate, survivorOffset)
  }

  /** A whole plan that fits takes `before` to its lineage after every stage. */
  lemma PlanRunsIs<G, W>(before: Lineage<G>, after: Lineage<G>, plan: seq<Stage<W>>,
                         draws: seq<seq<seq<SubstageDraws>>>, mutate: (G, real) -> G, survivorOffset: bool)
    requires LineageFits(before, |before.thisGenome|) && PlanFits(plan, draws, |before.thisGenome|)
    requires PlanRuns(before, after, plan, draws, |plan|, mutate, survivorOffset)
    ensures after == PlanLineage(before, plan, draws, |plan|, mutate, survivorOffset)
  {
  }

  /** The first j + 1 repeats: repeat j after the first j. */
  lemma StageRunsStep<G>(before: Lineage<G>, mid: Lineage<G>, after: Lineage<G>, ss: seq<Substage>,
                         dss: seq<seq<SubstageDraws>>, j: nat, mutate: (G, real) -> G, survivorOffset: bool)
    requires StageRuns(before, mid, ss, dss, j, mutate, survivorOffset) && StageFits(before, ss, dss, j + 1)
    requires LineageFits(mid, |before.thisGenome|)
    requires after == RepeatLineage(mid, ss, dss[j], mutate, survivorOffset)
    ensures StageRuns(before, after, ss, dss, j + 1, mutate, survivorOffset)
  {
    assert mid == StageLineage(before, ss, dss, j, mutate, survivorOffset);
    assert after == StageLineage(before, ss, dss, j + 1, mutate, survivorOffset);
  }

  /** The first i + 1 stages: stage i after the first i. */
  lemma PlanRunsStep<G, W>(before: Lineage<G>, mid: Lineage<G>, after: Lineage<G>, plan: seq<Stage<W>>,
                           draws: seq<seq<seq<SubstageDraws>>>, i: nat, mutate: (G, real) -> G, survivorOffset: bool)
    requires LineageFits(before, |before.thisGenome|) && PlanFits(plan, draws, |before.thisGenome|) && i < |plan|
    requires PlanRuns(before, mid, plan, draws, i, mutate, survivorOffset)
    requires StageRuns(mid, after, plan[i].substages, draws[i], plan[i].repeats, mutate, survivorOffset)
    ensures PlanRuns(before, after, plan, draws, i + 1, mutate, survivorOffset)
  {
    PlanLineageStep(before, plan, draws, i, mutate, survivorOffset);
    assert mid == PlanLineage(before, plan, draws, i, mutate, survivorOffset);
  }

  /** Stage i of a plan that fits runs all its repeats from the lineage the first i stages leave. */
  lemma PlanLineageStep<G, W>(l: Lineage<G>, plan: seq<Stage<W>>, draws: seq<seq<seq<SubstageDraws>>>, i: nat,
                              mutate: (G, real) -> G, survivorOffset: bool)
    requires LineageFits(l, |l.thisGenome|) && PlanFits(plan, draws, |l.thisGenome|) && i < |plan|
    ensures StageFits(PlanLineage(l, plan, draws, i, mutate, survivorOffset), plan[i].substages, draws[i], plan[i].repeats)
    ensures PlanLineage(l, plan, draws, i + 1, mutate, survivorOffset)
         == StageLineage(PlanLineage(l, plan, draws, i, mutate, survivorOffset), plan[i].substages, draws[i],
                         plan[i].repeats, mutate, survivorOffset)
  {
  }

  /**
   The identity round trip on the lineage: a repeat whose one ranking
   substage picks 0, 1, ..., n-1 gives back the current genomes and handles,
   so every slot keeps its genome and its body.
   */
  lemma IdentityRepeatLineage<G>(l: Lineage<G>, s: Substage, d: SubstageDraws, mutate: (G, real) -> G,
                                 survivorOffset: bool)
    requires LineageFits(l, |l.thisGenome|) && CopiesSurvivors(s.kind)
    requires s.individuals == |l.thisGenome| && d.picks == seq(|l.thisGenome|, i => i)
    ensures RepeatFits([s], [d], |l.thisGenome|) && Produced([s]) == |l.thisGenome|
    ensures var r := RepeatLineage(l, [s], [d], mutate, survivorOffset);
      r.thisGenome == l.thisGenome && r.nextGenome == l.thisGenome && r.gens == l.gens && r.winners == d.picks
  {
    IdentityRepeat(Unscored(l), s, d, mutate, survivorOffset);
  }

  /**
   The round trip of a whole plan: a plan of one
   stage with one repeat whose one ranking substage selects 0, 1, ..., n-1
   ends with the genomes and handles it started from.
   */
  lemma IdentityPlanLineage<G, W>(l: Lineage<G>, s: Substage, d: SubstageDraws, base: W, increment: W,
                                  mutate: (G, real) -> G, survivorOffset: bool)
    requires LineageFits(l, |l.thisGenome|) && CopiesSurvivors(s.kind)
    requires s.individuals == |l.thisGenome| && d.picks == seq(|l.thisGenome|, i => i)
    ensures PlanFits([Stage([s], base, increment, 1)], [[[d]]], |l.thisGenome|)
    ensures var r := PlanLineage(l, [Stage([s], base, increment, 1)], [[[d]]], 1, mutate, survivorOffset);
      r.thisGenome == l.thisGenome && r.gens == l.gens
  {
    IdentityRepeatLineage(l, s, d, mutate, survivorOffset);
    var plan := [Stage([s], base, increment, 1)];
    assert PlanFits(plan, [[[d]]], |l.thisGenome|);
    PlanLineageStep(l, plan, [[[d]]], 0, mutate, survivorOffset);
    assert StageLineage(l, [s], [[d]], 1, mutate, survivorOffset) == RepeatLineage(l, [s], [d], mutate, survivorOffset);
  }
}
