/**
 The selection plan and what one repeat of a stage does to the slot indices:
 the write cursor that advances by each substage's count, the invalidation list
 the variation substages push, and the weights that decide the rescoring.
 */
module Plan {
  import opened Substages
  import opened Invalidation
  import Permutations

  /** One stage: its substages, the two weight terms and the number of repeats. */
  datatype Stage<W> = Stage(substages: seq<Substage>, base: W, increment: W, repeats: nat)

  /**
   The random choices one substage makes in one repeat: the indices its ranking
   oracle returns (winners, or the roulette-chosen parents of a recombination)
   and, for MUTATE, the draws of the shuffle.
   */
  datatype SubstageDraws = SubstageDraws(picks: seq<int>, shuffle: seq<int>)

  /** The oracle outputs meet the ranking contract, and the shuffle draws lie in range. */
  predicate DrawsFit(s: Substage, d: SubstageDraws, n: nat)
  {
    if s.kind == Mutate then
      |d.shuffle| == n && Permutations.ValidDraws(d.shuffle) && s.individuals <= n
    else
      |d.picks| == s.individuals && forall l :: 0 <= l < |d.picks| ==> 0 <= d.picks[l] < n
  }

  /** The write cursor after the substages: the sum of their individual counts. */
  function Produced(ss: seq<Substage>): nat
    decreases |ss|
  {
    if ss == [] then 0 else Produced(ss[..|ss| - 1]) + ss[|ss| - 1].individuals
  }

  /** The cursor only advances: a prefix of the substages fills no more than all of them. */
  lemma {:induction false} ProducedPrefix(ss: seq<Substage>, p: nat)
    requires p <= |ss|
    ensures Produced(ss[..p]) <= Produced(ss)
    decreases |ss|
  {
    if p < |ss| {
      var last := |ss| - 1;
      assert ss[..last][..p] == ss[..p];
      ProducedPrefix(ss[..last], p);
    } else {
      assert ss[..p] == ss;
    }
  }

  /** The invalidation list after the substages: each variation substage pushes its own slots. */
  function InvalidatedBy(ss: seq<Substage>): seq<int>
    decreases |ss|
  {
    if ss == [] then []
    else
      var last := |ss| - 1;
      InvalidatedBy(ss[..last]) +
        (if Invalidates(ss[last].kind) then Range(Produced(ss[..last]), Produced(ss)) else [])
  }

  /**
   The list holds slots of the new generation only, each once, in increasing
   order: the substages write disjoint consecutive blocks.
   */
  lemma {:induction false} InvalidatedByShape(ss: seq<Substage>)
    ensures StrictlyAscending(InvalidatedBy(ss))
    ensures forall i :: 0 <= i < |InvalidatedBy(ss)| ==> 0 <= InvalidatedBy(ss)[i] < Produced(ss)
    decreases |ss|
  {
    if ss != [] {
      var last := |ss| - 1;
      InvalidatedByShape(ss[..last]);
      if Invalidates(ss[last].kind) {
        AppendRange(InvalidatedBy(ss[..last]), Produced(ss[..last]), Produced(ss));
      }
    }
  }

  /** Slot k lies in the block written by substage i. */
  predicate InBlock(ss: seq<Substage>, i: int, k: int)
    requires 0 <= i < |ss|
  {
    Produced(ss[..i]) <= k < Produced(ss[..i + 1])
  }

  /** One substage more: the list grows by the last substage's block if it invalidates. */
  lemma InvalidatedByLast(ss: seq<Substage>, k: int)
    requires ss != []
    ensures k in InvalidatedBy(ss) <==>
      k in InvalidatedBy(ss[..|ss| - 1]) || (Invalidates(ss[|ss| - 1].kind) && InBlock(ss, |ss| - 1, k))
  {
    var last := |ss| - 1;
    assert ss[..last + 1] == ss;
    if Invalidates(ss[last].kind) && InBlock(ss, last, k) {
      var r := Range(Produced(ss[..last]), Produced(ss));
      assert r[k - Produced(ss[..last])] == k;
    }
  }

  /** The blocks of a prefix of the substages are the same blocks in the whole sequence. */
  lemma InBlockPrefix(ss: seq<Substage>, p: nat, i: nat, k: int)
    requires i < p <= |ss|
    ensures InBlock(ss[..p], i, k) <==> InBlock(ss, i, k)
  {
    assert ss[..p][..i] == ss[..i] && ss[..p][..i + 1] == ss[..i + 1];
  }

  /** One substage more: the cursor advances by its count, and the list grows by its block if it invalidates. */
  lemma StepInvalidated(ss: seq<Substage>, i: nat)
    requires i < |ss|
    ensures Produced(ss[..i + 1]) == Produced(ss[..i]) + ss[i].individuals
    ensures InvalidatedBy(ss[..i + 1]) ==
      InvalidatedBy(ss[..i]) + (if Invalidates(ss[i].kind) then Range(Produced(ss[..i]), Produced(ss[..i + 1])) else [])
  {
    assert ss[..i + 1][..i] == ss[..i];
  }

  /**
   A slot is invalidated exactly when it lies in the block of a crossover or
   mutate substage; slots written by ranking substages never are.
   */
  lemma InvalidatedByMembers(ss: seq<Substage>, k: int)
    ensures k in InvalidatedBy(ss) <==> exists i :: 0 <= i < |ss| && Invalidates(ss[i].kind) && InBlock(ss, i, k)
  {
    if k in InvalidatedBy(ss) {
      InvalidatedInSomeBlock(ss, k);
    }
    if exists i :: 0 <= i < |ss| && Invalidates(ss[i].kind) && InBlock(ss, i, k) {
      var i :| 0 <= i < |ss| && Invalidates(ss[i].kind) && InBlock(ss, i, k);
      BlockInvalidated(ss, i, k);
    }
  }

  /** Every invalidated slot lies in the block of an invalidating substage. */
  lemma {:induction false} InvalidatedInSomeBlock(ss: seq<Substage>, k: int)
    requires k in InvalidatedBy(ss)
    ensures exists i :: 0 <= i < |ss| && Invalidates(ss[i].kind) && InBlock(ss, i, k)
    decreases |ss|
  {
    var last := |ss| - 1;
    var prefix := ss[..last];
    InvalidatedByLast(ss, k);
    if k in InvalidatedBy(prefix) {
      InvalidatedInSomeBlock(prefix, k);
      var i :| 0 <= i < last && Invalidates(prefix[i].kind) && InBlock(prefix, i, k);
      InBlockPrefix(ss, last, i, k);
      assert prefix[i] == ss[i];
      assert Invalidates(ss[i].kind) && InBlock(ss, i, k);
    } else {
      assert Invalidates(ss[last].kind) && InBlock(ss, last, k);
    }
  }

  /** Every slot of the block of an invalidating substage is invalidated. */
  lemma {:induction false} BlockInvalidated(ss: seq<Substage>, i: nat, k: int)
    requires i < |ss| && Invalidates(ss[i].kind) && InBlock(ss, i, k)
    ensures k in InvalidatedBy(ss)
    decreases |ss|
  {
    var last := |ss| - 1;
    var prefix := ss[..last];
    InvalidatedByLast(ss, k);
    if i < last {
      InBlockPrefix(ss, last, i, k);
      assert prefix[i] == ss[i];
      BlockInvalidated(prefix, i, k);
    }
  }

  /** The `std::sort` of the list before the redevelopment pass leaves it as it is. */
  lemma SortInvalidated(ss: seq<Substage>)
    ensures Sort(InvalidatedBy(ss)) == InvalidatedBy(ss)
  {
    InvalidatedByShape(ss);
    SortOfAscending(InvalidatedBy(ss));
  }

  /** The draws of one repeat fit its substages. */
  predicate RepeatFits(ss: seq<Substage>, ds: seq<SubstageDraws>, n: nat)
  {
    |ds| == |ss| && forall k :: 0 <= k < |ss| ==> DrawsFit(ss[k], ds[k], n)
  }

  /**
   The caller's contract on a plan: at least one stage, the substages of every
   stage that runs fill the population exactly, and the draws of every repeat fit.
   */
  predicate PlanFits<W>(plan: seq<Stage<W>>, draws: seq<seq<seq<SubstageDraws>>>, n: nat)
  {
    && 0 < |plan| && |draws| == |plan|
    && forall i :: 0 <= i < |plan| ==>
         && (plan[i].repeats > 0 ==> Produced(plan[i].substages) == n)
         && |draws[i]| == plan[i].repeats
         && forall j :: 0 <= j < plan[i].repeats ==> RepeatFits(plan[i].substages, draws[i][j], n)
  }

  /** The effective weights of repeat j: `weights[0] + weights[1] * j` in the weight type's own arithmetic. */
  function Effective<W>(st: Stage<W>, j: nat, interpolate: (W, W, nat) -> W): W
  {
    interpolate(st.base, st.increment, j)
  }

  /**
   The weights under which every fitness was last computed when stage i begins:
   the first stage's base weights for the initial scoring, then the effective
   weights of the last repeat of the latest stage that had any.
   */
  function WeightsInForce<W>(plan: seq<Stage<W>>, i: nat, interpolate: (W, W, nat) -> W): W
    requires 0 < |plan| && i <= |plan|
  {
    if i == 0 then plan[0].base
    else if plan[i - 1].repeats == 0 then WeightsInForce(plan, i - 1, interpolate)
    else Effective(plan[i - 1], plan[i - 1].repeats - 1, interpolate)
  }

  /**
   Whether the reset of `previousWeights` at the start of stage i (line 93) is
   harmless when every fitness value was computed with the weights in force:
   the stage has no repeats, or its base weights are the weights in force, or
   its first repeat's weights differ from the base so that every slot is
   rescored.
   */
  predicate ResetHarmless<W(==)>(plan: seq<Stage<W>>, i: nat, interpolate: (W, W, nat) -> W)
    requires i < |plan|
  {
    || plan[i].repeats == 0
    || plan[i].base == WeightsInForce(plan, i, interpolate)
    || Effective(plan[i], 0, interpolate) != plan[i].base
  }

  /**
   The rescoring policy on the weights each fitness was computed with: with
   unchanged weights only the invalidated slots are rescored, otherwise all are.
   */
  function RescoreTags<W(==)>(tags: seq<W>, invalidated: seq<int>, effective: W, previous: W): (r: seq<W>)
    ensures |r| == |tags|
    ensures effective != previous ==> forall k :: 0 <= k < |tags| ==> r[k] == effective
    ensures forall k :: 0 <= k < |tags| && k in invalidated ==> r[k] == effective
    ensures effective == previous ==> forall k :: 0 <= k < |tags| && k !in invalidated ==> r[k] == tags[k]
  {
    seq(|tags|, k requires 0 <= k < |tags| => if effective != previous || k in invalidated then effective else tags[k])
  }

  /**
   When `previous` is what every slot outside the invalidation list was scored
   with, every slot is scored with the effective weights after the rescoring.
   */
  lemma RescoreFresh<W>(tags: seq<W>, invalidated: seq<int>, effective: W, previous: W)
    requires forall k :: 0 <= k < |tags| && k !in invalidated ==> tags[k] == previous
    ensures forall k :: 0 <= k < |tags| ==> RescoreTags(tags, invalidated, effective, previous)[k] == effective
  {
  }

  /**
   The filled slots below `upto` that are not listed carry values copied from
   `current`: the survivors' fitness values are copied, not recomputed.
   */
  ghost predicate Carried<W>(current: seq<W>, next: seq<W>, listed: seq<int>, upto: nat)
    requires upto <= |next|
  {
    forall k :: 0 <= k < upto && k !in listed ==> next[k] in current
  }

  /**
   Every slot below `upto` that is not listed holds the fitness of the body it
   was scored from under the weights it was scored with.
   */
  ghost predicate CarriedScores<F, B, W>(fitness: seq<F>, bodies: seq<B>, tags: seq<W>, f: (B, W) -> F,
                                         listed: seq<int>, upto: nat)
    requires upto <= |fitness| && upto <= |bodies| && upto <= |tags|
  {
    forall k :: 0 <= k < upto && k !in listed ==> fitness[k] == f(bodies[k], tags[k])
  }

  /**
   If every value of the current generation was computed with `previous`, so
   was every carried value of the next one.
   */
  lemma CopiedTags<W>(current: seq<W>, next: seq<W>, invalidated: seq<int>, previous: W)
    requires forall k :: 0 <= k < |current| ==> current[k] == previous
    requires Carried(current, next, invalidated, |next|)
    ensures forall k :: 0 <= k < |next| && k !in invalidated ==> next[k] == previous
  {
  }

  /**
   Stage i of the stage loop keeps every fitness value at the weights in
   force: if the tags before the stage were all the weights in force after
   stage i - 1 (when the reset is harmless or the weights are carried), and
   the stage's repeats behave as the repeat loop promises from the stage's
   starting weights, the tags after it are all the weights in force after
   stage i, and with carried weights the last effective weights are those.
   */
  lemma StageKeepsFresh<W>(plan: seq<Stage<W>>, i: nat, interpolate: (W, W, nat) -> W, carried: bool,
                               previous: W, last: W, before: seq<W>, after: seq<W>)
    requires i < |plan|
    requires carried ==> previous == WeightsInForce(plan, i, interpolate)
    requires carried || (forall i' :: 0 <= i' < i ==> ResetHarmless(plan, i', interpolate)) ==>
      forall k :: 0 <= k < |before| ==> before[k] == WeightsInForce(plan, i, interpolate)
    requires var start := if carried then previous else plan[i].base;
      && last == (if plan[i].repeats == 0 then start else Effective(plan[i], plan[i].repeats - 1, interpolate))
      && (plan[i].repeats == 0 ==> after == before)
      && ((forall k :: 0 <= k < |before| ==> before[k] == start)
          || (plan[i].repeats > 0 && Effective(plan[i], 0, interpolate) != start) ==>
          forall k :: 0 <= k < |after| ==> after[k] == last)
    ensures carried ==> last == WeightsInForce(plan, i + 1, interpolate)
    ensures carried || (forall i' :: 0 <= i' < i + 1 ==> ResetHarmless(plan, i', interpolate)) ==>
      forall k :: 0 <= k < |after| ==> after[k] == WeightsInForce(plan, i + 1, interpolate)
  {
    var start := if carried then previous else plan[i].base;
    var healthy := carried || forall i' :: 0 <= i' < i + 1 ==> ResetHarmless(plan, i', interpolate);
    if healthy && plan[i].repeats > 0 {
      assert !carried ==> ResetHarmless(plan, i, interpolate);
      assert (forall k :: 0 <= k < |before| ==> before[k] == start) || Effective(plan[i], 0, interpolate) != start;
    }
  }

  /**
   When the reset is not harmless, the first repeat of the stage compares its
   weights with the stage's own base, finds them equal and rescores only the
   listed slots: every other slot keeps a fitness computed with the weights in
   force, which are not the stage's weights.
   */
  lemma AsWrittenResetLeavesStale<W>(plan: seq<Stage<W>>, i: nat, interpolate: (W, W, nat) -> W,
                                     tags: seq<W>, invalidated: seq<int>, k: nat)
    requires i < |plan| && !ResetHarmless(plan, i, interpolate)
    requires forall k' :: 0 <= k' < |tags| ==> tags[k'] == WeightsInForce(plan, i, interpolate)
    requires k < |tags| && k !in invalidated
    ensures RescoreTags(tags, invalidated, Effective(plan[i], 0, interpolate), plan[i].base)[k]
         != Effective(plan[i], 0, interpolate)
  {
  }

  /**
   As written, a second stage whose base weights differ from the first stage's
   last effective weights, and whose first repeat invalidates no slot, rescoring
   nothing: the comparison at its repeat 0 is against its own base weights, so
   the slot keeps the fitness computed with the first stage's weights. Carrying
   the weights in force instead rescores it.
   */
  lemma AsWrittenStageStartKeepsStaleFitness()
    ensures var plan := [Stage([Substage(Roulette, 0.0, 1)], 1, 0, 1), Stage([Substage(Roulette, 0.0, 1)], 2, 0, 1)];
            var interpolate := (b: int, inc: int, j: nat) => b + inc * j;
            var inForce := WeightsInForce(plan, 1, interpolate);
            var effective := Effective(plan[1], 0, interpolate);
            && inForce == 1 && effective == 2
            && !ResetHarmless(plan, 1, interpolate)
            && InvalidatedBy(plan[1].substages) == []
            && RescoreTags([inForce], [], effective, plan[1].base) == [1]
            && RescoreTags([inForce], [], effective, inForce) == [2]
  {
    var ss := [Substage(Roulette, 0.0, 1)];
    assert ss[..0] == [];
  }
}
