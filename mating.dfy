/**
 Assortative partner selection of the two recombination substages. The parents
 come from the roulette ranking; every other member of the population is a
 candidate partner. The largest parent-candidate genetic distance normalises
 the distances, and each parent takes the candidate whose score
 `desired - distance / maxDelta` is least, stopping early at a score of exactly 0.

 The float score is modelled by `Score`: an ordered value, or the unordered
 value NaN, for which every `<` comparison is false.
 */
module Mating {

  datatype Score = Ordered(value: real) | Unordered

  /** The float comparison `a < b`: false whenever either side is NaN. */
  predicate Below(a: Score, b: Score)
  {
    a.Ordered? && b.Ordered? && a.value < b.value
  }

  /** The float comparison `a <= b`. */
  predicate AtMost(a: Score, b: Score)
  {
    a.Ordered? && b.Ordered? && a.value <= b.value
  }

  /** FLT_MAX, the initial `bestDelta`. */
  const FltMax: real := 340282346638528859811704183484516925440.0

  /** A population index that is not among the parents. */
  predicate IsCandidate(m: int, populationSize: nat, parents: seq<int>)
  {
    0 <= m < populationSize && m !in parents
  }

  predicate ParentsInRange(parents: seq<int>, populationSize: nat)
  {
    forall l :: 0 <= l < |parents| ==> 0 <= parents[l] < populationSize
  }

  /** The linear membership test with early exit that sets `ok`. */
  method ScanParents(m: int, parents: seq<int>) returns (ok: bool)
    ensures ok <==> m !in parents
  {
    ok := true;
    var o := 0;
    while o < |parents|
      invariant 0 <= o <= |parents|
      invariant m !in parents[..o]
    {
      if m == parents[o] {
        ok := false;
        break;
      }
      o := o + 1;
    }
    assert ok ==> parents[..o] == parents;
  }

  /** The genetic distance between parent l and population member m. */
  function PairDistance<G>(genomes: seq<G>, parents: seq<int>, distance: (G, G) -> nat, l: int, m: int): nat
    requires ParentsInRange(parents, |genomes|) && 0 <= l < |parents| && 0 <= m < |genomes|
  {
    distance(genomes[parents[l]], genomes[m])
  }

  /**
   The first nested loop: the largest distance between any parent and any
   candidate, or 0 when there is no candidate.
   */
  method MaxDelta<G>(genomes: seq<G>, parents: seq<int>, distance: (G, G) -> nat) returns (maxDelta: nat)
    requires ParentsInRange(parents, |genomes|)
    ensures forall l, m :: 0 <= l < |parents| && IsCandidate(m, |genomes|, parents) ==>
      PairDistance(genomes, parents, distance, l, m) <= maxDelta
    ensures maxDelta == 0 ||
      exists l, m :: 0 <= l < |parents| && IsCandidate(m, |genomes|, parents) &&
        PairDistance(genomes, parents, distance, l, m) == maxDelta
  {
    maxDelta := 0;
    ghost var wl, wm := 0, 0;
    for l := 0 to |parents|
      invariant forall l', m :: 0 <= l' < l && IsCandidate(m, |genomes|, parents) ==>
        PairDistance(genomes, parents, distance, l', m) <= maxDelta
      invariant maxDelta != 0 ==> (0 <= wl < |parents| && IsCandidate(wm, |genomes|, parents) &&
        PairDistance(genomes, parents, distance, wl, wm) == maxDelta)
    {
      for m := 0 to |genomes|
        invariant forall l', m' :: 0 <= l' < l && IsCandidate(m', |genomes|, parents) ==>
          PairDistance(genomes, parents, distance, l', m') <= maxDelta
        invariant forall m' :: 0 <= m' < m && IsCandidate(m', |genomes|, parents) ==>
          PairDistance(genomes, parents, distance, l, m') <= maxDelta
        invariant maxDelta != 0 ==> (0 <= wl < |parents| && IsCandidate(wm, |genomes|, parents) &&
          PairDistance(genomes, parents, distance, wl, wm) == maxDelta)
      {
        var ok := ScanParents(m, parents);
        if ok {
          var delta := distance(genomes[parents[l]], genomes[m]);
          if delta > maxDelta {
            maxDelta := delta;
            wl, wm := l, m;
          }
        }
      }
    }
  }

  /** maxDelta is 0 exactly when every parent-candidate distance is 0. */
  lemma MaxDeltaZero<G>(genomes: seq<G>, parents: seq<int>, distance: (G, G) -> nat, maxDelta: nat)
    requires ParentsInRange(parents, |genomes|)
    requires forall l, m :: 0 <= l < |parents| && IsCandidate(m, |genomes|, parents) ==>
      PairDistance(genomes, parents, distance, l, m) <= maxDelta
    requires maxDelta == 0 ||
      exists l, m :: 0 <= l < |parents| && IsCandidate(m, |genomes|, parents) &&
        PairDistance(genomes, parents, distance, l, m) == maxDelta
    ensures maxDelta == 0 <==> forall l, m :: 0 <= l < |parents| && IsCandidate(m, |genomes|, parents) ==>
      PairDistance(genomes, parents, distance, l, m) == 0
  {
  }

  /**
   The partner scan from index m on, with the running `bestDelta` and
   `bestMatchIndex`: a candidate replaces the best only when its score is
   strictly below, and a replacement scoring exactly 0 ends the scan.
   */
  function PartnerScan(m: nat, populationSize: nat, parents: seq<int>, score: int -> Score,
                       bestDelta: Score, bestMatchIndex: int): int
    decreases populationSize - m
  {
    if m >= populationSize then bestMatchIndex
    else if m !in parents && Below(score(m), bestDelta) then
      if score(m) == Ordered(0.0) then m
      else PartnerScan(m + 1, populationSize, parents, score, score(m), m)
    else PartnerScan(m + 1, populationSize, parents, score, bestDelta, bestMatchIndex)
  }

  /** The partner chosen for one parent, or -1 when the scan accepts no candidate. */
  function Partner(populationSize: nat, parents: seq<int>, score: int -> Score): int
  {
    PartnerScan(0, populationSize, parents, score, Ordered(FltMax), -1)
  }

  /** The second nested loop, for one parent: the argmin scan with the early stop. */
  method ChoosePartner(populationSize: nat, parents: seq<int>, score: int -> Score) returns (bestMatchIndex: int)
    ensures bestMatchIndex == Partner(populationSize, parents, score)
  {
    var bestDelta := Ordered(FltMax);
    bestMatchIndex := -1;
    var m := 0;
    while m < populationSize
      invariant 0 <= m <= populationSize
      invariant PartnerScan(m, populationSize, parents, score, bestDelta, bestMatchIndex)
             == Partner(populationSize, parents, score)
    {
      var ok := ScanParents(m, parents);
      if ok {
        var delta := score(m);
        if Below(delta, bestDelta) {
          bestDelta := delta;
          bestMatchIndex := m;
          if bestDelta == Ordered(0.0) {
            break;
          }
        }
      }
      m := m + 1;
    }
  }

  /** What the scan has established after looking at indices below m. */
  ghost predicate ScanInvariant(m: nat, populationSize: nat, parents: seq<int>, score: int -> Score,
                                bestDelta: Score, bestMatchIndex: int)
  {
    && (bestMatchIndex == -1 ==>
          && bestDelta == Ordered(FltMax)
          && forall k :: 0 <= k < m && IsCandidate(k, populationSize, parents) ==> !Below(score(k), Ordered(FltMax)))
    && (bestMatchIndex != -1 ==>
          && 0 <= bestMatchIndex < m
          && IsCandidate(bestMatchIndex, populationSize, parents)
          && bestDelta == score(bestMatchIndex)
          && Below(bestDelta, Ordered(FltMax))
          && (forall k :: 0 <= k < bestMatchIndex && IsCandidate(k, populationSize, parents) ==>
                !AtMost(score(k), bestDelta))
          && (forall k :: bestMatchIndex < k < m && IsCandidate(k, populationSize, parents) ==>
                !Below(score(k), bestDelta)))
  }

  /** What the chosen partner satisfies, given what the scan has established so far. */
  ghost predicate PartnerProperties(populationSize: nat, parents: seq<int>, score: int -> Score, r: int)
  {
    && (r == -1 ==> forall k :: IsCandidate(k, populationSize, parents) ==> !Below(score(k), Ordered(FltMax)))
    && (r != -1 ==>
          && IsCandidate(r, populationSize, parents)
          && Below(score(r), Ordered(FltMax))
          && (forall k :: 0 <= k < r && IsCandidate(k, populationSize, parents) ==> !AtMost(score(k), score(r)))
          && (score(r) == Ordered(0.0) ||
              forall k :: r < k < populationSize && IsCandidate(k, populationSize, parents) ==> !Below(score(k), score(r))))
  }

  lemma {:induction false} PartnerScanSound(m: nat, populationSize: nat, parents: seq<int>, score: int -> Score,
                                            bestDelta: Score, bestMatchIndex: int)
    requires m <= populationSize
    requires ScanInvariant(m, populationSize, parents, score, bestDelta, bestMatchIndex)
    ensures PartnerProperties(populationSize, parents, score,
                              PartnerScan(m, populationSize, parents, score, bestDelta, bestMatchIndex))
    decreases populationSize - m
  {
    if m < populationSize {
      if m !in parents && Below(score(m), bestDelta) {
        if score(m) != Ordered(0.0) {
          PartnerScanSound(m + 1, populationSize, parents, score, score(m), m);
        }
      } else {
        PartnerScanSound(m + 1, populationSize, parents, score, bestDelta, bestMatchIndex);
      }
    }
  }

  /**
   The chosen partner is never a parent, and it is -1 exactly when no candidate
   has a score below FLT_MAX. Otherwise every earlier candidate scored strictly
   above it (ties go to the first index), and every later one scored at least as
   much, unless the chosen score was exactly 0, where the scan stopped.
   */
  lemma PartnerSpec(populationSize: nat, parents: seq<int>, score: int -> Score)
    ensures var r := Partner(populationSize, parents, score);
      && -1 <= r < populationSize
      && (r == -1 <==> forall k :: IsCandidate(k, populationSize, parents) ==> !Below(score(k), Ordered(FltMax)))
      && PartnerProperties(populationSize, parents, score, r)
  {
    PartnerScanSound(0, populationSize, parents, score, Ordered(FltMax), -1);
  }

  /** When no candidate scores exactly 0, the partner is the first candidate of least score. */
  lemma PartnerIsFirstMinimum(populationSize: nat, parents: seq<int>, score: int -> Score)
    requires forall k :: IsCandidate(k, populationSize, parents) ==> score(k) != Ordered(0.0)
    requires forall k :: IsCandidate(k, populationSize, parents) ==> Below(score(k), Ordered(FltMax))
    requires exists k :: IsCandidate(k, populationSize, parents)
    ensures var r := Partner(populationSize, parents, score);
      && IsCandidate(r, populationSize, parents)
      && (forall k :: IsCandidate(k, populationSize, parents) ==> AtMost(score(r), score(k)))
      && (forall k :: 0 <= k < r && IsCandidate(k, populationSize, parents) ==> Below(score(r), score(k)))
  {
    PartnerSpec(populationSize, parents, score);
    var r := Partner(populationSize, parents, score);
    var w :| IsCandidate(w, populationSize, parents);
    assert Below(score(w), Ordered(FltMax));
  }

  /**
   The score line 151 computes, with exact arithmetic in place of float
   rounding. maxDelta is 0 only when every candidate distance is 0 (MaxDeltaZero),
   and then the division is 0 / 0.0f, which is NaN.
   */
  function NormalisedScore(desired: real, delta: nat, maxDelta: nat): (s: Score)
    ensures s.Unordered? <==> maxDelta == 0
    ensures s.Ordered? && delta <= maxDelta ==> desired - 1.0 <= s.value <= desired
  {
    if maxDelta == 0 then Unordered else Ordered(desired - (delta as real) / (maxDelta as real))
  }

  /** The scores one parent gives the population, as the source computes them. */
  function AsWrittenScores<G>(genomes: seq<G>, parent: int, desired: real, maxDelta: nat,
                              distance: (G, G) -> nat): int -> Score
  {
    m => if 0 <= parent < |genomes| && 0 <= m < |genomes|
         then NormalisedScore(desired, distance(genomes[parent], genomes[m]), maxDelta)
         else Unordered
  }

  /**
   As written, a maxDelta of 0 makes every score NaN, and no candidate is ever
   accepted: the partner stays -1 even though candidates exist. By
   `MaxDeltaZero`, the maxDelta of the first loop is 0 exactly when every
   candidate is at distance 0 from every parent.
   */
  lemma AsWrittenNoPartnerWhenMaxDeltaZero<G>(genomes: seq<G>, parents: seq<int>, l: nat, desired: real,
                                               distance: (G, G) -> nat)
    requires ParentsInRange(parents, |genomes|) && l < |parents|
    ensures Partner(|genomes|, parents, AsWrittenScores(genomes, parents[l], desired, 0, distance)) == -1
  {
    var score := AsWrittenScores(genomes, parents[l], desired, 0, distance);
    forall k | IsCandidate(k, |genomes|, parents)
      ensures !Below(score(k), Ordered(FltMax))
    {
      assert score(k) == NormalisedScore(desired, distance(genomes[parents[l]], genomes[k]), 0);
    }
    PartnerSpec(|genomes|, parents, score);
  }

  /**
   A concrete instance: two identical genomes, parent 0, candidate 1. MaxDelta
   can only return 0 here, and the partner is -1, so the crossover call reads
   the genome at index -1.
   */
  lemma AsWrittenNoPartnerExample()
    ensures var genomes := [7, 7];
            var distance := (a: int, b: int) => if a == b then 0 else 1;
            && IsCandidate(1, 2, [0])
            && PairDistance(genomes, [0], distance, 0, 1) == 0
            && Partner(2, [0], AsWrittenScores(genomes, 0, 0.5, 0, distance)) == -1
  {
    AsWrittenNoPartnerWhenMaxDeltaZero([7, 7], [0], 0, 0.5, (a: int, b: int) => if a == b then 0 else 1);
  }

  /**
   The evidently intended score: when maxDelta is 0 every normalised distance
   is taken as 0, so every candidate scores `desired`.
   */
  function CorrectedScore(desired: real, delta: nat, maxDelta: nat): (s: Score)
    ensures s.Ordered?
    ensures s.value <= desired
    ensures delta <= maxDelta ==> desired - 1.0 <= s.value
    ensures maxDelta > 0 ==> s == NormalisedScore(desired, delta, maxDelta)
  {
    if maxDelta == 0 then Ordered(desired) else NormalisedScore(desired, delta, maxDelta)
  }

  /** The scores one parent gives the population, with the corrected normalisation. */
  function Scores<G>(genomes: seq<G>, parent: int, desired: real, maxDelta: nat,
                     distance: (G, G) -> nat): int -> Score
  {
    m => if 0 <= parent < |genomes| && 0 <= m < |genomes|
         then CorrectedScore(desired, distance(genomes[parent], genomes[m]), maxDelta)
         else Unordered
  }

  /**
   With the corrected scores every parent gets a partner among the candidates
   whenever there is a candidate at all (and the desired distance is below FLT_MAX).
   */
  lemma CorrectedPartnerExists<G>(genomes: seq<G>, parent: int, parents: seq<int>, desired: real, maxDelta: nat,
                                  distance: (G, G) -> nat)
    requires 0 <= parent < |genomes| && desired < FltMax
    requires exists k :: IsCandidate(k, |genomes|, parents)
    ensures IsCandidate(Partner(|genomes|, parents, Scores(genomes, parent, desired, maxDelta, distance)), |genomes|, parents)
  {
    var score := Scores(genomes, parent, desired, maxDelta, distance);
    PartnerSpec(|genomes|, parents, score);
    var k :| IsCandidate(k, |genomes|, parents);
    assert score(k) == CorrectedScore(desired, distance(genomes[parent], genomes[k]), maxDelta);
  }

  /**
   As written, when maxDelta is positive every candidate within maxDelta of
   the parent scores at most `desired`, so with `desired` below FLT_MAX the parent
   gets a candidate partner.
   */
  lemma AsWrittenPartnerExists<G>(genomes: seq<G>, parent: int, parents: seq<int>, desired: real, maxDelta: nat,
                                  distance: (G, G) -> nat)
    requires 0 <= parent < |genomes| && desired < FltMax && maxDelta > 0
    requires exists k :: IsCandidate(k, |genomes|, parents) && distance(genomes[parent], genomes[k]) <= maxDelta
    ensures IsCandidate(Partner(|genomes|, parents, AsWrittenScores(genomes, parent, desired, maxDelta, distance)),
                        |genomes|, parents)
  {
    var score := AsWrittenScores(genomes, parent, desired, maxDelta, distance);
    PartnerSpec(|genomes|, parents, score);
    var k :| IsCandidate(k, |genomes|, parents) && distance(genomes[parent], genomes[k]) <= maxDelta;
    assert score(k) == NormalisedScore(desired, distance(genomes[parent], genomes[k]), maxDelta);
  }

  /** The scores of one parent: line 151's, or the corrected ones when `corrected` is set. */
  function ParentScores<G>(corrected: bool, genomes: seq<G>, parent: int, desired: real, maxDelta: nat,
                           distance: (G, G) -> nat): int -> Score
  {
    if corrected then Scores(genomes, parent, desired, maxDelta, distance)
    else AsWrittenScores(genomes, parent, desired, maxDelta, distance)
  }

  /**
   Lines 119-160 for one recombination substage: maxDelta over all
   parent-candidate pairs, then one partner per parent, scored as line 151
   does or, when `corrected` is set, with the corrected score. As written, a
   maxDelta of 0 leaves every parent without a partner; otherwise, and always
   with the corrected score, every parent gets a candidate when there is one.
   */
  method AssortativeMating<G>(genomes: seq<G>, parents: seq<int>, desired: real, distance: (G, G) -> nat,
                              corrected: bool)
    returns (maxDelta: nat, partners: seq<int>)
    requires ParentsInRange(parents, |genomes|)
    ensures forall l, m :: 0 <= l < |parents| && IsCandidate(m, |genomes|, parents) ==>
      PairDistance(genomes, parents, distance, l, m) <= maxDelta
    ensures maxDelta == 0 ||
      exists l, m :: 0 <= l < |parents| && IsCandidate(m, |genomes|, parents) &&
        PairDistance(genomes, parents, distance, l, m) == maxDelta
    ensures |partners| == |parents|
    ensures forall l :: 0 <= l < |parents| ==>
      partners[l] == Partner(|genomes|, parents, ParentScores(corrected, genomes, parents[l], desired, maxDelta, distance))
    ensures (corrected || maxDelta > 0) && desired < FltMax && (exists k :: IsCandidate(k, |genomes|, parents)) ==>
      forall l :: 0 <= l < |parents| ==> IsCandidate(partners[l], |genomes|, parents)
    ensures !corrected && maxDelta == 0 ==> forall l :: 0 <= l < |parents| ==> partners[l] == -1
  {
    maxDelta := MaxDelta(genomes, parents, distance);
    partners := [];
    for l := 0 to |parents|
      invariant |partners| == l
      invariant forall l' :: 0 <= l' < l ==>
        partners[l'] == Partner(|genomes|, parents, ParentScores(corrected, genomes, parents[l'], desired, maxDelta, distance))
    {
      var bestMatchIndex := ChoosePartner(|genomes|, parents, ParentScores(corrected, genomes, parents[l], desired, maxDelta, distance));
      partners := partners + [bestMatchIndex];
    }
    if (corrected || maxDelta > 0) && desired < FltMax && exists k :: IsCandidate(k, |genomes|, parents) {
      forall l | 0 <= l < |parents|
        ensures IsCandidate(partners[l], |genomes|, parents)
      {
        if corrected {
          CorrectedPartnerExists(genomes, parents[l], parents, desired, maxDelta, distance);
        } else {
          var k :| IsCandidate(k, |genomes|, parents);
          assert PairDistance(genomes, parents, distance, l, k) <= maxDelta;
          AsWrittenPartnerExists(genomes, parents[l], parents, desired, maxDelta, distance);
        }
      }
    }
    if !corrected && maxDelta == 0 {
      forall l | 0 <= l < |parents|
        ensures partners[l] == -1
      {
        AsWrittenNoPartnerWhenMaxDeltaZero(genomes, parents, l, desired, distance);
      }
    }
  }
}
