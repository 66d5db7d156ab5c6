/**
 The inside-out Fisher-Yates shuffle of the MUTATE substage. The random draws
 are an input: draw l lies in [0, l], as `uniform_int_distribution(0, l)` gives.
 */
module Permutations {

  /** Draw l of a shuffle over |draws| positions lies in [0, l]. */
  predicate ValidDraws(draws: seq<int>)
  {
    forall l :: 0 <= l < |draws| ==> 0 <= draws[l] <= l
  }

  /** p holds every index of [0, n) exactly once. */
  predicate IsPermutation(p: seq<int>, n: nat)
  {
    && |p| == n
    && (forall i :: 0 <= i < n ==> 0 <= p[i] < n)
    && (forall i, j :: 0 <= i < j < n ==> p[i] != p[j])
    && (forall v :: 0 <= v < n ==> v in p)
  }

  /**
   One step of the shuffle loop at position l = |prev|: the entry at the drawn
   index moves to position l, unless the draw is l itself, and l goes to the
   drawn index.
   */
  function Step(prev: seq<int>, index: int): (p: seq<int>)
    requires 0 <= index <= |prev|
    ensures |p| == |prev| + 1
  {
    var l := |prev|;
    if index == l then prev + [l] else prev[index := l] + [prev[index]]
  }

  /** The permutation the shuffle loop leaves after |draws| steps. */
  function Shuffle(draws: seq<int>): (p: seq<int>)
    requires ValidDraws(draws)
    ensures |p| == |draws|
    decreases |draws|
  {
    if draws == [] then [] else Step(Shuffle(draws[..|draws| - 1]), draws[|draws| - 1])
  }

  /** One unfolding of the shuffle at a last draw appended to a shorter sequence. */
  lemma ShuffleAppend(before: seq<int>, index: int)
    requires ValidDraws(before) && 0 <= index <= |before|
    ensures ValidDraws(before + [index])
    ensures Shuffle(before + [index]) == Step(Shuffle(before), index)
  {
    var draws := before + [index];
    assert draws[..|before|] == before;
  }

  /** The shuffle yields a permutation of [0, n) for every admissible draw sequence. */
  lemma {:induction false} ShuffleIsPermutation(draws: seq<int>)
    requires ValidDraws(draws)
    ensures IsPermutation(Shuffle(draws), |draws|)
  {
    if draws != [] {
      var l := |draws| - 1;
      var prev := Shuffle(draws[..l]);
      var index := draws[l];
      ShuffleIsPermutation(draws[..l]);
      var p := Shuffle(draws);
      if index == l {
        assert p == prev + [l];
        forall v | 0 <= v < l + 1 ensures v in p {
          if v < l {
            var i := IndexOf(prev, v);
            assert p[i] == v;
          } else {
            assert p[l] == v;
          }
        }
      } else {
        assert p == prev[index := l] + [prev[index]];
        forall i, j | 0 <= i < j < l + 1 ensures p[i] != p[j] {
          if j == l {
            assert p[j] == prev[index];
            if i != index { assert p[i] == prev[i]; }
          } else if i != index && j != index {
            assert p[i] == prev[i] && p[j] == prev[j];
          }
        }
        forall v | 0 <= v < l + 1 ensures v in p {
          if v == l {
            assert p[index] == v;
          } else if v == prev[index] {
            assert p[l] == v;
          } else {
            var i := IndexOf(prev, v);
            assert i != index && p[i] == v;
          }
        }
      }
    }
  }

  /** The position of v in s. */
  function IndexOf(s: seq<int>, v: int): (i: nat)
    requires v in s
    ensures i < |s| && s[i] == v
    ensures forall k :: 0 <= k < i ==> s[k] != v
  {
    if s[0] == v then 0 else 1 + IndexOf(s[1..], v)
  }

  /**
   Undoes the last step of the shuffle, given the position `index` of l = |p| - 1:
   the entry that step displaced moves back from position l to `index`.
   */
  function Undo(p: seq<int>, index: nat): (prev: seq<int>)
    requires index < |p|
    ensures |prev| == |p| - 1
  {
    var l := |p| - 1;
    if index == l then p[..l] else p[..l][index := p[l]]
  }

  /** Recovers the draws from a permutation: the position of l is draw l. */
  function Unshuffle(p: seq<int>): (draws: seq<int>)
    requires IsPermutation(p, |p|)
    ensures |draws| == |p| && ValidDraws(draws)
    decreases |p|
  {
    if p == [] then []
    else
      var index := IndexOf(p, |p| - 1);
      UndoIsPermutation(p, index);
      Unshuffle(Undo(p, index)) + [index]
  }

  /** Undoing the last step of a permutation of [0, l] leaves a permutation of [0, l). */
  lemma UndoIsPermutation(p: seq<int>, index: nat)
    requires p != [] && IsPermutation(p, |p|)
    requires index < |p| && p[index] == |p| - 1
    ensures IsPermutation(Undo(p, index), |p| - 1)
  {
    var l := |p| - 1;
    var prev := Undo(p, index);
    forall i | 0 <= i < l ensures 0 <= prev[i] < l {
      if i == index {
        assert prev[i] == p[l] && p[l] != p[index];
      } else {
        assert prev[i] == p[i] && p[i] != p[index];
      }
    }
    forall i, j | 0 <= i < j < l ensures prev[i] != prev[j] {
      if i == index {
        assert prev[i] == p[l] && prev[j] == p[j];
      } else if j == index {
        assert prev[j] == p[l] && prev[i] == p[i];
      } else {
        assert prev[i] == p[i] && prev[j] == p[j];
      }
    }
    forall v | 0 <= v < l ensures v in prev {
      var i := IndexOf(p, v);
      if i == l {
        assert index != l && prev[index] == v;
      } else {
        assert i != index && prev[i] == v;
      }
    }
  }

  /** Every permutation of [0, n) is what the shuffle gives for some admissible draw sequence. */
  lemma {:induction false} ShuffleUnshuffle(p: seq<int>)
    requires IsPermutation(p, |p|)
    ensures Shuffle(Unshuffle(p)) == p
    decreases |p|
  {
    if p != [] {
      var index := IndexOf(p, |p| - 1);
      UndoIsPermutation(p, index);
      var before := Unshuffle(Undo(p, index));
      assert Unshuffle(p) == before + [index];
      ShuffleUnshuffle(Undo(p, index));
      ShuffleAppend(before, index);
      RedoStep(p, index);
    }
  }

  /** Redoing the last step on the undone prefix rebuilds the sequence. */
  lemma RedoStep(p: seq<int>, index: nat)
    requires index < |p| && p[index] == |p| - 1
    ensures Step(Undo(p, index), index) == p
  {
  }

  /**
   Different draw sequences give different permutations. With the previous lemma
   the shuffle is a bijection from the n! admissible draw sequences onto the
   permutations of [0, n), so uniform draws give every permutation equally often.
   */
  lemma {:induction false} ShuffleInjective(d1: seq<int>, d2: seq<int>)
    requires ValidDraws(d1) && ValidDraws(d2) && |d1| == |d2|
    requires Shuffle(d1) == Shuffle(d2)
    ensures d1 == d2
  {
    if d1 != [] {
      var l := |d1| - 1;
      var p := Shuffle(d1);
      ShuffleIsPermutation(d1[..l]);
      ShuffleIsPermutation(d2[..l]);
      ShuffleIsPermutation(d1);
      PositionOfLast(d1);
      PositionOfLast(d2);
      assert d1[l] == d2[l];
      var index := d1[l];
      var prev1 := Shuffle(d1[..l]);
      var prev2 := Shuffle(d2[..l]);
      if index == l {
        assert prev1 == p[..l] == prev2;
      } else {
        assert prev1 == p[..l][index := p[l]];
        assert prev2 == p[..l][index := p[l]];
      }
      ShuffleInjective(d1[..l], d2[..l]);
      assert d1 == d1[..l] + [d1[l]];
      assert d2 == d2[..l] + [d2[l]];
    }
  }

  /** After the last step, the largest index sits exactly at the last draw. */
  lemma PositionOfLast(draws: seq<int>)
    requires ValidDraws(draws) && draws != []
    ensures Shuffle(draws)[draws[|draws| - 1]] == |draws| - 1
    ensures forall i :: 0 <= i < |draws| && i != draws[|draws| - 1] ==> Shuffle(draws)[i] != |draws| - 1
  {
    var l := |draws| - 1;
    var prev := Shuffle(draws[..l]);
    var index := draws[l];
    ShuffleIsPermutation(draws[..l]);
    var p := Step(prev, index);
    assert Shuffle(draws) == p;
    forall i | 0 <= i < |draws| && i != index
      ensures p[i] != l
    {
      if i < l {
        assert p[i] == prev[i];
      } else {
        assert p[l] == prev[index];
      }
    }
  }

  /**
   The shuffle loop: `permutation` is written in place, one step per position.
   The array is a fresh local of the substage, so it is returned as its contents.
   */
  method InsideOutShuffle(populationSize: nat, draws: seq<int>) returns (permutation: seq<int>)
    requires |draws| == populationSize && ValidDraws(draws)
    ensures permutation == Shuffle(draws)
    ensures IsPermutation(permutation, populationSize)
  {
    var a := new int[populationSize];
    for l := 0 to populationSize
      invariant a[..l] == Shuffle(draws[..l])
    {
      var index := draws[l];
      if index != l {
        a[l] := a[index];
      }
      a[index] := l;
      assert draws[..l + 1][..l] == draws[..l];
    }
    assert draws[..populationSize] == draws;
    permutation := a[..];
    ShuffleIsPermutation(draws);
  }
}
