/**
 The survivor copy of the four ranking substages. Each winner's genome and
 fitness are copied by value into the next generation, but its body buffer is
 not copied: the buffer handles of the current slot and of the destination slot
 are exchanged. Body buffers are named by `Handle`s; `Gens` holds the handles of
 the current and of the next generation.
 */
module Survivors {

  /** Names one of the 2 * populationSize body buffers. */
  type Handle = nat

  datatype Gens = Gens(current: seq<Handle>, next: seq<Handle>)

  /** Every winner index is a slot of the current generation. */
  predicate SourcesIn(sources: seq<int>, n: nat)
  {
    forall l :: 0 <= l < |sources| ==> 0 <= sources[l] < n
  }

  /**
   The buffer ownership invariant: both generations have n slots, every handle
   names one of the 2n buffers, and no buffer is held by two slots.
   */
  predicate Owns(g: Gens, n: nat)
  {
    && |g.current| == n && |g.next| == n
    && (forall i :: 0 <= i < n ==> g.current[i] < 2 * n && g.next[i] < 2 * n)
    && (forall i, j :: 0 <= i < j < n ==> g.current[i] != g.current[j])
    && (forall i, j :: 0 <= i < j < n ==> g.next[i] != g.next[j])
    && (forall i, j :: 0 <= i < n && 0 <= j < n ==> g.current[i] != g.next[j])
  }

  /** The handles as allocated: buffers 0..n-1 for the current generation, n..2n-1 for the next. */
  function InitialGens(n: nat): (g: Gens)
    ensures Owns(g, n)
  {
    Gens(seq(n, i => i), seq(n, i => n + i))
  }

  /** The commit exchanges the two generations; ownership is symmetric in them. */
  lemma CommitOwns(g: Gens, n: nat)
    requires Owns(g, n)
    ensures Owns(Gens(g.next, g.current), n)
  {
  }

  /** One exchange: the destination slot takes the winner's handle, the winner's slot takes the one it held. */
  function SwapStep(g: Gens, slot: int, w: int): (r: Gens)
    requires 0 <= slot < |g.next| && 0 <= w < |g.current|
    ensures |r.current| == |g.current| && |r.next| == |g.next|
  {
    Gens(g.current[w := g.next[slot]], g.next[slot := g.current[w]])
  }

  /** The exchange loop: winner sources[l] exchanges with slot ig + l, for l in order. */
  function SwapAll(g: Gens, sources: seq<int>, ig: nat): (r: Gens)
    requires SourcesIn(sources, |g.current|) && ig + |sources| <= |g.next|
    ensures |r.current| == |g.current| && |r.next| == |g.next|
    decreases |sources|
  {
    if sources == [] then g
    else
      var l := |sources| - 1;
      SwapStep(SwapAll(g, sources[..l], ig), ig + l, sources[l])
  }

  /** The multiset of all handles of both generations. */
  function AllHandles(g: Gens): multiset<Handle>
  {
    multiset(g.current) + multiset(g.next)
  }

  lemma SwapStepOwns(g: Gens, n: nat, slot: int, w: int)
    requires Owns(g, n) && 0 <= slot < n && 0 <= w < n
    ensures Owns(SwapStep(g, slot, w), n)
  {
    var r := SwapStep(g, slot, w);
    forall i, j | 0 <= i < j < n
      ensures r.current[i] != r.current[j]
    {
      if i == w {
        assert r.current[i] == g.next[slot] && r.current[j] == g.current[j];
      } else if j == w {
        assert r.current[j] == g.next[slot] && r.current[i] == g.current[i];
      } else {
        assert r.current[i] == g.current[i] && r.current[j] == g.current[j];
      }
    }
    forall i, j | 0 <= i < j < n
      ensures r.next[i] != r.next[j]
    {
      if i == slot {
        assert r.next[i] == g.current[w] && r.next[j] == g.next[j];
      } else if j == slot {
        assert r.next[j] == g.current[w] && r.next[i] == g.next[i];
      } else {
        assert r.next[i] == g.next[i] && r.next[j] == g.next[j];
      }
    }
    forall i, j | 0 <= i < n && 0 <= j < n
      ensures r.current[i] != r.next[j]
    {
      var ci := if i == w then g.next[slot] else g.current[i];
      var nj := if j == slot then g.current[w] else g.next[j];
      assert r.current[i] == ci && r.next[j] == nj;
    }
  }

  /**
   However the winners repeat, the exchange loop keeps the ownership invariant:
   no body buffer ends up held by two slots.
   */
  lemma {:induction false} SwapAllOwns(g: Gens, n: nat, sources: seq<int>, ig: nat)
    requires Owns(g, n) && SourcesIn(sources, n) && ig + |sources| <= n
    ensures Owns(SwapAll(g, sources, ig), n)
    decreases |sources|
  {
    if sources != [] {
      var l := |sources| - 1;
      SwapAllOwns(g, n, sources[..l], ig);
      SwapStepOwns(SwapAll(g, sources[..l], ig), n, ig + l, sources[l]);
    }
  }

  lemma SwapStepKeepsHandles(g: Gens, slot: int, w: int)
    requires 0 <= slot < |g.next| && 0 <= w < |g.current|
    ensures AllHandles(SwapStep(g, slot, w)) == AllHandles(g)
  {
  }

  /** No buffer is lost or duplicated: the multiset of handles is unchanged by the exchange loop. */
  lemma {:induction false} SwapAllKeepsHandles(g: Gens, sources: seq<int>, ig: nat)
    requires SourcesIn(sources, |g.current|) && ig + |sources| <= |g.next|
    ensures AllHandles(SwapAll(g, sources, ig)) == AllHandles(g)
    decreases |sources|
  {
    if sources != [] {
      var l := |sources| - 1;
      SwapAllKeepsHandles(g, sources[..l], ig);
      SwapStepKeepsHandles(SwapAll(g, sources[..l], ig), ig + l, sources[l]);
    }
  }

  /**
   The exchange loop touches only the destination slots [ig, ig + |sources|) of
   the next generation and only the winners' slots of the current one.
   */
  lemma {:induction false} SwapAllFrame(g: Gens, sources: seq<int>, ig: nat)
    requires SourcesIn(sources, |g.current|) && ig + |sources| <= |g.next|
    ensures forall k :: 0 <= k < |g.next| && !(ig <= k < ig + |sources|) ==>
      SwapAll(g, sources, ig).next[k] == g.next[k]
    ensures forall k :: 0 <= k < |g.current| && k !in sources ==>
      SwapAll(g, sources, ig).current[k] == g.current[k]
    decreases |sources|
  {
    if sources != [] {
      var l := |sources| - 1;
      SwapAllFrame(g, sources[..l], ig);
      assert forall k :: k !in sources ==> k !in sources[..l] && k != sources[l];
    }
  }

  /** The first time a winner is met, its slot receives the winner's own body buffer. */
  lemma {:induction false} SwapAllFirstOccurrence(g: Gens, sources: seq<int>, ig: nat, l: nat)
    requires SourcesIn(sources, |g.current|) && ig + |sources| <= |g.next|
    requires l < |sources| && sources[l] !in sources[..l]
    ensures SwapAll(g, sources, ig).next[ig + l] == g.current[sources[l]]
    decreases |sources|
  {
    var last := |sources| - 1;
    var prefix := sources[..last];
    if l == last {
      SwapAllFrame(g, prefix, ig);
      assert prefix == sources[..l];
    } else {
      assert prefix[..l] == sources[..l];
      SwapAllFirstOccurrence(g, prefix, ig, l);
    }
  }

  /**
   After the loop, a winner's current slot holds the handle that the destination
   slot of its last occurrence held before.
   */
  lemma {:induction false} SwapAllLastOccurrence(g: Gens, sources: seq<int>, ig: nat, l: nat)
    requires SourcesIn(sources, |g.current|) && ig + |sources| <= |g.next|
    requires l < |sources| && sources[l] !in sources[l + 1..]
    ensures SwapAll(g, sources, ig).current[sources[l]] == g.next[ig + l]
    decreases |sources|
  {
    var last := |sources| - 1;
    var prefix := sources[..last];
    if l == last {
      SwapAllFrame(g, prefix, ig);
    } else {
      assert sources[l + 1..] == prefix[l + 1..] + [sources[last]];
      SwapAllLastOccurrence(g, prefix, ig, l);
    }
  }

  /**
   A winner met again does not get its own body: slot ig + l2 receives the
   handle that slot ig + l1 of its previous occurrence held before the loop,
   a next-generation buffer whose content is left over from an earlier generation.
   */
  lemma SwapAllRepeatedWinner(g: Gens, sources: seq<int>, ig: nat, l1: nat, l2: nat)
    requires SourcesIn(sources, |g.current|) && ig + |sources| <= |g.next|
    requires l1 < l2 < |sources| && sources[l1] == sources[l2]
    requires forall k :: l1 < k < l2 ==> sources[k] != sources[l2]
    ensures SwapAll(g, sources, ig).next[ig + l2] == g.next[ig + l1]
  {
    var prefix := sources[..l2];
    assert sources[l1] !in prefix[l1 + 1..];
    SwapAllLastOccurrence(g, prefix, ig, l1);
    SwapAllNextPrefix(g, sources, ig, l2 + 1);
    assert sources[..l2 + 1][..l2] == prefix;
  }

  /** The exchange loop over a prefix of the winners, then the remaining steps. */
  lemma {:induction false} SwapAllNextPrefix(g: Gens, sources: seq<int>, ig: nat, p: nat)
    requires SourcesIn(sources, |g.current|) && ig + |sources| <= |g.next|
    requires 0 < p <= |sources|
    ensures SwapAll(g, sources, ig).next[ig + p - 1] == SwapAll(g, sources[..p], ig).next[ig + p - 1]
    decreases |sources|
  {
    if p < |sources| {
      var last := |sources| - 1;
      assert sources[..last][..p] == sources[..p];
      SwapAllNextPrefix(g, sources[..last], ig, p);
    } else {
      assert sources[..p] == sources;
    }
  }

  /**
   Winners 0, 1, ..., n-1 in order (every slot survives in place) simply
   exchange the two generations' handles, so after the commit every slot has
   its own buffer back.
   */
  lemma {:induction false} SwapAllIdentity(g: Gens, n: nat)
    requires |g.current| == n && |g.next| == n
    ensures SwapAll(g, seq(n, i => i), 0) == Gens(g.next, g.current)
  {
    SwapAllIdentityPrefix(g, n, n);
    var r := SwapAll(g, seq(n, i => i), 0);
    assert r.current == g.next && r.next == g.current;
  }

  /** After the first p in-place winners, the first p slots of the two generations are exchanged. */
  lemma {:induction false} SwapAllIdentityPrefix(g: Gens, n: nat, p: nat)
    requires |g.current| == n && |g.next| == n && p <= n
    ensures forall k :: 0 <= k < n ==>
      && SwapAll(g, seq(p, i => i), 0).current[k] == (if k < p then g.next[k] else g.current[k])
      && SwapAll(g, seq(p, i => i), 0).next[k] == (if k < p then g.current[k] else g.next[k])
  {
    if p > 0 {
      var s := seq(p, i => i);
      assert s[..p - 1] == seq(p - 1, i => i);
      SwapAllIdentityPrefix(g, n, p - 1);
      var h := SwapAll(g, s[..p - 1], 0);
      assert SwapAll(g, s, 0) == SwapStep(h, p - 1, p - 1);
    }
  }

  /**
   A block written at offset ig: the ranking oracle's picks into `winners`, or
   the values the survivor copy puts into the next generation's slots.
   */
  function Splice<T>(dst: seq<T>, ig: nat, src: seq<T>): (r: seq<T>)
    requires ig + |src| <= |dst|
    ensures |r| == |dst|
    ensures r[ig..ig + |src|] == src
    ensures forall k :: 0 <= k < |dst| && !(ig <= k < ig + |src|) ==> r[k] == dst[k]
    ensures forall k :: 0 <= k < |src| ==> r[ig + k] == src[k]
  {
    dst[..ig] + src + dst[ig + |src|..]
  }

  /** The values of the winners' slots, in winner order. */
  function Gather<T>(values: seq<T>, sources: seq<int>): (r: seq<T>)
    requires SourcesIn(sources, |values|)
    ensures |r| == |sources|
    ensures forall l :: 0 <= l < |sources| ==> r[l] == values[sources[l]]
  {
    seq(|sources|, l requires 0 <= l < |sources| => values[sources[l]])
  }

  /** The winners the survivor copy reads, as written: always the block at offset 0. */
  function SurvivorSourcesAsWritten(winners: seq<int>, ig: nat, n: nat): seq<int>
    requires n <= |winners|
  {
    winners[..n]
  }

  /** The winners the survivor copy evidently means: the block the ranking oracle just wrote. */
  function SurvivorSources(winners: seq<int>, ig: nat, n: nat): seq<int>
    requires ig + n <= |winners|
  {
    winners[ig..ig + n]
  }

  /** The winners the survivor copy reads: as written, or with the corrected offset when `corrected` is set. */
  function SurvivorSourcesFor(corrected: bool, winners: seq<int>, ig: nat, n: nat): seq<int>
    requires ig + n <= |winners|
  {
    if corrected then SurvivorSources(winners, ig, n) else SurvivorSourcesAsWritten(winners, ig, n)
  }

  /** With the corrected offset, the survivors of a ranking substage are exactly its own picks. */
  lemma SurvivorsAreOwnPicks(winners: seq<int>, ig: nat, picks: seq<int>)
    requires ig + |picks| <= |winners|
    ensures SurvivorSources(Splice(winners, ig, picks), ig, |picks|) == picks
  {
  }

  /**
   As written, a ranking substage that starts at or after slot |picks| copies
   the winners left at the front of the block by an earlier substage (or an
   earlier repeat), not the ones its oracle chose.
   */
  lemma AsWrittenIgnoresOwnPicks(winners: seq<int>, ig: nat, picks: seq<int>)
    requires |picks| <= ig && ig + |picks| <= |winners|
    ensures SurvivorSourcesAsWritten(Splice(winners, ig, picks), ig, |picks|) == winners[..|picks|]
  {
    var w := Splice(winners, ig, picks);
    assert w[..|picks|] == w[..ig][..|picks|];
  }

  /**
   A concrete instance: population 2, a first ROULETTE substage that picks slot
   0 and a second one that picks slot 1. The second copies slot 0 again.
   */
  lemma AsWrittenSecondSubstageExample()
    ensures var first := Splice([0, 0], 0, [0]);
            var second := Splice(first, 1, [1]);
            && second == [0, 1]
            && SurvivorSourcesAsWritten(second, 1, 1) == [0]
            && SurvivorSources(second, 1, 1) == [1]
  {
    var first := Splice([0, 0], 0, [0]);
    assert first == [0, 0];
    var second := Splice(first, 1, [1]);
    assert second == [0] + [1] + [];
  }
}
