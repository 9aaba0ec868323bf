/**
  What Order Crossover (OX) computes, stated on values: the child keeps the
  segment [start, end) of one parent and receives, at the positions
  end, end+1, ... (mod size) up to start-1, the genes of the other route that
  are not in that segment, in that route's order scanned from its index 0.
 */
module CrossoverSpec {
  import opened Routes

  /** The genes of `donor` that are not in `segment`, in the donor's order. */
  function Remaining(donor: seq<nat>, segment: seq<nat>): (r: seq<nat>)
    ensures |r| <= |donor|
  {
    if donor == [] then []
    else
      var k := |donor| - 1;
      assert donor == donor[..k] + [donor[k]];
      Remaining(donor[..k], segment) + (if donor[k] in segment then [] else [donor[k]])
  }

  /** Scanning a prefix of the donor yields a prefix of the remaining genes. */
  lemma {:induction false} RemainingPrefix(donor: seq<nat>, segment: seq<nat>, t: nat)
    requires t <= |donor|
    ensures Remaining(donor[..t], segment) <= Remaining(donor, segment)
    decreases |donor|
  {
    if t < |donor| {
      var k := |donor| - 1;
      assert donor[..k][..t] == donor[..t];
      RemainingPrefix(donor[..k], segment, t);
    } else {
      assert donor[..t] == donor;
    }
  }

  /** Scanning one more donor gene appends it when it is not in the segment. */
  lemma RemainingStep(donor: seq<nat>, segment: seq<nat>, t: nat)
    requires t < |donor|
    ensures Remaining(donor[..t + 1], segment)
         == Remaining(donor[..t], segment) + (if donor[t] in segment then [] else [donor[t]])
  {
    assert donor[..t + 1][..t] == donor[..t];
  }

  /** How often each gene occurs among the remaining genes. */
  lemma {:induction false} RemainingCount(donor: seq<nat>, segment: seq<nat>, x: nat)
    ensures multiset(Remaining(donor, segment))[x] == if x in segment then 0 else multiset(donor)[x]
  {
    if donor != [] {
      var k := |donor| - 1;
      assert donor == donor[..k] + [donor[k]];
      RemainingCount(donor[..k], segment, x);
    }
  }

  /** An empty segment removes nothing. */
  lemma {:induction false} RemainingNothing(donor: seq<nat>)
    ensures Remaining(donor, []) == donor
  {
    if donor != [] {
      var k := |donor| - 1;
      assert donor == donor[..k] + [donor[k]];
      RemainingNothing(donor[..k]);
    }
  }

  /** The counting argument behind OX: when both routes are permutations of
      0..n-1, the segment and the remaining genes together hold every city
      exactly once, so exactly n - (end - start) genes remain. */
  lemma RemainingLength(keeper: seq<nat>, donor: seq<nat>, start: nat, end: nat)
    requires IsPermutation(keeper, |keeper|) && IsPermutation(donor, |keeper|)
    requires start <= end <= |keeper|
    ensures multiset(Remaining(donor, keeper[start..end])) + multiset(keeper[start..end])
         == multiset(Identity(|keeper|))
    ensures |Remaining(donor, keeper[start..end])| == |keeper| - (end - start)
  {
    var n, segment := |keeper|, keeper[start..end];
    var fill := Remaining(donor, segment);
    var both: multiset<nat> := multiset(fill) + multiset(segment);
    forall x: nat
      ensures both[x] == multiset(Identity(n))[x]
    {
      RemainingCount(donor, segment, x);
      SegmentCount(keeper, n, start, end, x);
      PermutationCount(donor, n, x);
      IdentityCount(n, x);
    }
    assert multiset(fill) + multiset(segment) == multiset(Identity(n));
    assert |multiset(Identity(n))| == |Identity(n)| == n;
  }

  /** The position the k-th remaining gene is written to: end + k taken
      cyclically modulo size (the program's `idx % size`). */
  function Slot(end: nat, k: nat, size: nat): (p: nat)
    requires end < size && k < size
    ensures p < size
  {
    if end + k < size then end + k else end + k - size
  }

  /** The child that OX makes from `keeper` (whose segment stays) and `donor`
      (which supplies the rest). */
  function OxChild(keeper: seq<nat>, donor: seq<nat>, start: nat, end: nat): (child: seq<nat>)
    requires IsPermutation(keeper, |keeper|) && IsPermutation(donor, |keeper|)
    requires start <= end < |keeper|
    ensures |child| == |keeper|
    ensures child[start..end] == keeper[start..end]
    ensures var fill := Remaining(donor, keeper[start..end]);
            |fill| == |keeper| - (end - start) &&
            forall k | 0 <= k < |fill| :: child[Slot(end, k, |keeper|)] == fill[k]
  {
    var n := |keeper|;
    var fill := Remaining(donor, keeper[start..end]);
    RemainingLength(keeper, donor, start, end);
    fill[n - end..] + keeper[start..end] + fill[..n - end]
  }

  /** Every position outside the segment is the slot of exactly one of the
      remaining genes, so the segment and the slots cover the whole route. */
  lemma SlotsCover(start: nat, end: nat, size: nat, p: nat)
    requires start <= end < size && p < size && !(start <= p < end)
    ensures var k := if p >= end then p - end else p + size - end;
            k < size - (end - start) && Slot(end, k, size) == p
  {
  }

  /** No slot falls inside the segment, and different genes get different slots. */
  lemma SlotsOutside(start: nat, end: nat, size: nat, k: nat)
    requires start <= end < size && k < size - (end - start)
    ensures !(start <= Slot(end, k, size) < end)
    ensures forall k' | 0 <= k' < size - (end - start) && k' != k :: Slot(end, k', size) != Slot(end, k, size)
  {
  }

  /** One step of the fill loop, on values: when t donor genes have produced
      the first w remaining genes, gene t is either in the segment (nothing is
      produced) or it is remaining gene w. */
  lemma FillStep(donor: seq<nat>, segment: seq<nat>, t: nat, w: nat)
    requires t < |donor| && w <= |Remaining(donor, segment)|
    requires Remaining(donor[..t], segment) == Remaining(donor, segment)[..w]
    ensures donor[t] in segment ==> Remaining(donor[..t + 1], segment) == Remaining(donor, segment)[..w]
    ensures donor[t] !in segment ==>
              && w < |Remaining(donor, segment)|
              && Remaining(donor, segment)[w] == donor[t]
              && Remaining(donor[..t + 1], segment) == Remaining(donor, segment)[..w + 1]
  {
    var fill := Remaining(donor, segment);
    RemainingStep(donor, segment, t);
    RemainingPrefix(donor, segment, t + 1);
    if donor[t] !in segment {
      assert Remaining(donor[..t + 1], segment) == fill[..w] + [donor[t]];
      assert fill[..w + 1] == Remaining(donor[..t + 1], segment);
    }
  }

  /** The donor cannot run out while remaining genes are still unwritten: the
      fill loop stops within its first pass over the donor. */
  lemma FillWithinOnePass(donor: seq<nat>, segment: seq<nat>, t: nat, w: nat)
    requires t <= |donor| && w < |Remaining(donor, segment)|
    requires Remaining(donor[..t], segment) == Remaining(donor, segment)[..w]
    ensures t < |donor|
  {
    assert donor[..|donor|] == donor;
  }

  /** Reducing a position that is already in range changes nothing. */
  lemma ModOfSmaller(t: nat, size: nat)
    requires t < size
    ensures t % size == t
  {
  }

  /** Multiplying by a non-negative factor keeps these bounds. */
  lemma MulBounds(a: nat, q: int)
    ensures q <= 0 ==> a * q <= 0
    ensures q >= 2 ==> a * q >= 2 * a
  {
  }

  /** A number between size and 2 * size wraps around exactly once. */
  lemma ModOfOneWrap(x: nat, size: nat)
    requires size <= x < 2 * size
    ensures x % size == x - size
  {
    var q, r := x / size, x % size;
    assert x == size * q + r && 0 <= r < size;
    MulBounds(size, q);
    assert q == 1;
  }

  /** The position `idx % size` of the program's fill loop, once w genes have
      been written from `end` on, is the slot of the w-th remaining gene. */
  lemma SlotIsIndexModSize(end: nat, w: nat, size: nat, idx: nat)
    requires end < size && w < size && idx == end + w
    ensures idx % size == Slot(end, w, size)
  {
    if idx < size {
      ModOfSmaller(idx, size);
    } else {
      ModOfOneWrap(idx, size);
    }
  }

  /** The fill loop's stopping test `idx % size == start` first succeeds once
      all n - (end - start) remaining genes have been written. */
  lemma StopsAfterLastSlot(start: nat, end: nat, size: nat, w: nat, idx: nat)
    requires start <= end < size && 1 <= w <= size - (end - start) && idx == end + w
    ensures (idx % size == start) <==> w == size - (end - start)
  {
    if idx < size {
      ModOfSmaller(idx, size);
    } else {
      ModOfOneWrap(idx, size);
    }
  }

  /** The first t donor genes have produced the first w remaining genes. */
  predicate Scanned(donor: seq<nat>, segment: seq<nat>, t: nat, w: nat)
  {
    t <= |donor| && w <= |Remaining(donor, segment)| && Remaining(donor[..t], segment) == Remaining(donor, segment)[..w]
  }

  /** One turn of the fill loop's scan: while remaining genes are still
      unwritten, the donor has not run out (so `t % size` is `t`), and gene t
      either lies in the segment or is the next remaining gene. */
  lemma ScanStep(donor: seq<nat>, segment: seq<nat>, t: nat, w: nat)
    requires Scanned(donor, segment, t, w) && w < |Remaining(donor, segment)|
    ensures t < |donor| && t % |donor| == t
    ensures donor[t] in segment ==> Scanned(donor, segment, t + 1, w)
    ensures donor[t] !in segment ==> Remaining(donor, segment)[w] == donor[t] && Scanned(donor, segment, t + 1, w + 1)
  {
    FillWithinOnePass(donor, segment, t, w);
    FillStep(donor, segment, t, w);
    ModOfSmaller(t, |donor|);
  }

  /** One write of the fill loop: the program's position `idx % size` is the
      slot of remaining gene w, writing gene w there extends the written
      prefix by one, and the stopping test after it succeeds exactly when
      that was the last remaining gene. */
  lemma WriteStep(base: seq<nat>, start: nat, end: nat, fill: seq<nat>, w: nat, idx: nat)
    requires start <= end < |base| && |fill| == |base| - (end - start) && w < |fill| && idx == end + w
    ensures idx % |base| == Slot(end, w, |base|)
    ensures Written(base, fill[..w + 1], end) == Written(base, fill[..w], end)[Slot(end, w, |base|) := fill[w]]
    ensures ((idx + 1) % |base| == start) <==> w + 1 == |fill|
    ensures w + 1 == |fill| ==> fill[..w + 1] == fill
  {
    SlotIsIndexModSize(end, w, |base|, idx);
    StopsAfterLastSlot(start, end, |base|, w + 1, idx + 1);
    assert fill[..w + 1][..w] == fill[..w];
  }

  /** The state of the fill loop on values: t donor genes scanned, the first
      idx - end remaining genes written into `current`, and not all of them
      written yet. */
  predicate FillState(base: seq<nat>, donor: seq<nat>, segment: seq<nat>, end: nat, t: nat, idx: nat,
                      current: seq<nat>)
  {
    && end < |base| && |Remaining(donor, segment)| <= |base|
    && end <= idx < end + |Remaining(donor, segment)|
    && Scanned(donor, segment, t, idx - end)
    && current == Written(base, Remaining(donor, segment)[..idx - end], end)
  }

  /** One turn of the fill loop: gene t of the donor is skipped when it lies
      in the segment; otherwise it is written at `idx % size`, and the
      stopping test then succeeds exactly when all remaining genes are
      written, so the buffer is the complete fill. */
  lemma FillTurn(base: seq<nat>, donor: seq<nat>, segment: seq<nat>, start: nat, end: nat, t: nat, idx: nat,
                 current: seq<nat>)
    requires start <= end < |base| && |donor| == |base|
    requires |Remaining(donor, segment)| == |base| - (end - start)
    requires FillState(base, donor, segment, end, t, idx, current)
    ensures t < |donor| && t % |donor| == t && |current| == |base|
    ensures donor[t] in segment ==> FillState(base, donor, segment, end, t + 1, idx, current)
    ensures donor[t] !in segment ==>
              var next := current[idx % |base| := donor[t]];
              && (((idx + 1) % |base| == start) ==> next == Written(base, Remaining(donor, segment), end))
              && (((idx + 1) % |base| != start) ==> FillState(base, donor, segment, end, t + 1, idx + 1, next))
  {
    var fill, w := Remaining(donor, segment), idx - end;
    ScanStep(donor, segment, t, w);
    if donor[t] !in segment {
      WriteStep(base, start, end, fill, w, idx);
    }
  }

  /** The positional description determines the child: a route that keeps the
      segment and holds the k-th remaining gene at slot k is the OX child. */
  lemma OxChildByPositions(keeper: seq<nat>, donor: seq<nat>, start: nat, end: nat, c: seq<nat>)
    requires IsPermutation(keeper, |keeper|) && IsPermutation(donor, |keeper|)
    requires start <= end < |keeper| && |donor| == |keeper| && |c| == |keeper|
    requires forall p | start <= p < end :: c[p] == keeper[p]
    requires var fill := Remaining(donor, keeper[start..end]);
             forall k | 0 <= k < |fill| :: c[Slot(end, k, |keeper|)] == fill[k]
    ensures c == OxChild(keeper, donor, start, end)
  {
    var n, child := |keeper|, OxChild(keeper, donor, start, end);
    forall p | 0 <= p < n
      ensures c[p] == child[p]
    {
      if start <= p < end {
        assert child[p] == child[start..end][p - start];
      } else {
        SlotsCover(start, end, n, p);
      }
    }
  }

  /** The fill loop on values: `base` with genes[k] written at slot k, one
      gene after another. */
  function Written(base: seq<nat>, genes: seq<nat>, end: nat): (r: seq<nat>)
    requires end < |base| && |genes| <= |base|
    ensures |r| == |base|
    decreases |genes|
  {
    if genes == [] then base
    else
      var w := |genes| - 1;
      Written(base, genes[..w], end)[Slot(end, w, |base|) := genes[w]]
  }

  /** The fill loop leaves the segment alone. */
  lemma {:induction false} WrittenKeepsSegment(base: seq<nat>, genes: seq<nat>, start: nat, end: nat, p: nat)
    requires start <= end < |base| && |genes| <= |base| - (end - start) && start <= p < end
    ensures Written(base, genes, end)[p] == base[p]
    decreases |genes|
  {
    if genes != [] {
      var w := |genes| - 1;
      SlotsOutside(start, end, |base|, w);
      WrittenKeepsSegment(base, genes[..w], start, end, p);
    }
  }

  /** Slot k ends up holding genes[k]: no later gene overwrites it. */
  lemma {:induction false} WrittenAtSlot(base: seq<nat>, genes: seq<nat>, start: nat, end: nat, k: nat)
    requires start <= end < |base| && |genes| <= |base| - (end - start) && k < |genes|
    ensures Written(base, genes, end)[Slot(end, k, |base|)] == genes[k]
    decreases |genes|
  {
    var w := |genes| - 1;
    if k < w {
      SlotsOutside(start, end, |base|, w);
      WrittenAtSlot(base, genes[..w], start, end, k);
      assert genes[..w][k] == genes[k];
    }
  }

  /** Writing the remaining genes from `end` on, on a copy of `keeper`,
      gives the OX child. */
  lemma WrittenIsOxChild(keeper: seq<nat>, donor: seq<nat>, start: nat, end: nat)
    requires IsPermutation(keeper, |keeper|) && IsPermutation(donor, |keeper|)
    requires start <= end < |keeper|
    ensures |Remaining(donor, keeper[start..end])| == |keeper| - (end - start)
    ensures Written(keeper, Remaining(donor, keeper[start..end]), end) == OxChild(keeper, donor, start, end)
  {
    var fill := Remaining(donor, keeper[start..end]);
    RemainingLength(keeper, donor, start, end);
    PermutationBounds(donor, |keeper|);
    var c := Written(keeper, fill, end);
    forall p | start <= p < end
      ensures c[p] == keeper[p]
    {
      WrittenKeepsSegment(keeper, fill, start, end, p);
    }
    forall k | 0 <= k < |fill|
      ensures c[Slot(end, k, |keeper|)] == fill[k]
    {
      WrittenAtSlot(keeper, fill, start, end, k);
    }
    OxChildByPositions(keeper, donor, start, end, c);
  }

  /** OX keeps a child a permutation of 0..n-1: the key property that makes it
      fit for routes. */
  lemma OxChildIsPermutation(keeper: seq<nat>, donor: seq<nat>, start: nat, end: nat)
    requires IsPermutation(keeper, |keeper|) && IsPermutation(donor, |keeper|)
    requires start <= end < |keeper|
    ensures IsPermutation(OxChild(keeper, donor, start, end), |keeper|)
  {
    var n := |keeper|;
    var segment := keeper[start..end];
    var fill := Remaining(donor, segment);
    RemainingLength(keeper, donor, start, end);
    var child := OxChild(keeper, donor, start, end);
    assert child == fill[n - end..] + segment + fill[..n - end];
    assert fill == fill[..n - end] + fill[n - end..];
    assert multiset(child) == multiset(fill) + multiset(segment);
  }

  /** With an empty segment the child is the donor rotated so that the donor's
      first gene lands at position `end`. */
  lemma OxChildEmptySegment(keeper: seq<nat>, donor: seq<nat>, end: nat)
    requires IsPermutation(keeper, |keeper|) && IsPermutation(donor, |keeper|)
    requires end < |keeper| && |donor| == |keeper|
    ensures OxChild(keeper, donor, end, end) == donor[|donor| - end..] + donor[..|donor| - end]
  {
    assert keeper[end..end] == [];
    RemainingNothing(donor);
  }

  /** The three routes of the worked example below are permutations of 0..4. */
  lemma ExampleRoute(route: seq<nat>)
    requires route == [0, 1, 2, 3, 4] || route == [4, 3, 2, 1, 0] || route == [0, 1, 2, 4, 3]
    ensures IsPermutation(route, 5)
  {
    DistinctIsPermutation(route, 5);
  }

  /** The genes the first fill loop of the worked example writes. */
  lemma ExampleFill1()
    ensures Remaining([4, 3, 2, 1, 0], [1, 2]) == [4, 3, 0]
  {
    var donor: seq<nat>, segment: seq<nat> := [4, 3, 2, 1, 0], [1, 2];
    assert donor[..0] == [];
    RemainingStep(donor, segment, 0);
    RemainingStep(donor, segment, 1);
    RemainingStep(donor, segment, 2);
    RemainingStep(donor, segment, 3);
    RemainingStep(donor, segment, 4);
    assert donor[..5] == donor;
  }

  /** The genes the second fill loop of the worked example writes. */
  lemma ExampleFill2()
    ensures Remaining([0, 1, 2, 4, 3], [3, 2]) == [0, 1, 4]
  {
    var donor: seq<nat>, segment: seq<nat> := [0, 1, 2, 4, 3], [3, 2];
    assert donor[..0] == [];
    RemainingStep(donor, segment, 0);
    RemainingStep(donor, segment, 1);
    RemainingStep(donor, segment, 2);
    RemainingStep(donor, segment, 3);
    RemainingStep(donor, segment, 4);
    assert donor[..5] == donor;
  }

  /** The worked example, first child: parents [0,1,2,3,4] and [4,3,2,1,0]
      with segment [1,3) give [0,1,2,4,3]. */
  lemma OxExampleChild1(parent1: seq<nat>, parent2: seq<nat>, child1: seq<nat>)
    requires parent1 == [0, 1, 2, 3, 4] && parent2 == [4, 3, 2, 1, 0] && child1 == [0, 1, 2, 4, 3]
    ensures IsPermutation(parent1, 5) && IsPermutation(parent2, 5)
    ensures OxChild(parent1, parent2, 1, 3) == child1
  {
    var fill: seq<nat> := [4, 3, 0];
    assert parent1[1..3] == [1, 2];
    assert fill[2..] + parent1[1..3] + fill[..2] == child1;
    ExampleFill1();
    ExampleRoute(parent1);
    ExampleRoute(parent2);
    assert OxChild(parent1, parent2, 1, 3) == fill[2..] + parent1[1..3] + fill[..2];
  }

  /** The worked example, second child: it keeps [3,2] from parent 2 and is
      filled from the rewritten first child [0,1,2,4,3], giving [4,3,2,0,1]. */
  lemma OxExampleChild2(parent2: seq<nat>, child1: seq<nat>, child2: seq<nat>)
    requires parent2 == [4, 3, 2, 1, 0] && child1 == [0, 1, 2, 4, 3] && child2 == [4, 3, 2, 0, 1]
    ensures IsPermutation(parent2, 5) && IsPermutation(child1, 5)
    ensures OxChild(parent2, child1, 1, 3) == child2
  {
    var fill: seq<nat> := [0, 1, 4];
    assert parent2[1..3] == [3, 2];
    assert fill[2..] + parent2[1..3] + fill[..2] == child2;
    ExampleFill2();
    ExampleRoute(parent2);
    ExampleRoute(child1);
    assert OxChild(parent2, child1, 1, 3) == fill[2..] + parent2[1..3] + fill[..2];
  }
}
