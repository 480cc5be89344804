/** getHotSucc: the successor that takes more than four fifths of a block's weight, and when its assertion holds. */
module HotSuccessors {
  import opened BranchModel
  import opened BranchWeights
  import opened BranchRules
  import opened BranchProbability
  import opened BranchTotals
  import opened Wrappers

  /** The weight of a successor as the code has it, in 32 bits. */
  ghost function Uint32To(f: Function, w: Weights, b: Block, d: Block): (r: int)
    requires b in f.succs
    ensures 0 <= r < TWO32
  {
    WeightTo(f, w, b, d) % TWO32
  }

  /** One such weight per edge: a destination with several edges comes up several times. */
  ghost function SuccessorWeights(f: Function, w: Weights, b: Block): (ws: seq<int>)
    requires b in f.succs
    ensures |ws| == |f.succs[b]| && forall i | 0 <= i < |ws| :: 0 <= ws[i] < TWO32
  {
    seq(|f.succs[b]|, i requires 0 <= i < |f.succs[b]| => Uint32To(f, w, b, f.succs[b][i]))
  }

  /** The assertion that the sum grows with every successor: no weight is 0 and the sum fits. */
  ghost predicate AlwaysGrows(ws: seq<int>) {
    (forall i | 0 <= i < |ws| :: ws[i] > 0) && Sum(ws) < TWO32
  }

  lemma GrowsOnce(ws: seq<int>, i: nat)
    requires i < |ws| && forall j | 0 <= j < |ws| :: 0 <= ws[j] < TWO32
    ensures AlwaysGrows(ws[..i + 1]) <==> AlwaysGrows(ws[..i]) && ws[i] > 0 && Sum(ws[..i]) + ws[i] < TWO32
  {
    SumSnoc(ws, i);
    assert ws[..i + 1] == ws[..i] + [ws[i]];
    assert ws[..i + 1][i] == ws[i];
    if AlwaysGrows(ws[..i + 1]) {
      assert forall j | 0 <= j < i :: ws[..i][j] == ws[..i + 1][j];
    }
  }

  /** In 32 bits a sum grows exactly when what is added is not 0 and it does not come round. */
  lemma GrowsInUint32(sum: int, weight: int)
    requires 0 <= sum < TWO32 && 0 <= weight < TWO32
    ensures (sum + weight) % TWO32 > sum <==> weight > 0 && sum + weight < TWO32
    ensures sum + weight < TWO32 ==> (sum + weight) % TWO32 == sum + weight
  {
  }

  /** The loop's sum over the first i + 1 successors. */
  lemma NextSum(ws: seq<int>, i: nat, sum: int, ok: bool)
    requires i < |ws| && (forall j | 0 <= j < |ws| :: 0 <= ws[j] < TWO32) && 0 <= sum < TWO32
    requires (ok <==> AlwaysGrows(ws[..i])) && (ok ==> sum == Sum(ws[..i]))
    ensures var sum' := (sum + ws[i]) % TWO32;
            (ok && sum' > sum <==> AlwaysGrows(ws[..i + 1])) && (ok && sum' > sum ==> sum' == Sum(ws[..i + 1]))
  {
    GrowsOnce(ws, i);
    SumSnoc(ws, i);
    GrowsInUint32(sum, ws[i]);
  }

  lemma EveryDestination(f: Function, w: Weights, b: Block, most: int)
    requires b in f.succs && forall j | 0 <= j < |f.succs[b]| :: SuccessorWeights(f, w, b)[j] <= most
    ensures forall d | d in f.succs[b] :: Uint32To(f, w, b, d) <= most
  {
    forall d | d in f.succs[b] ensures Uint32To(f, w, b, d) <= most {
      var j: nat :| j < |f.succs[b]| && f.succs[b][j] == d;
      assert SuccessorWeights(f, w, b)[j] == Uint32To(f, w, b, d);
    }
  }

  /** getHotSucc; ok says that the sum grew with every successor. */
  method GetHotSucc(f: Function, w: Weights, b: Block) returns (hot: Option<Block>, ok: bool)
    requires b in f.succs && Uint32s(w)
    ensures ok <==> AlwaysGrows(SuccessorWeights(f, w, b))
    ensures ok && hot.Some? ==> hot.value in f.succs[b] && 5 * Uint32To(f, w, b, hot.value) > 4 * Sum(SuccessorWeights(f, w, b))
    ensures ok && hot == None ==> forall d | d in f.succs[b] :: 5 * Uint32To(f, w, b, d) <= 4 * Sum(SuccessorWeights(f, w, b))
  {
    ghost var ws := SuccessorWeights(f, w, b);
    var sum, maxWeight := 0, 0;
    hot, ok := None, true;
    for i := 0 to |f.succs[b]|
      invariant 0 <= sum < TWO32 && (ok <==> AlwaysGrows(ws[..i])) && (ok ==> sum == Sum(ws[..i]))
      invariant forall j | 0 <= j < i :: ws[j] <= maxWeight
      invariant if hot.Some? then hot.value in f.succs[b] && Uint32To(f, w, b, hot.value) == maxWeight else maxWeight == 0
    {
      var weight := GetEdgeWeightTo(f, w, b, f.succs[b][i]);
      var prevSum := sum;
      sum := (sum + weight) % TWO32;
      NextSum(ws, i, prevSum, ok);
      ok := ok && sum > prevSum;
      if weight > maxWeight {
        maxWeight, hot := weight, Some(f.succs[b][i]);
      }
    }
    assert ws[..|ws|] == ws;
    EveryDestination(f, w, b, maxWeight);
    if !(5 * maxWeight > 4 * sum) {
      hot := None;
    }
  }

  // ----- After a run -----

  /** The weights of the edges to a destination add up to 0 only if all of them are 0. */
  lemma {:induction false} PartIsZero(f: Function, w: Weights, b: Block, d: Block, n: nat)
    requires b in f.succs && n <= |f.succs[b]|
    requires forall i: nat | i < n :: EdgeWeight(w, b, i) >= 0
    ensures PartTo(f, w, b, d, n) >= 0
    ensures PartTo(f, w, b, d, n) == 0 <==> forall i: nat | i < n && f.succs[b][i] == d && Edge(b, i) in w :: EdgeWeight(w, b, i) == 0
    decreases n
  {
    if n > 0 {
      PartIsZero(f, w, b, d, n - 1);
      assert EdgeWeight(w, b, n - 1) >= 0;
    }
  }

  /** Every edge to the destination lost its metadata weight to scaling. */
  ghost predicate AllScaledAway(f: Function, order: seq<Block>, b: Block, d: Block)
    requires WellFormed(f) && b in f.succs
  {
    forall i: nat | i < |f.succs[b]| && f.succs[b][i] == d :: ScaledAway(f, order, b, i)
  }

  /** After a run a successor weighs 0 exactly when every edge to it was scaled away. */
  lemma SuccessorIsZero(f: Function, order: seq<Block>, w0: Weights, w: Weights, j: nat, d: Block)
    requires WellFormed(f) && InFunction(f, order) && j < |order| && FreshBlock(w0, order[j]) && BlockDone(w0, w, f, order, j)
    requires d in f.succs[order[j]]
    ensures WeightTo(f, w, order[j], d) >= 0
    ensures WeightTo(f, w, order[j], d) == 0 <==> AllScaledAway(f, order, order[j], d)
  {
    var b := order[j];
    var n := |f.succs[b]|;
    forall i: nat | i < n ensures EdgeWeight(w, b, i) >= 0 && (EdgeWeight(w, b, i) == 0 <==> ScaledAway(f, order, b, i)) {
      EdgeIsZero(f, order, w0, w, j, i);
    }
    PartIsZero(f, w, b, d, n);
    AllOrNone(f, order, w0, w, j);
    var i: nat :| i < n && f.succs[b][i] == d;
    if AllSet(f, w, b) {
      assert Edge(b, i) in w;
      assert SomeSetTo(f, w, b, d, n);
    } else {
      assert EdgeWeight(w, b, i) == DEFAULT_WEIGHT;
    }
  }

  /**
   After a run the assertion holds if and only if no successor had all its edges scaled away and
   the weights of the successors, each as often as it has edges, fit 32 bits together.
   */
  lemma HotSuccAsserts(f: Function, order: seq<Block>, w0: Weights, w: Weights, j: nat)
    requires WellFormed(f) && InFunction(f, order) && j < |order| && FreshBlock(w0, order[j]) && BlockDone(w0, w, f, order, j)
    requires |f.succs[order[j]]| < 0x800_0000 && Uint32s(w)
    ensures AlwaysGrows(SuccessorWeights(f, w, order[j])) <==>
              (forall d | d in f.succs[order[j]] :: !AllScaledAway(f, order, order[j], d)) && Sum(SuccessorWeights(f, w, order[j])) < TWO32
  {
    var b := order[j];
    NoneIsZero(f, w, b);
    forall d | d in f.succs[b] ensures Uint32To(f, w, b, d) == 0 <==> AllScaledAway(f, order, b, d) {
      ZeroIffScaledAway(f, order, w0, w, j, d);
    }
  }

  lemma ZeroIffScaledAway(f: Function, order: seq<Block>, w0: Weights, w: Weights, j: nat, d: Block)
    requires WellFormed(f) && InFunction(f, order) && j < |order| && FreshBlock(w0, order[j]) && BlockDone(w0, w, f, order, j)
    requires |f.succs[order[j]]| < 0x800_0000 && Uint32s(w) && d in f.succs[order[j]]
    ensures Uint32To(f, w, order[j], d) == 0 <==> AllScaledAway(f, order, order[j], d)
  {
    SuccessorIsZero(f, order, w0, w, j, d);
    SuccessorFits(f, order, w0, w, j, d);
  }

  lemma NoneIsZero(f: Function, w: Weights, b: Block)
    requires b in f.succs
    ensures (forall i | 0 <= i < |SuccessorWeights(f, w, b)| :: SuccessorWeights(f, w, b)[i] > 0) <==>
              forall d | d in f.succs[b] :: Uint32To(f, w, b, d) != 0
  {
    var ws := SuccessorWeights(f, w, b);
    if forall i | 0 <= i < |ws| :: ws[i] > 0 {
      forall d | d in f.succs[b] ensures Uint32To(f, w, b, d) != 0 {
        var i: nat :| i < |ws| && f.succs[b][i] == d;
        assert ws[i] > 0;
      }
    }
    if forall d | d in f.succs[b] :: Uint32To(f, w, b, d) != 0 {
      forall i | 0 <= i < |ws| ensures ws[i] > 0 {
        assert f.succs[b][i] in f.succs[b];
      }
    }
  }

  lemma {:induction false} PartBound(f: Function, w: Weights, b: Block, d: Block, n: nat)
    requires b in f.succs && n <= |f.succs[b]| && Uint32s(w)
    ensures 0 <= PartTo(f, w, b, d, n) <= Sum(EdgeList(f, w, b)[..n])
    decreases n
  {
    EdgesNotNegative(f, w, b);
    if n > 0 {
      PartBound(f, w, b, d, n - 1);
      SumSnoc(EdgeList(f, w, b), n - 1);
    }
  }

  lemma WeightFits(f: Function, w: Weights, b: Block, d: Block)
    requires b in f.succs && Uint32s(w) && BlockTotal(f, w, b) < TWO32
    ensures Uint32To(f, w, b, d) == WeightTo(f, w, b, d)
  {
    var n := |f.succs[b]|;
    PartBound(f, w, b, d, n);
    assert EdgeList(f, w, b)[..n] == EdgeList(f, w, b);
  }

  lemma SuccessorFits(f: Function, order: seq<Block>, w0: Weights, w: Weights, j: nat, d: Block)
    requires WellFormed(f) && InFunction(f, order) && j < |order| && FreshBlock(w0, order[j]) && BlockDone(w0, w, f, order, j)
    requires |f.succs[order[j]]| < 0x800_0000 && Uint32s(w)
    ensures Uint32To(f, w, order[j], d) == WeightTo(f, w, order[j], d)
  {
    SumNeverOverflows(f, order, w0, w, j);
    WeightFits(f, w, order[j], d);
  }
}
