/** Sums of edge weights: over the edges of a block and over its destinations. */
module BranchTotals {
  import opened BranchModel
  import opened BranchWeights
  import opened BranchRules
  import opened BranchProbability
  import SetSums
  import opened Wrappers

  const TWO32: int := 0x1_0000_0000

  function EdgeWeight(w: Weights, b: Block, i: nat): int {
    if Edge(b, i) in w then w[Edge(b, i)] else DEFAULT_WEIGHT
  }

  function EdgeList(f: Function, w: Weights, b: Block): (r: seq<int>)
    requires b in f.succs
    ensures |r| == |f.succs[b]|
  {
    seq(|f.succs[b]|, i requires 0 <= i < |f.succs[b]| => EdgeWeight(w, b, i))
  }

  function BlockTotal(f: Function, w: Weights, b: Block): int
    requires b in f.succs
  {
    Sum(EdgeList(f, w, b))
  }

  ghost predicate AllSet(f: Function, w: Weights, b: Block)
    requires b in f.succs
  {
    forall i: nat | i < |f.succs[b]| :: Edge(b, i) in w
  }

  ghost predicate NoneSet(w: Weights, b: Block) {
    forall i: nat :: Edge(b, i) !in w
  }

  /** Weights are 32-bit values. */
  ghost predicate Uint32s(w: Weights) {
    forall e | e in w :: 0 <= w[e] <= UINT32_MAX
  }

  lemma {:induction false} PrefixSums(ws: seq<int>, i: nat)
    requires i <= |ws| && forall j | 0 <= j < |ws| :: ws[j] >= 0
    ensures 0 <= Sum(ws[..i]) <= Sum(ws)
    decreases |ws| - i
  {
    if i < |ws| {
      SumSnoc(ws, i);
      PrefixSums(ws, i + 1);
      SumBound(ws[..i], 0, MaxOf(ws[..i]));
    } else {
      assert ws[..i] == ws;
      SumBound(ws, 0, MaxOf(ws));
    }
  }

  ghost function MaxOf(ws: seq<int>): (m: int)
    ensures forall i | 0 <= i < |ws| :: ws[i] <= m
  {
    if ws == [] then 0
    else
      var m := MaxOf(ws[..|ws| - 1]);
      Max(m, ws[|ws| - 1])
  }

  lemma EdgesNotNegative(f: Function, w: Weights, b: Block)
    requires b in f.succs && Uint32s(w)
    ensures forall i | 0 <= i < |EdgeList(f, w, b)| :: 0 <= EdgeList(f, w, b)[i] <= UINT32_MAX
  {
  }

  /** getSumForBlock in 32 bits; ok says that its assertion held at every step, which it does exactly when the sum fits. */
  method GetSumForBlock(f: Function, w: Weights, b: Block) returns (sum: int, ok: bool)
    requires b in f.succs && Uint32s(w)
    ensures sum == BlockTotal(f, w, b) % TWO32
    ensures ok <==> BlockTotal(f, w, b) < TWO32
  {
    ghost var ws := EdgeList(f, w, b);
    EdgesNotNegative(f, w, b);
    sum, ok := 0, true;
    for i := 0 to |f.succs[b]|
      invariant 0 <= sum < TWO32 && sum == Sum(ws[..i]) % TWO32
      invariant ok <==> Sum(ws[..i]) < TWO32
    {
      SumSnoc(ws, i);
      PrefixSums(ws, i);
      var prevSum := sum;
      AddModulo(Sum(ws[..i]), ws[i]);
      sum := (sum + EdgeWeight(w, b, i)) % TWO32;
      ok := ok && sum >= prevSum;
    }
    assert ws[..|ws|] == ws;
  }

  lemma AddModulo(a: int, b: int)
    requires a >= 0 && 0 <= b <= UINT32_MAX
    ensures (a % TWO32 + b) % TWO32 == (a + b) % TWO32
    ensures a < TWO32 ==> (a + b < TWO32 <==> (a + b) % TWO32 >= a)
  {
  }

  // ----- After a run -----

  /** The edges of the block had no weights before the run. */
  ghost predicate FreshBlock(w0: Weights, b: Block) {
    NoneSet(w0, b)
  }

  /** After a run each block has all of its edges in the map or none, as the rules say. */
  lemma AllOrNone(f: Function, order: seq<Block>, w0: Weights, w: Weights, j: nat)
    requires WellFormed(f) && InFunction(f, order) && j < |order| && FreshBlock(w0, order[j]) && BlockDone(w0, w, f, order, j)
    ensures match BlockWeights(f, DoomedIn(f, order), ColdAfter(f, order, j), order[j])
            case None => NoneSet(w, order[j])
            case Some(ws) => AllSet(f, w, order[j]) && EdgeList(f, w, order[j]) == ws
  {
    var b := order[j];
    if BlockWeights(f, DoomedIn(f, order), ColdAfter(f, order, j), b).Some? {
      BlockWeightsBounded(f, DoomedIn(f, order), ColdAfter(f, order, j), b);
    }
  }

  lemma DefaultTotal(f: Function, w: Weights, b: Block)
    requires b in f.succs && NoneSet(w, b)
    ensures BlockTotal(f, w, b) == DEFAULT_WEIGHT * |f.succs[b]|
  {
    SumBound(EdgeList(f, w, b), DEFAULT_WEIGHT, DEFAULT_WEIGHT);
  }

  /** The weights of the block come from metadata. */
  ghost predicate FromProfile(f: Function, order: seq<Block>, b: Block)
    requires b in f.succs
  {
    !SomeRare(f.succs[b], DoomedIn(f, order)) && HasProfile(f, b)
  }

  /** After a run the sum of a block exceeds 16 per edge by at most 2^20, or comes from metadata and fits 32 bits. */
  lemma TotalBound(f: Function, order: seq<Block>, w0: Weights, w: Weights, j: nat)
    requires WellFormed(f) && InFunction(f, order) && j < |order| && FreshBlock(w0, order[j]) && BlockDone(w0, w, f, order, j)
    ensures var b := order[j];
            if FromProfile(f, order, b) then 0 <= BlockTotal(f, w, b) <= UINT32_MAX
            else |f.succs[b]| <= BlockTotal(f, w, b) <= 16 * |f.succs[b]| + 0x10_0000
  {
    var b := order[j];
    AllOrNone(f, order, w0, w, j);
    var weights := BlockWeights(f, DoomedIn(f, order), ColdAfter(f, order, j), b);
    if weights.Some? {
      BlockWeightsBounded(f, DoomedIn(f, order), ColdAfter(f, order, j), b);
      if FromProfile(f, order, b) {
        SumBound(weights.value, 0, MaxOf(weights.value));
      } else {
        SumBound(weights.value, 1, MaxOf(weights.value));
      }
    } else {
      if HasProfile(f, b) {
        ValuesNotNegative(f.prof[b]);
      }
      DefaultTotal(f, w, b);
    }
  }

  /** With fewer than 2^27 successors getSumForBlock never overflows. */
  lemma SumNeverOverflows(f: Function, order: seq<Block>, w0: Weights, w: Weights, j: nat)
    requires WellFormed(f) && InFunction(f, order) && j < |order| && FreshBlock(w0, order[j]) && BlockDone(w0, w, f, order, j)
    requires |f.succs[order[j]]| < 0x800_0000
    ensures 0 <= BlockTotal(f, w, order[j]) < TWO32
  {
    TotalBound(f, order, w0, w, j);
  }

  lemma {:induction false} ZeroSum(ws: seq<int>)
    requires forall i | 0 <= i < |ws| :: ws[i] >= 0
    ensures Sum(ws) >= 0 && (Sum(ws) == 0 <==> forall i | 0 <= i < |ws| :: ws[i] == 0)
    decreases |ws|
  {
    if ws != [] {
      ZeroSum(ws[..|ws| - 1]);
      assert forall i | 0 <= i < |ws| - 1 :: ws[..|ws| - 1][i] == ws[i];
    }
  }

  /** The sum is 0, and a probability would divide by it, exactly when there is no edge or the metadata says 0 for all of them. */
  lemma TotalIsZero(f: Function, order: seq<Block>, w0: Weights, w: Weights, j: nat)
    requires WellFormed(f) && InFunction(f, order) && j < |order| && FreshBlock(w0, order[j]) && BlockDone(w0, w, f, order, j)
    ensures var b := order[j];
            BlockTotal(f, w, b) == 0 <==>
              f.succs[b] == [] || (FromProfile(f, order, b) && forall o | o in f.prof[b] :: o.value == 0)
  {
    var b := order[j];
    TotalBound(f, order, w0, w, j);
    if FromProfile(f, order, b) {
      AllOrNone(f, order, w0, w, j);
      ProfileZero(f, b);
    }
  }

  lemma ProfileZero(f: Function, b: Block)
    requires WellFormed(f) && b in f.succs && HasProfile(f, b)
    ensures Sum(Values(f.prof[b])) >= 0
    ensures Sum(ProfileWeights(Values(f.prof[b]))) == 0 <==> forall o | o in f.prof[b] :: o.value == 0
  {
    ValuesNotNegative(f.prof[b]);
    ScaledZero(Values(f.prof[b]));
    ZeroSum(Values(f.prof[b]));
    ValuesZero(f.prof[b]);
  }

  lemma ScaledZero(ws: seq<int>)
    requires |ws| < UINT32_MAX && forall i | 0 <= i < |ws| :: ws[i] >= 0
    ensures Sum(ws) >= 0 && (Sum(ProfileWeights(ws)) == 0 <==> Sum(ws) == 0)
  {
    ScalingFits(ws);
    var scaled := ProfileWeights(ws);
    ScaledNotNegative(ws, ScalingFactor(Sum(ws)));
    ZeroSum(scaled);
    if Sum(ws) > 0 {
      ScalingKeepsSome(ws);
    }
  }

  lemma ValuesZero(ops: seq<Operand>)
    requires forall o | o in ops :: o.Int?
    ensures (forall i | 0 <= i < |ops| :: Values(ops)[i] == 0) <==> forall o | o in ops :: o.value == 0
  {
    if forall i | 0 <= i < |ops| :: Values(ops)[i] == 0 {
      forall o | o in ops ensures o.value == 0 {
        var i: nat :| i < |ops| && ops[i] == o;
        assert Values(ops)[i] == 0;
      }
    }
    if forall o | o in ops :: o.value == 0 {
      forall i | 0 <= i < |ops| ensures Values(ops)[i] == 0 {
        assert ops[i] in ops;
      }
    }
  }

  /** The metadata weight of the edge is less than what all weights of the block are divided by. */
  ghost predicate ScaledAway(f: Function, order: seq<Block>, b: Block, i: nat)
    requires WellFormed(f) && b in f.succs && i < |f.succs[b]|
  {
    FromProfile(f, order, b) && (ValuesNotNegative(f.prof[b]); f.prof[b][i].value < ScalingFactor(Sum(Values(f.prof[b]))))
  }

  /** After a run an edge has weight 0, where at least 1 is documented, exactly when scaling brought its metadata weight down to 0. */
  lemma EdgeIsZero(f: Function, order: seq<Block>, w0: Weights, w: Weights, j: nat, i: nat)
    requires WellFormed(f) && InFunction(f, order) && j < |order| && FreshBlock(w0, order[j]) && BlockDone(w0, w, f, order, j)
    requires i < |f.succs[order[j]]|
    ensures EdgeWeight(w, order[j], i) >= 0
    ensures EdgeWeight(w, order[j], i) == 0 <==> ScaledAway(f, order, order[j], i)
  {
    var b := order[j];
    AllOrNone(f, order, w0, w, j);
    var weights := BlockWeights(f, DoomedIn(f, order), ColdAfter(f, order, j), b);
    if weights.Some? {
      BlockWeightsBounded(f, DoomedIn(f, order), ColdAfter(f, order, j), b);
      assert EdgeList(f, w, b)[i] == weights.value[i];
      if FromProfile(f, order, b) {
        ValuesNotNegative(f.prof[b]);
        assert f.prof[b][i] in f.prof[b];
        QuotientIsZero(f.prof[b][i].value, ScalingFactor(Sum(Values(f.prof[b]))));
        assert weights.value == ProfileWeights(Values(f.prof[b]));
      }
    } else if HasProfile(f, b) {
      ValuesNotNegative(f.prof[b]);
    }
  }

  lemma QuotientIsZero(n: int, sf: int)
    requires n >= 0 && sf > 0
    ensures n / sf >= 0 && (n / sf == 0 <==> n < sf)
  {
    if n >= sf {
      FloorAtLeast(n, sf, 1);
    }
  }

  /** Metadata weights 2^32 - 1 and 1 add up to more than 32 bits hold: they are halved, and the second edge gets 0. */
  lemma EdgeIsZeroExample()
    ensures Sum([UINT32_MAX, 1]) == UINT32_MAX + 1 && ScalingFactor(UINT32_MAX + 1) == 2
    ensures ProfileWeights([UINT32_MAX, 1]) == [0x7FFF_FFFF, 0]
  {
    var ws := [UINT32_MAX, 1];
    assert ws[..1] == [UINT32_MAX] && ws[..1][..0] == [];
    assert Sum(ws[..1]) == UINT32_MAX;
  }

  // ----- By destination -----

  /** The weights of the first n edges that lead to d and are in the map. */
  function PartTo(f: Function, w: Weights, b: Block, d: Block, n: nat): int
    requires b in f.succs && n <= |f.succs[b]|
  {
    if n == 0 then 0
    else PartTo(f, w, b, d, n - 1) + if f.succs[b][n - 1] == d && Edge(b, n - 1) in w then w[Edge(b, n - 1)] else 0
  }

  ghost predicate SomeSetTo(f: Function, w: Weights, b: Block, d: Block, n: nat)
    requires b in f.succs && n <= |f.succs[b]|
  {
    exists i: nat :: i < n && f.succs[b][i] == d && Edge(b, i) in w
  }

  /** The weight of a destination: the sum over its edges in the map, or the default when none is. */
  ghost function WeightTo(f: Function, w: Weights, b: Block, d: Block): int
    requires b in f.succs
  {
    if SomeSetTo(f, w, b, d, |f.succs[b]|) then PartTo(f, w, b, d, |f.succs[b]|) else DEFAULT_WEIGHT
  }

  /** getEdgeWeight(Src, Dst), in 32 bits. */
  method GetEdgeWeightTo(f: Function, w: Weights, b: Block, d: Block) returns (weight: int)
    requires b in f.succs && Uint32s(w)
    ensures weight == WeightTo(f, w, b, d) % TWO32
  {
    weight := 0;
    var foundWeight := false;
    for i := 0 to |f.succs[b]|
      invariant foundWeight <==> SomeSetTo(f, w, b, d, i)
      invariant weight == PartTo(f, w, b, d, i) % TWO32 && PartTo(f, w, b, d, i) >= 0
    {
      if f.succs[b][i] == d && Edge(b, i) in w {
        foundWeight := true;
        AddModulo(PartTo(f, w, b, d, i), w[Edge(b, i)]);
        weight := (weight + w[Edge(b, i)]) % TWO32;
      }
    }
    if !foundWeight {
      weight := DEFAULT_WEIGHT;
    }
  }

  ghost function Destinations(f: Function, b: Block, n: nat): set<Block>
    requires b in f.succs && n <= |f.succs[b]|
  {
    set d | d in f.succs[b][..n]
  }

  lemma {:induction false} NothingTo(f: Function, w: Weights, b: Block, d: Block, n: nat)
    requires b in f.succs && n <= |f.succs[b]| && d !in f.succs[b][..n]
    ensures PartTo(f, w, b, d, n) == 0
    decreases n
  {
    if n > 0 {
      assert f.succs[b][..n] == f.succs[b][..n - 1] + [f.succs[b][n - 1]];
      NothingTo(f, w, b, d, n - 1);
    }
  }

  lemma {:induction false} PartsAddUp(f: Function, w: Weights, b: Block, n: nat)
    requires b in f.succs && n <= |f.succs[b]| && AllSet(f, w, b)
    ensures SetSums.Sum(Destinations(f, b, n), d => if b in f.succs then PartTo(f, w, b, d, n) else 0) == Sum(EdgeList(f, w, b)[..n])
    decreases n
  {
    if n > 0 {
      PartsAddUp(f, w, b, n - 1);
      SumSnoc(EdgeList(f, w, b), n - 1);
      var ss, d := f.succs[b], f.succs[b][n - 1];
      assert ss[..n] == ss[..n - 1] + [d];
      var D := Destinations(f, b, n - 1);
      var before := (x: Block) => if b in f.succs then PartTo(f, w, b, x, n - 1) else 0;
      var after := (x: Block) => if b in f.succs then PartTo(f, w, b, x, n) else 0;
      assert EdgeList(f, w, b)[n - 1] == w[Edge(b, n - 1)];
      if d in D {
        assert Destinations(f, b, n) == D;
        SetSums.SumChanged(D, before, after, d);
      } else {
        NothingTo(f, w, b, d, n - 1);
        assert Destinations(f, b, n) - {d} == D;
        SetSums.SumOf(Destinations(f, b, n), after, d);
        SetSums.SumSame(D, before, after);
      }
    }
  }

  /** Where a block's weights are set, the weights of its destinations add up to its sum. */
  lemma DestinationsAddUp(f: Function, w: Weights, b: Block)
    requires b in f.succs && AllSet(f, w, b)
    ensures SetSums.Sum(Destinations(f, b, |f.succs[b]|), d => if b in f.succs then WeightTo(f, w, b, d) else 0) == BlockTotal(f, w, b)
  {
    var n := |f.succs[b]|;
    PartsAddUp(f, w, b, n);
    assert EdgeList(f, w, b)[..n] == EdgeList(f, w, b);
    assert f.succs[b][..n] == f.succs[b];
    var D := Destinations(f, b, n);
    forall d | d in D ensures WeightTo(f, w, b, d) == PartTo(f, w, b, d, n) {
      var i :| 0 <= i < n && f.succs[b][i] == d;
      assert Edge(b, i) in w;
    }
    SetSums.SumSame(D, d => if b in f.succs then WeightTo(f, w, b, d) else 0, d => if b in f.succs then PartTo(f, w, b, d, n) else 0);
  }

  ghost predicate NoDuplicates(ss: seq<Block>) {
    forall i, j | 0 <= i < j < |ss| :: ss[i] != ss[j]
  }

  lemma DuplicatesSnoc(ss: seq<Block>, n: nat)
    requires |ss| == n + 1
    ensures NoDuplicates(ss) <==> NoDuplicates(ss[..n]) && ss[n] !in ss[..n]
  {
    if NoDuplicates(ss[..n]) && ss[n] !in ss[..n] {
      forall i, j | 0 <= i < j < |ss| ensures ss[i] != ss[j] {
        assert ss[..n][i] == ss[i];
        assert j < n ==> ss[..n][j] == ss[j];
      }
    }
    if NoDuplicates(ss) {
      forall i, j | 0 <= i < j < n ensures ss[..n][i] != ss[..n][j] {
        assert ss[i] != ss[j];
      }
    }
  }

  lemma {:induction false} DistinctCount(ss: seq<Block>)
    ensures |set s | s in ss| <= |ss|
    ensures |set s | s in ss| == |ss| <==> NoDuplicates(ss)
    decreases |ss|
  {
    if ss != [] {
      var n := |ss| - 1;
      DistinctCount(ss[..n]);
      var before := set s | s in ss[..n];
      assert (set s | s in ss) == before + {ss[n]} by {
        assert ss == ss[..n] + [ss[n]];
      }
      assert ss[n] in before ==> before + {ss[n]} == before;
      assert ss[n] !in before ==> |before + {ss[n]}| == |before| + 1;
      DuplicatesSnoc(ss, n);
    }
  }

  /** Where they are not set, that holds exactly when no destination occurs twice: each counts as 16 however many edges lead to it. */
  lemma DefaultDestinations(f: Function, w: Weights, b: Block)
    requires b in f.succs && NoneSet(w, b)
    ensures NoDuplicates(f.succs[b]) <==>
              SetSums.Sum(Destinations(f, b, |f.succs[b]|), d => if b in f.succs then WeightTo(f, w, b, d) else 0) == BlockTotal(f, w, b)
  {
    var ss := f.succs[b];
    assert ss[..|ss|] == ss;
    var D := Destinations(f, b, |ss|);
    SetSums.SumConstant(D, d => if b in f.succs then WeightTo(f, w, b, d) else 0, DEFAULT_WEIGHT);
    DefaultTotal(f, w, b);
    DistinctCount(ss);
  }

  /** getEdgeProbability of an edge: the edge's weight over the sum of its block. */
  method GetEdgeProbability(f: Function, w: Weights, b: Block, i: nat) returns (n: int, d: int)
    requires b in f.succs && i < |f.succs[b]| && Uint32s(w) && BlockTotal(f, w, b) < TWO32
    ensures n == EdgeWeight(w, b, i) && d == BlockTotal(f, w, b) && 0 <= n <= d
  {
    n := EdgeWeight(w, b, i);
    var ok;
    d, ok := GetSumForBlock(f, w, b);
    ghost var ws := EdgeList(f, w, b);
    EdgesNotNegative(f, w, b);
    SumSnoc(ws, i);
    PrefixSums(ws, i);
    PrefixSums(ws, i + 1);
  }
}
