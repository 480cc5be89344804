/** The analysis object: weights per edge, filled in post-order. */
module BranchProbability {
  import opened Arith
  import opened BranchModel
  import opened BranchWeights
  import opened BranchRules
  import opened TwoWayBranches
  import opened Wrappers

  /** The weights of the first |ws| edges of b are ws, and all other edges are as before. */
  ghost predicate Put(w0: Weights, w1: Weights, b: Block, ws: seq<int>) {
    && (forall i: nat | i < |ws| :: Edge(b, i) in w1 && w1[Edge(b, i)] == ws[i])
    && (forall e: Edge | !(e.block == b && e.index < |ws|) :: (e in w1 <==> e in w0) && (e in w0 ==> w1[e] == w0[e]))
  }

  /** The listed edges of b have the weight, and all other edges are as before. */
  ghost predicate PutEach(w0: Weights, w1: Weights, b: Block, edges: seq<nat>, w: int) {
    && (forall i: nat | i in edges :: Edge(b, i) in w1 && w1[Edge(b, i)] == w)
    && (forall e: Edge | !(e.block == b && e.index in edges) :: (e in w1 <==> e in w0) && (e in w0 ==> w1[e] == w0[e]))
  }

  lemma PutTwoKinds(w0: Weights, w1: Weights, w2: Weights, b: Block, kinds: seq<Kind>, k: Kind, l: Kind, weight: Kind -> int)
    requires PutEach(w0, w1, b, Where(kinds, k), weight(k)) && PutEach(w1, w2, b, Where(kinds, l), weight(l))
    requires k != l && forall i | 0 <= i < |kinds| :: kinds[i] == k || kinds[i] == l
    ensures Put(w0, w2, b, ByWeight(kinds, weight))
  {
    WhereMeans(kinds, k);
    WhereMeans(kinds, l);
  }

  lemma PutThreeKinds(w0: Weights, w1: Weights, w2: Weights, w3: Weights, b: Block, kinds: seq<Kind>, weight: Kind -> int)
    requires PutEach(w0, w1, b, Where(kinds, Back), weight(Back)) && PutEach(w1, w2, b, Where(kinds, Inner), weight(Inner))
    requires PutEach(w2, w3, b, Where(kinds, Exiting), weight(Exiting))
    requires forall i | 0 <= i < |kinds| :: kinds[i] == Back || kinds[i] == Inner || kinds[i] == Exiting
    ensures Put(w0, w3, b, ByWeight(kinds, weight))
  {
    var ws := ByWeight(kinds, weight);
    WhereMeans(kinds, Back);
    WhereMeans(kinds, Inner);
    WhereMeans(kinds, Exiting);
    forall i: nat | i < |ws| ensures Edge(b, i) in w3 && w3[Edge(b, i)] == ws[i] {
      assert i in Where(kinds, kinds[i]);
    }
    forall e: Edge | !(e.block == b && e.index < |ws|) ensures (e in w3 <==> e in w0) && (e in w0 ==> w3[e] == w0[e]) {
    }
  }

  /** Every edge of the block into the set weighs less than every other one. */
  ghost predicate LighterInto(w: Weights, ss: seq<Block>, b: Block, rare: set<Block>) {
    forall i: nat, k: nat | i < |ss| && k < |ss| && ss[i] in rare && ss[k] !in rare ::
      Edge(b, i) in w && Edge(b, k) in w && w[Edge(b, i)] < w[Edge(b, k)]
  }

  lemma RareIsLighter(w0: Weights, w: Weights, ss: seq<Block>, b: Block, rare: set<Block>)
    requires var kinds := KindsIn(ss, rare);
             Put(w0, w, b, ByWeight(kinds, k => UnreachableWeight(kinds, k))) || Put(w0, w, b, ByWeight(kinds, k => ColdWeight(kinds, k)))
    ensures LighterInto(w, ss, b, rare)
  {
    KindsInOrder(KindsIn(ss, rare));
  }

  /** All edges rare, or none. */
  lemma SortedMeans(ss: seq<Block>, rare: set<Block>)
    ensures var kinds := KindsIn(ss, rare);
            && (Count(kinds, Rare) == |ss| <==> forall s | s in ss :: s in rare)
            && (Count(kinds, Rare) == 0 <==> forall s | s in ss :: s !in rare)
  {
    var kinds := KindsIn(ss, rare);
    CountsAddUp(kinds);
    NoneOfKind(kinds, Back);
    NoneOfKind(kinds, Inner);
    NoneOfKind(kinds, Exiting);
    if forall s | s in ss :: s in rare {
      NoneOfKind(kinds, Usual);
    }
    if forall s | s in ss :: s !in rare {
      NoneOfKind(kinds, Rare);
    }
    WhereMeans(kinds, Rare);
    WhereMeans(kinds, Usual);
    forall i | 0 <= i < |ss| ensures if ss[i] in rare then Count(kinds, Rare) > 0 else Count(kinds, Usual) > 0 {
      assert if ss[i] in rare then i in Where(kinds, Rare) else i in Where(kinds, Usual);
    }
  }

  class BranchProbabilityInfo {
    var EdgeWeights: Weights
    var PostDominatedByUnreachable: set<Block>
    var PostDominatedByColdCall: set<Block>

    constructor ()
      ensures EdgeWeights == map[] && PostDominatedByUnreachable == {} && PostDominatedByColdCall == {}
    {
      EdgeWeights, PostDominatedByUnreachable, PostDominatedByColdCall := map[], {}, {};
    }

    method SetEdgeWeight(b: Block, i: nat, w: int)
      modifies this`EdgeWeights
      ensures EdgeWeights == old(EdgeWeights)[Edge(b, i) := w]
    {
      EdgeWeights := EdgeWeights[Edge(b, i) := w];
    }

    /** One of the loops that give every edge of a list the same weight. */
    method SetAll(b: Block, edges: seq<nat>, w: int)
      modifies this`EdgeWeights
      ensures PutEach(old(EdgeWeights), EdgeWeights, b, edges, w)
    {
      for n := 0 to |edges|
        invariant PutEach(old(EdgeWeights), EdgeWeights, b, edges[..n], w)
      {
        assert edges[..n + 1] == edges[..n] + [edges[n]];
        SetEdgeWeight(b, edges[n], w);
      }
      assert edges[..|edges|] == edges;
    }

    /** The loop that sorts the edges of a block by whether their target is in a set. */
    method SortEdges(ss: seq<Block>, rare: set<Block>) returns (rareEdges: seq<nat>, usualEdges: seq<nat>)
      ensures rareEdges == Where(KindsIn(ss, rare), Rare) && usualEdges == Where(KindsIn(ss, rare), Usual)
    {
      ghost var kinds := KindsIn(ss, rare);
      rareEdges, usualEdges := [], [];
      for i := 0 to |ss|
        invariant rareEdges == Where(kinds[..i], Rare) && usualEdges == Where(kinds[..i], Usual)
      {
        WhereSnoc(kinds, i, Rare);
        WhereSnoc(kinds, i, Usual);
        if ss[i] in rare {
          rareEdges := rareEdges + [i];
        } else {
          usualEdges := usualEdges + [i];
        }
      }
      assert kinds[..|ss|] == kinds;
    }

    /** Giving the two kinds of edges their shared weights. */
    method SetBoth(b: Block, ghost kinds: seq<Kind>, rareEdges: seq<nat>, usualEdges: seq<nat>, rareWeight: int, usualTotal: int, ghost weight: Kind -> int)
      requires rareEdges == Where(kinds, Rare) != [] && usualEdges == Where(kinds, Usual) && usualTotal >= 0
      requires forall i | 0 <= i < |kinds| :: kinds[i] == Rare || kinds[i] == Usual
      requires weight(Rare) == rareWeight && weight(Usual) == Shared(usualTotal, kinds, Usual, NORMAL_WEIGHT)
      modifies this`EdgeWeights
      ensures Put(old(EdgeWeights), EdgeWeights, b, ByWeight(kinds, weight))
    {
      ghost var w0 := EdgeWeights;
      SetAll(b, rareEdges, rareWeight);
      ghost var w1 := EdgeWeights;
      if usualEdges != [] {
        SetAll(b, usualEdges, Max(usualTotal / |usualEdges|, NORMAL_WEIGHT));
      }
      PutTwoKinds(w0, w1, EdgeWeights, b, kinds, Rare, Usual, weight);
    }

    /** calcUnreachableHeuristics. */
    method CalcUnreachableHeuristics(f: Function, b: Block) returns (r: bool)
      requires WellFormed(f) && b in f.succs
      modifies this`EdgeWeights, this`PostDominatedByUnreachable
      ensures var doomed, ss := old(PostDominatedByUnreachable), f.succs[b];
              && PostDominatedByUnreachable == doomed + (if (if ss == [] then b in f.unreachable else forall s | s in ss :: s in doomed) then {b} else {})
              && r == SomeRare(ss, doomed)
              && if r then
                   var kinds := KindsIn(ss, doomed);
                   Put(old(EdgeWeights), EdgeWeights, b, ByWeight(kinds, k => UnreachableWeight(kinds, k)))
                 else EdgeWeights == old(EdgeWeights)
      ensures r ==> LighterInto(EdgeWeights, f.succs[b], b, old(PostDominatedByUnreachable))
    {
      ghost var w0 := EdgeWeights;
      var ss := f.succs[b];
      if |ss| == 0 {
        if b in f.unreachable {
          PostDominatedByUnreachable := PostDominatedByUnreachable + {b};
        }
        return false;
      }
      ghost var kinds := KindsIn(ss, PostDominatedByUnreachable);
      SortedMeans(ss, PostDominatedByUnreachable);
      var unreachableEdges, reachableEdges := SortEdges(ss, PostDominatedByUnreachable);
      if |unreachableEdges| == |ss| {
        PostDominatedByUnreachable := PostDominatedByUnreachable + {b};
      }
      if |ss| == 1 || unreachableEdges == [] {
        return false;
      }
      SetBoth(b, kinds, unreachableEdges, reachableEdges, Max(UR_TAKEN_WEIGHT / |unreachableEdges|, MIN_WEIGHT), UR_NONTAKEN_WEIGHT,
              k => UnreachableWeight(kinds, k));
      RareIsLighter(w0, EdgeWeights, ss, b, old(PostDominatedByUnreachable));
      r := true;
    }

    /** calcColdCallHeuristics. */
    method CalcColdCallHeuristics(f: Function, b: Block) returns (r: bool)
      requires WellFormed(f) && b in f.succs && b !in PostDominatedByColdCall
      modifies this`EdgeWeights, this`PostDominatedByColdCall
      ensures var coldSet, ss := old(PostDominatedByColdCall), f.succs[b];
              && PostDominatedByColdCall == coldSet + (if ss != [] && ((forall s | s in ss :: s in coldSet) || b in f.cold) then {b} else {})
              && r == SomeRare(ss, coldSet)
              && if r then
                   var kinds := KindsIn(ss, coldSet);
                   Put(old(EdgeWeights), EdgeWeights, b, ByWeight(kinds, k => ColdWeight(kinds, k)))
                 else EdgeWeights == old(EdgeWeights)
      ensures r ==> LighterInto(EdgeWeights, f.succs[b], b, old(PostDominatedByColdCall))
    {
      ghost var w0 := EdgeWeights;
      var ss := f.succs[b];
      if |ss| == 0 {
        return false;
      }
      ghost var kinds := KindsIn(ss, PostDominatedByColdCall);
      SortedMeans(ss, PostDominatedByColdCall);
      var coldEdges, normalEdges := SortEdges(ss, PostDominatedByColdCall);
      if |coldEdges| == |ss| {
        PostDominatedByColdCall := PostDominatedByColdCall + {b};
      } else if b in f.cold {
        PostDominatedByColdCall := PostDominatedByColdCall + {b};
      }
      if |ss| == 1 || coldEdges == [] {
        return false;
      }
      SetBoth(b, kinds, coldEdges, normalEdges, Max(CC_TAKEN_WEIGHT / |coldEdges|, MIN_WEIGHT), CC_NONTAKEN_WEIGHT, k => ColdWeight(kinds, k));
      RareIsLighter(w0, EdgeWeights, ss, b, old(PostDominatedByColdCall));
      r := true;
    }

    /** calcMetadataWeights. */
    method CalcMetadataWeights(f: Function, b: Block) returns (r: bool)
      requires WellFormed(f) && b in f.succs
      modifies this`EdgeWeights
      ensures r == HasProfile(f, b)
      ensures if r then Sum(Values(f.prof[b])) >= 0 && Put(old(EdgeWeights), EdgeWeights, b, ProfileWeights(Values(f.prof[b])))
              else EdgeWeights == old(EdgeWeights)
    {
      var n := |f.succs[b]|;
      if n == 1 || b !in f.branches || b !in f.prof || |f.prof[b]| != n {
        return false;
      }
      var weights, isProfile := ReadOperands(f, b);
      if !isProfile {
        return false;
      }
      ScalingFits(weights);
      SetScaled(b, weights, ScalingFactor(Sum(weights)));
      r := true;
    }

    /** The loop that divides the weights; their sum, which the source asserts, fits 32 bits. */
    method SetScaled(b: Block, weights: seq<int>, sf: int)
      requires sf > 0 && Sum(Scaled(weights, sf)) <= UINT32_MAX
      modifies this`EdgeWeights
      ensures Put(old(EdgeWeights), EdgeWeights, b, Scaled(weights, sf))
    {
      ghost var scaled := Scaled(weights, sf);
      var weightSum := 0;
      for i := 0 to |weights|
        invariant Put(old(EdgeWeights), EdgeWeights, b, scaled[..i]) && weightSum == Sum(scaled[..i])
      {
        SumSnoc(scaled, i);
        var w := weights[i] / sf;
        weightSum := weightSum + w;
        SetEdgeWeight(b, i, w);
      }
      assert scaled[..|weights|] == scaled;
      assert weightSum <= UINT32_MAX;
    }

    /** The loop that collects the weights; it fails at an operand that is not an integer. */
    method ReadOperands(f: Function, b: Block) returns (weights: seq<int>, ok: bool)
      requires WellFormed(f) && b in f.succs && b in f.prof && |f.prof[b]| == |f.succs[b]|
      ensures ok == forall o | o in f.prof[b] :: o.Int?
      ensures ok ==> weights == Values(f.prof[b]) && forall i | 0 <= i < |weights| :: weights[i] >= 0
    {
      var ops := f.prof[b];
      weights := [];
      for i := 0 to |ops|
        invariant |weights| == i && forall j | 0 <= j < i :: ops[j].Int? && weights[j] == ops[j].value >= 0
      {
        assert ops[i] in ops && OperandFits(ops[i]);
        if ops[i].NotInt? {
          return weights, false;
        }
        weights := weights + [ops[i].value];
      }
      ok := true;
    }

    /** The loop of calcLoopBranchHeuristics that sorts the edges. */
    method SortLoopEdges(ss: seq<Block>, l: Loop) returns (backEdges: seq<nat>, exitingEdges: seq<nat>, inEdges: seq<nat>)
      ensures var kinds := LoopKinds(ss, l);
              backEdges == Where(kinds, Back) && exitingEdges == Where(kinds, Exiting) && inEdges == Where(kinds, Inner)
    {
      ghost var kinds := LoopKinds(ss, l);
      backEdges, exitingEdges, inEdges := [], [], [];
      for i := 0 to |ss|
        invariant backEdges == Where(kinds[..i], Back) && exitingEdges == Where(kinds[..i], Exiting) && inEdges == Where(kinds[..i], Inner)
      {
        WhereSnoc(kinds, i, Back);
        WhereSnoc(kinds, i, Exiting);
        WhereSnoc(kinds, i, Inner);
        if ss[i] !in l.blocks {
          exitingEdges := exitingEdges + [i];
        } else if l.header == ss[i] {
          backEdges := backEdges + [i];
        } else {
          inEdges := inEdges + [i];
        }
      }
      assert kinds[..|ss|] == kinds;
    }

    /** calcLoopBranchHeuristics. */
    method CalcLoopBranchHeuristics(f: Function, b: Block) returns (r: bool)
      requires WellFormed(f) && b in f.succs
      modifies this`EdgeWeights
      ensures r == LoopDecides(f, b)
      ensures if r then
                var kinds := LoopKinds(f.succs[b], f.loops[b]);
                Put(old(EdgeWeights), EdgeWeights, b, ByWeight(kinds, k => LoopWeight(kinds, k)))
              else EdgeWeights == old(EdgeWeights)
      ensures r ==> forall i: nat, k: nat | i < |f.succs[b]| && k < |f.succs[b]| ::
                f.succs[b][i] !in f.loops[b].blocks && f.succs[b][k] in f.loops[b].blocks ==>
                  Edge(b, i) in EdgeWeights && Edge(b, k) in EdgeWeights && EdgeWeights[Edge(b, i)] < EdgeWeights[Edge(b, k)]
    {
      if b !in f.loops {
        return false;
      }
      ghost var kinds := LoopKinds(f.succs[b], f.loops[b]);
      var backEdges, exitingEdges, inEdges := SortLoopEdges(f.succs[b], f.loops[b]);
      LoopEdgesMean(f.succs[b], f.loops[b]);
      if backEdges == [] && exitingEdges == [] {
        return false;
      }
      ghost var w0 := EdgeWeights;
      SetIfAny(b, backEdges, LBH_TAKEN_WEIGHT, NORMAL_WEIGHT);
      ghost var w1 := EdgeWeights;
      SetIfAny(b, inEdges, LBH_TAKEN_WEIGHT, NORMAL_WEIGHT);
      ghost var w2 := EdgeWeights;
      SetIfAny(b, exitingEdges, LBH_NONTAKEN_WEIGHT, MIN_WEIGHT);
      PutThreeKinds(w0, w1, w2, EdgeWeights, b, kinds, k => LoopWeight(kinds, k));
      KindsInOrder(kinds);
      r := true;
    }

    /** The edges of one list share a weight, but none gets less than the least. */
    method SetIfAny(b: Block, edges: seq<nat>, total: int, least: int)
      modifies this`EdgeWeights
      ensures PutEach(old(EdgeWeights), EdgeWeights, b, edges, if edges == [] then least else Max(total / |edges|, least))
    {
      if edges != [] {
        var weight := total / |edges|;
        if weight < least {
          weight := least;
        }
        SetAll(b, edges, weight);
      }
    }

    /** The edge taken when the condition holds is the likely one, or the other. */
    method SetTwoWay(b: Block, isProb: bool)
      modifies this`EdgeWeights
      ensures Put(old(EdgeWeights), EdgeWeights, b, if isProb then [LIKELY_WEIGHT, UNLIKELY_WEIGHT] else [UNLIKELY_WEIGHT, LIKELY_WEIGHT])
    {
      var takenIdx, nonTakenIdx := 0, 1;
      if !isProb {
        takenIdx, nonTakenIdx := nonTakenIdx, takenIdx;
      }
      SetEdgeWeight(b, takenIdx, LIKELY_WEIGHT);
      SetEdgeWeight(b, nonTakenIdx, UNLIKELY_WEIGHT);
    }

    method CalcPointerHeuristics(f: Function, b: Block) returns (r: bool)
      requires WellFormed(f) && b in f.succs
      modifies this`EdgeWeights
      ensures r == (EndOf(f, b).CondBranch? && PointerVerdict(EndOf(f, b).cond).Some?)
      ensures if r then Put(old(EdgeWeights), EdgeWeights, b, TwoWayWeights(Pointer(PointerVerdict(EndOf(f, b).cond).value)))
              else EdgeWeights == old(EdgeWeights)
    {
      var end := EndOf(f, b);
      if !end.CondBranch? {
        return false;
      }
      if !end.cond.PointerCompare? || !(end.cond.cmp == IntEQ || end.cond.cmp == IntNE) {
        return false;
      }
      SetTwoWay(b, end.cond.cmp == IntNE);
      r := true;
    }

    method CalcZeroHeuristics(f: Function, b: Block) returns (r: bool)
      requires WellFormed(f) && b in f.succs
      modifies this`EdgeWeights
      ensures r == (EndOf(f, b).CondBranch? && ZeroVerdict(EndOf(f, b).cond).Some?)
      ensures if r then Put(old(EdgeWeights), EdgeWeights, b, TwoWayWeights(Zero(ZeroVerdict(EndOf(f, b).cond).value)))
              else EdgeWeights == old(EdgeWeights)
    {
      var end := EndOf(f, b);
      if !end.CondBranch? || !end.cond.IntCompare? || end.cond.rhs == None {
        return false;
      }
      var p, c, w := end.cond.cmp, end.cond.rhs.value, end.cond.width;
      if end.cond.mask.Some? && IsPowerOf2(end.cond.mask.value) {
        return false;
      }
      var isProb;
      if c == 0 {
        match p
        case IntEQ => isProb := false;
        case IntNE => isProb := true;
        case SLT => isProb := false;
        case SGT => isProb := true;
        case _ => return false;
      } else if c == 1 && p == SLT {
        isProb := false;
      } else if c == Pow2(w) - 1 {
        match p
        case IntEQ => isProb := false;
        case IntNE => isProb := true;
        case SGT => isProb := true;
        case _ => return false;
      } else {
        return false;
      }
      SetTwoWay(b, isProb);
      r := true;
    }

    method CalcFloatingPointHeuristics(f: Function, b: Block) returns (r: bool)
      requires WellFormed(f) && b in f.succs
      modifies this`EdgeWeights
      ensures r == (EndOf(f, b).CondBranch? && FloatVerdict(EndOf(f, b).cond).Some?)
      ensures if r then Put(old(EdgeWeights), EdgeWeights, b, TwoWayWeights(FloatingPoint(FloatVerdict(EndOf(f, b).cond).value)))
              else EdgeWeights == old(EdgeWeights)
    {
      var end := EndOf(f, b);
      if !end.CondBranch? || !end.cond.FloatCompare? {
        return false;
      }
      var p := end.cond.fcmp;
      var isProb;
      if IsEquality(p) {
        isProb := !IsTrueWhenEqual(p);
      } else if p == FCMP_ORD {
        isProb := true;
      } else if p == FCMP_UNO {
        isProb := false;
      } else {
        return false;
      }
      SetTwoWay(b, isProb);
      r := true;
    }

    method CalcInvokeHeuristics(f: Function, b: Block) returns (r: bool)
      requires WellFormed(f) && b in f.succs
      modifies this`EdgeWeights
      ensures r == EndOf(f, b).InvokeEnd?
      ensures if r then Put(old(EdgeWeights), EdgeWeights, b, TwoWayWeights(Invoke)) else EdgeWeights == old(EdgeWeights)
    {
      if !EndOf(f, b).InvokeEnd? {
        return false;
      }
      SetEdgeWeight(b, 0, IH_TAKEN_WEIGHT);
      SetEdgeWeight(b, 1, IH_NONTAKEN_WEIGHT);
      r := true;
    }

    /** The four in turn: what the terminator is recognized as decides. */
    method CalcTwoWayHeuristics(f: Function, b: Block)
      requires WellFormed(f) && b in f.succs
      modifies this`EdgeWeights
      ensures match Recognized(EndOf(f, b))
              case None => EdgeWeights == old(EdgeWeights)
              case Some(t) => Put(old(EdgeWeights), EdgeWeights, b, TwoWayWeights(t))
    {
      var done := CalcPointerHeuristics(f, b);
      if done {
        return;
      }
      done := CalcZeroHeuristics(f, b);
      if done {
        return;
      }
      done := CalcFloatingPointHeuristics(f, b);
      if done {
        return;
      }
      done := CalcInvokeHeuristics(f, b);
    }

    /** The heuristics in turn, until one applies. */
    method VisitBlock(f: Function, b: Block)
      requires WellFormed(f) && b in f.succs && b !in PostDominatedByColdCall
      modifies this
      ensures var doomed, coldSet, ss := old(PostDominatedByUnreachable), old(PostDominatedByColdCall), f.succs[b];
              && PostDominatedByUnreachable == doomed + (if (if ss == [] then b in f.unreachable else forall s | s in ss :: s in doomed) then {b} else {})
              && PostDominatedByColdCall == coldSet + (if JoinsCold(f, doomed, coldSet, b) then {b} else {})
              && match BlockWeights(f, doomed, coldSet, b)
                 case None => EdgeWeights == old(EdgeWeights)
                 case Some(ws) => Put(old(EdgeWeights), EdgeWeights, b, ws)
      ensures var doomed, coldSet, ss := old(PostDominatedByUnreachable), old(PostDominatedByColdCall), f.succs[b];
              && (SomeRare(ss, doomed) ==> LighterInto(EdgeWeights, ss, b, doomed))
              && (!SomeRare(ss, doomed) && !HasProfile(f, b) && SomeRare(ss, coldSet) ==> LighterInto(EdgeWeights, ss, b, coldSet))
    {
      var done := CalcUnreachableHeuristics(f, b);
      if done {
        return;
      }
      done := CalcMetadataWeights(f, b);
      if done {
        return;
      }
      done := CalcColdCallHeuristics(f, b);
      if done {
        return;
      }
      done := CalcLoopBranchHeuristics(f, b);
      if done {
        return;
      }
      CalcTwoWayHeuristics(f, b);
    }

    /** One turn of the loop over the blocks. */
    method VisitNext(f: Function, order: seq<Block>, k: nat, ghost w0: Weights)
      requires WellFormed(f) && PostOrder(f, order) && k < |order|
      requires PostDominatedByUnreachable == DoomedUpTo(f, order, k) && PostDominatedByColdCall == ColdAfter(f, order, k)
      requires Untouched(w0, EdgeWeights, order[..k]) && forall j | 0 <= j < k :: BlockDone(w0, EdgeWeights, f, order, j)
      modifies this
      ensures PostDominatedByUnreachable == DoomedUpTo(f, order, k + 1) && PostDominatedByColdCall == ColdAfter(f, order, k + 1)
      ensures Untouched(w0, EdgeWeights, order[..k + 1]) && forall j | 0 <= j < k + 1 :: BlockDone(w0, EdgeWeights, f, order, j)
    {
      var b := order[k];
      ghost var w := EdgeWeights;
      DoomedRule(f, order, k);
      ColdAfterSeen(f, order, k);
      SameDoom(f, PostDominatedByUnreachable, DoomedIn(f, order), PostDominatedByColdCall, b);
      VisitBlock(f, b);
      VisitedOne(w0, w, EdgeWeights, f, order, k);
    }

    /** The loop of runOnFunction. */
    method WalkPostOrder(f: Function, order: seq<Block>)
      requires WellFormed(f) && PostOrder(f, order) && PostDominatedByUnreachable == {} && PostDominatedByColdCall == {}
      modifies this
      ensures forall b :: b in PostDominatedByUnreachable <==> b in order && Doomed(f, b)
      ensures forall b | b in PostDominatedByColdCall :: b in order && MeetsCold(f, b)
      ensures Untouched(old(EdgeWeights), EdgeWeights, order)
      ensures forall j | 0 <= j < |order| :: BlockDone(old(EdgeWeights), EdgeWeights, f, order, j)
      ensures forall j | 0 <= j < |order| :: PredictionKept(f, EdgeWeights, order, j)
    {
      ghost var w0 := EdgeWeights;
      for k := 0 to |order|
        invariant PostDominatedByUnreachable == DoomedUpTo(f, order, k) && PostDominatedByColdCall == ColdAfter(f, order, k)
        invariant Untouched(w0, EdgeWeights, order[..k]) && forall j | 0 <= j < k :: BlockDone(w0, EdgeWeights, f, order, j)
      {
        VisitNext(f, order, k, w0);
      }
      assert order[..|order|] == order;
      ColdAfterSound(f, order, |order|);
      ColdAfterSeen(f, order, |order|);
      forall j | 0 <= j < |order| ensures PredictionKept(f, EdgeWeights, order, j) {
        DoneAsPredicted(f, w0, EdgeWeights, order, j);
      }
    }

    /** runOnFunction: each block of the function gets the weights of the rule that decides it. */
    method RunOnFunction(f: Function, order: seq<Block>)
      requires WellFormed(f) && PostOrder(f, order) && PostDominatedByUnreachable == {} && PostDominatedByColdCall == {}
      modifies this
      ensures PostDominatedByUnreachable == {} && PostDominatedByColdCall == {}
      ensures Untouched(old(EdgeWeights), EdgeWeights, order)
      ensures forall j | 0 <= j < |order| :: BlockDone(old(EdgeWeights), EdgeWeights, f, order, j)
      ensures forall j | 0 <= j < |order| :: PredictionKept(f, EdgeWeights, order, j)
    {
      WalkPostOrder(f, order);
      PostDominatedByUnreachable, PostDominatedByColdCall := {}, {};
    }
  }

  /** What the walk leaves for the j-th block: its weights, by the rules, or no change. */
  ghost predicate BlockDone(w0: Weights, w: Weights, f: Function, order: seq<Block>, j: nat)
    requires j < |order| && InFunction(f, order)
  {
    var b := order[j];
    match BlockWeights(f, DoomedIn(f, order), ColdAfter(f, order, j), b)
    case None => forall i: nat :: (Edge(b, i) in w <==> Edge(b, i) in w0) && (Edge(b, i) in w0 ==> w[Edge(b, i)] == w0[Edge(b, i)])
    case Some(ws) => forall i: nat | i < |ws| :: Edge(b, i) in w && w[Edge(b, i)] == ws[i]
  }

  /** After a run, an edge predicted less likely than another of the block weighs less. */
  ghost predicate PredictionKept(f: Function, w: Weights, order: seq<Block>, j: nat)
    requires j < |order| && InFunction(f, order)
  {
    var b := order[j];
    forall i: nat, k: nat | i < |f.succs[b]| && k < |f.succs[b]| && LessLikely(f, ColdAfter(f, order, j), b, i, k) ::
      Edge(b, i) in w && Edge(b, k) in w && w[Edge(b, i)] < w[Edge(b, k)]
  }

  lemma DoneAsPredicted(f: Function, w0: Weights, w: Weights, order: seq<Block>, j: nat)
    requires WellFormed(f) && PostOrder(f, order) && j < |order| && BlockDone(w0, w, f, order, j)
    ensures PredictionKept(f, w, order, j)
  {
    var b := order[j];
    forall s | s in f.succs[b] ensures s in DoomedIn(f, order) <==> Doomed(f, s) {
      DoomedWalked(f, order, j, s);
    }
    forall i: nat, k: nat | i < |f.succs[b]| && k < |f.succs[b]| && LessLikely(f, ColdAfter(f, order, j), b, i, k)
      ensures Edge(b, i) in w && Edge(b, k) in w && w[Edge(b, i)] < w[Edge(b, k)] {
      LessLikelyWeighsLess(f, DoomedIn(f, order), ColdAfter(f, order, j), b, i, k);
    }
  }

  /** The weights of blocks not yet visited are as they were. */
  ghost predicate Untouched(w0: Weights, w: Weights, seen: seq<Block>) {
    forall e: Edge | e.block !in seen :: (e in w <==> e in w0) && (e in w0 ==> w[e] == w0[e])
  }

  lemma VisitedOne(w0: Weights, w: Weights, w': Weights, f: Function, order: seq<Block>, k: nat)
    requires InFunction(f, order) && k < |order| && forall i, j | 0 <= i < j < |order| :: order[i] != order[j]
    requires Untouched(w0, w, order[..k]) && forall j | 0 <= j < k :: BlockDone(w0, w, f, order, j)
    requires match BlockWeights(f, DoomedIn(f, order), ColdAfter(f, order, k), order[k])
             case None => w' == w
             case Some(ws) => Put(w, w', order[k], ws)
    ensures Untouched(w0, w', order[..k + 1]) && forall j | 0 <= j < k + 1 :: BlockDone(w0, w', f, order, j)
  {
    assert order[..k + 1] == order[..k] + [order[k]];
    assert order[k] !in order[..k];
    forall j | 0 <= j < k + 1 ensures BlockDone(w0, w', f, order, j) {
      if j < k {
        EarlierDone(w0, w, w', f, order, j, order[k]);
      }
    }
  }

  /** Only edges of another block change. */
  lemma EarlierDone(w0: Weights, w: Weights, w': Weights, f: Function, order: seq<Block>, j: nat, b: Block)
    requires InFunction(f, order) && j < |order| && BlockDone(w0, w, f, order, j) && order[j] != b
    requires w' == w || exists ws :: Put(w, w', b, ws)
    ensures BlockDone(w0, w', f, order, j)
  {
  }

  lemma LoopEdgesMean(ss: seq<Block>, l: Loop)
    ensures var kinds := LoopKinds(ss, l);
            (Where(kinds, Back) == [] && Where(kinds, Exiting) == []) <==> forall s | s in ss :: LoopKind(l, s) == Inner
  {
    var kinds := LoopKinds(ss, l);
    WhereMeans(kinds, Back);
    WhereMeans(kinds, Exiting);
    if forall s | s in ss :: LoopKind(l, s) == Inner {
      NoneOfKind(kinds, Back);
      NoneOfKind(kinds, Exiting);
    }
    forall i | 0 <= i < |ss| && kinds[i] != Inner ensures Where(kinds, Back) != [] || Where(kinds, Exiting) != [] {
      assert kinds[i] == LoopKind(l, ss[i]);
      assert i in Where(kinds, kinds[i]);
    }
    if Where(kinds, Back) == [] && Where(kinds, Exiting) == [] {
      forall s | s in ss ensures LoopKind(l, s) == Inner {
        var i :| 0 <= i < |ss| && ss[i] == s;
        assert kinds[i] == Inner;
      }
    }
  }
}
