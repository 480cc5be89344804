/** What the predictions come to after a run: the amounts for two successors, and the hot one of a block with doomed ones. */
module BranchPredictions {
  import opened BranchModel
  import opened BranchWeights
  import opened BranchRules
  import opened BranchProbability
  import opened BranchTotals
  import opened HotSuccessors
  import opened TwoWayBranches
  import opened Wrappers

  // ----- Two successors -----

  lemma TwoKinds(kinds: seq<Kind>, i: nat)
    requires |kinds| == 2 && i < 2 && kinds[i] != kinds[1 - i]
    ensures Count(kinds, kinds[i]) == 1 && Count(kinds, kinds[1 - i]) == 1
  {
    OnlyOne(kinds, kinds[0]);
    OnlyOne(kinds, kinds[1]);
  }

  lemma OnlyOne(kinds: seq<Kind>, k: Kind)
    requires |kinds| == 2 && kinds[0] != kinds[1] && (k == kinds[0] || k == kinds[1])
    ensures Count(kinds, k) == 1
  {
    var first := kinds[..1];
    assert first[..0] == [] && Where([], k) == [];
    assert Where(first, k) == if kinds[0] == k then [0] else [];
  }

  ghost predicate Weighs(w: Weights, b: Block, i: nat, first: int, k: nat, second: int) {
    Edge(b, i) in w && w[Edge(b, i)] == first && Edge(b, k) in w && w[Edge(b, k)] == second
  }

  /** The amounts for a block with two successors, one of each kind; the first prediction that applies decides. */
  lemma TwoSuccessors(f: Function, order: seq<Block>, w0: Weights, w: Weights, j: nat, i: nat)
    requires WellFormed(f) && PostOrder(f, order) && j < |order| && BlockDone(w0, w, f, order, j)
    requires |f.succs[order[j]]| == 2 && i < 2
    ensures var b, k, coldSet := order[j], 1 - i, ColdAfter(f, order, j);
            var s, s' := f.succs[b][i], f.succs[b][k];
            && (Doomed(f, s) && !Doomed(f, s') ==> Weighs(w, b, i, 1, k, 1048575))
            && (!DoomDecides(f, b) && !HasProfile(f, b) ==>
                  && (s in coldSet && s' !in coldSet ==> Weighs(w, b, i, 4, k, 64))
                  && (!SomeRare(f.succs[b], coldSet) && b in f.loops && s !in f.loops[b].blocks && s' in f.loops[b].blocks ==>
                        Weighs(w, b, i, 4, k, 124))
                  && (!SomeRare(f.succs[b], coldSet) && b in f.loops && {s, s'} <= f.loops[b].blocks && s == f.loops[b].header != s' ==>
                        Weighs(w, b, i, 124, k, 124)))
  {
    var b, k, coldSet := order[j], 1 - i, ColdAfter(f, order, j);
    var ss := f.succs[b];
    forall s | s in ss ensures s in DoomedIn(f, order) <==> Doomed(f, s) {
      DoomedWalked(f, order, j, s);
    }
    assert ss[i] in ss && ss[k] in ss;
    if (ss[i] in DoomedIn(f, order)) != (ss[k] in DoomedIn(f, order)) {
      TwoKinds(KindsIn(ss, DoomedIn(f, order)), i);
    } else if (ss[i] in coldSet) != (ss[k] in coldSet) {
      TwoKinds(KindsIn(ss, coldSet), i);
    } else if b in f.loops && LoopKind(f.loops[b], ss[i]) != LoopKind(f.loops[b], ss[k]) {
      TwoKinds(LoopKinds(ss, f.loops[b]), i);
    }
  }

  /** The amounts for what a terminator compares, and for an invoke, when nothing before decides. */
  lemma TwoWays(f: Function, order: seq<Block>, w0: Weights, w: Weights, j: nat)
    requires WellFormed(f) && PostOrder(f, order) && j < |order| && BlockDone(w0, w, f, order, j)
    requires var b := order[j];
             !DoomDecides(f, b) && !HasProfile(f, b) && !SomeRare(f.succs[b], ColdAfter(f, order, j)) && !LoopDecides(f, b)
    requires Recognized(EndOf(f, order[j])).Some?
    ensures match Recognized(EndOf(f, order[j])).value
            case Invoke => Weighs(w, order[j], 0, 1048575, 1, 1)
            case t => if t.isProb then Weighs(w, order[j], 0, 20, 1, 12) else Weighs(w, order[j], 0, 12, 1, 20)
  {
    var ss := f.succs[order[j]];
    forall s | s in ss ensures s in DoomedIn(f, order) <==> Doomed(f, s) {
      DoomedWalked(f, order, j, s);
    }
    assert !SomeRare(ss, DoomedIn(f, order));
  }

  /**
   A branch or switch that is not decided by doomed blocks keeps the weights of its metadata if
   there is one for each of its edges, several or none, and they fit 32 bits together.
   */
  lemma MetadataKept(f: Function, order: seq<Block>, w0: Weights, w: Weights, j: nat, i: nat)
    requires WellFormed(f) && PostOrder(f, order) && j < |order| && BlockDone(w0, w, f, order, j)
    requires var b := order[j];
             && !DoomDecides(f, b) && b in f.branches && b in f.prof && |f.prof[b]| == |f.succs[b]| != 1 && i < |f.succs[b]|
             && (forall o | o in f.prof[b] :: o.Int?) && Sum(Values(f.prof[b])) <= UINT32_MAX
    ensures Edge(order[j], i) in w && w[Edge(order[j], i)] == f.prof[order[j]][i].value
  {
    var b := order[j];
    forall s | s in f.succs[b] ensures s in DoomedIn(f, order) <==> Doomed(f, s) {
      DoomedWalked(f, order, j, s);
    }
    assert !SomeRare(f.succs[b], DoomedIn(f, order));
    ValuesNotNegative(f.prof[b]);
    ScalingFits(Values(f.prof[b]));
  }

  // ----- The hot successor -----

  /** The edges to a doomed block weigh 1 each. */
  lemma {:induction false} DoomedPart(f: Function, w: Weights, b: Block, d: Block, n: nat)
    requires b in f.succs && n <= |f.succs[b]|
    requires forall i: nat | i < n && f.succs[b][i] == d :: Edge(b, i) in w && w[Edge(b, i)] == 1
    ensures PartTo(f, w, b, d, n) == EdgesTo(f, b, d, n)
    decreases n
  {
    if n > 0 {
      DoomedPart(f, w, b, d, n - 1);
    }
  }

  function EdgesTo(f: Function, b: Block, d: Block, n: nat): nat
    requires b in f.succs && n <= |f.succs[b]|
  {
    if n == 0 then 0 else EdgesTo(f, b, d, n - 1) + if f.succs[b][n - 1] == d then 1 else 0
  }

  /** The sum has the weight of d as often as d has edges, and that of another successor. */
  lemma {:induction false} SumWithOther(f: Function, w: Weights, b: Block, d: Block, k: nat, n: nat)
    requires b in f.succs && k < |f.succs[b]| && n <= |f.succs[b]| && f.succs[b][k] != d
    ensures Sum(SuccessorWeights(f, w, b)[..n]) >=
              EdgesTo(f, b, d, n) * Uint32To(f, w, b, d) + if k < n then Uint32To(f, w, b, f.succs[b][k]) else 0
    decreases n
  {
    var ws := SuccessorWeights(f, w, b);
    if n > 0 {
      SumWithOther(f, w, b, d, k, n - 1);
      SumSnoc(ws, n - 1);
      OneMoreEdgeTo(EdgesTo(f, b, d, n - 1), Uint32To(f, w, b, d));
      assert ws[n - 1] == Uint32To(f, w, b, f.succs[b][n - 1]);
    }
  }

  lemma OneMoreEdgeTo(n: nat, w: int)
    ensures (n + 1) * w == n * w + w
  {
  }

  /** c edges of weight 1 and one of 16 or more: the c edges do not take four fifths. */
  lemma NotFourFifths(c: nat, other: int)
    requires other >= 16
    ensures 5 * c <= 4 * (c * c + other)
  {
    Squared(c);
  }

  lemma Squared(c: nat)
    ensures c * c >= 2 * c - 1
  {
    assert (c - 1) * (c - 1) == c * c - 2 * c + 1;
  }

  lemma {:induction false} PartAtLeast(f: Function, w: Weights, b: Block, k: nat, n: nat)
    requires b in f.succs && k < n <= |f.succs[b]| && Uint32s(w) && Edge(b, k) in w
    ensures PartTo(f, w, b, f.succs[b][k], n) >= w[Edge(b, k)]
    decreases n
  {
    if k < n - 1 {
      PartAtLeast(f, w, b, k, n - 1);
    } else {
      PartBound(f, w, b, f.succs[b][k], n - 1);
    }
  }

  /** A block that can go on to a block that is not doomed has no doomed hot successor. */
  lemma HotIsNotDoomed(f: Function, order: seq<Block>, w0: Weights, w: Weights, j: nat, hot: Block, k: nat)
    requires WellFormed(f) && PostOrder(f, order) && j < |order| && FreshBlock(w0, order[j]) && BlockDone(w0, w, f, order, j)
    requires |f.succs[order[j]]| < 0x800_0000 && Uint32s(w)
    requires k < |f.succs[order[j]]| && !Doomed(f, f.succs[order[j]][k])
    requires hot in f.succs[order[j]] && 5 * Uint32To(f, w, order[j], hot) > 4 * Sum(SuccessorWeights(f, w, order[j]))
    ensures !Doomed(f, hot)
  {
    var b := order[j];
    var ss, other := f.succs[b], f.succs[b][k];
    if Doomed(f, hot) {
      DoomedWeighsOne(f, order, w0, w, j, hot, k);
      DoomedPart(f, w, b, hot, |ss|);
      PartAtLeast(f, w, b, k, |ss|);
      SuccessorFits(f, order, w0, w, j, hot);
      SuccessorFits(f, order, w0, w, j, other);
      SumWithOther(f, w, b, hot, k, |ss|);
      assert SuccessorWeights(f, w, b)[..|ss|] == SuccessorWeights(f, w, b);
      NotFourFifths(EdgesTo(f, b, hot, |ss|), Uint32To(f, w, b, other));
      assert false;
    }
  }

  lemma DoomedWeighsOne(f: Function, order: seq<Block>, w0: Weights, w: Weights, j: nat, d: Block, k: nat)
    requires WellFormed(f) && PostOrder(f, order) && j < |order| && BlockDone(w0, w, f, order, j)
    requires k < |f.succs[order[j]]| && d in f.succs[order[j]] && Doomed(f, d) && !Doomed(f, f.succs[order[j]][k])
    ensures var b := order[j];
            && (forall i: nat | i < |f.succs[b]| && f.succs[b][i] == d :: Edge(b, i) in w && w[Edge(b, i)] == 1)
            && Edge(b, k) in w && w[Edge(b, k)] >= 16
  {
    var b, doomed := order[j], DoomedIn(f, order);
    DoomedWalked(f, order, j, d);
    DoomedWalked(f, order, j, f.succs[b][k]);
    DoomedWeights(f.succs[b], doomed, d, k);
    assert BlockWeights(f, doomed, ColdAfter(f, order, j), b) ==
             Some(ByWeight(KindsIn(f.succs[b], doomed), x => UnreachableWeight(KindsIn(f.succs[b], doomed), x)));
  }

  lemma DoomedWeights(ss: seq<Block>, doomed: set<Block>, d: Block, k: nat)
    requires k < |ss| && d in ss && d in doomed && ss[k] !in doomed
    ensures var kinds := KindsIn(ss, doomed);
            var ws := ByWeight(kinds, x => UnreachableWeight(kinds, x));
            SomeRare(ss, doomed) && (forall i: nat | i < |ss| && ss[i] == d :: ws[i] == 1) && ws[k] >= 16
  {
    KindsInOrder(KindsIn(ss, doomed));
  }
}
