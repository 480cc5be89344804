/** Which heuristic decides a block, and the weights it gives. */
module BranchRules {
  import opened BranchModel
  import opened BranchWeights
  import opened TwoWayBranches
  import opened Wrappers

  /** An edge by its source and the index among the source's successors. */
  datatype Edge = Edge(block: Block, index: nat)

  type Weights = map<Edge, int>

  function KindsIn(ss: seq<Block>, rare: set<Block>): (r: seq<Kind>)
    ensures |r| == |ss|
  {
    seq(|ss|, i requires 0 <= i < |ss| => if ss[i] in rare then Rare else Usual)
  }

  function LoopKind(l: Loop, s: Block): Kind {
    if s !in l.blocks then Exiting else if s == l.header then Back else Inner
  }

  function LoopKinds(ss: seq<Block>, l: Loop): (r: seq<Kind>)
    ensures |r| == |ss|
  {
    seq(|ss|, i requires 0 <= i < |ss| => LoopKind(l, ss[i]))
  }

  function ByWeight(kinds: seq<Kind>, weight: Kind -> int): (r: seq<int>)
    ensures ByKind(r, kinds, weight)
  {
    seq(|kinds|, i requires 0 <= i < |kinds| => weight(kinds[i]))
  }

  function Values(ops: seq<Operand>): (r: seq<int>)
    requires forall o | o in ops :: o.Int?
    ensures |r| == |ops| && forall i | 0 <= i < |r| :: r[i] == ops[i].value
  {
    seq(|ops|, i requires 0 <= i < |ops| => ops[i].value)
  }

  /** Several edges, some of them to blocks of the set. */
  predicate SomeRare(ss: seq<Block>, rare: set<Block>) {
    |ss| > 1 && exists s | s in ss :: s in rare
  }

  /** The weight node is used: a branch or switch with several edges and an integer for each. */
  predicate HasProfile(f: Function, b: Block)
    requires b in f.succs
  {
    |f.succs[b]| != 1 && b in f.branches && b in f.prof && |f.prof[b]| == |f.succs[b]| && forall o | o in f.prof[b] :: o.Int?
  }

  /** Some edge leaves the loop or goes back to its header. */
  predicate LoopDecides(f: Function, b: Block)
    requires b in f.succs
  {
    b in f.loops && exists s | s in f.succs[b] :: LoopKind(f.loops[b], s) != Inner
  }

  function TwoWayWeights(t: TwoWay): seq<int> {
    match t
    case Invoke => [IH_TAKEN_WEIGHT, IH_NONTAKEN_WEIGHT]
    case _ => if t.isProb then [LIKELY_WEIGHT, UNLIKELY_WEIGHT] else [UNLIKELY_WEIGHT, LIKELY_WEIGHT]
  }

  function ProfileWeights(ws: seq<int>): seq<int>
    requires Sum(ws) >= 0
  {
    Scaled(ws, ScalingFactor(Sum(ws)))
  }

  /** The weights of all edges of a block, or none. */
  ghost function BlockWeights(f: Function, doomed: set<Block>, coldSet: set<Block>, b: Block): Option<seq<int>>
    requires b in f.succs
  {
    var ss := f.succs[b];
    if SomeRare(ss, doomed) then
      var kinds := KindsIn(ss, doomed);
      Some(ByWeight(kinds, k => UnreachableWeight(kinds, k)))
    else if HasProfile(f, b) then
      var ws := Values(f.prof[b]);
      if Sum(ws) >= 0 then Some(ProfileWeights(ws)) else None
    else if SomeRare(ss, coldSet) then
      var kinds := KindsIn(ss, coldSet);
      Some(ByWeight(kinds, k => ColdWeight(kinds, k)))
    else if LoopDecides(f, b) then
      var kinds := LoopKinds(ss, f.loops[b]);
      Some(ByWeight(kinds, k => LoopWeight(kinds, k)))
    else
      match Recognized(EndOf(f, b))
      case Some(t) => Some(TwoWayWeights(t))
      case None => None
  }

  // ----- What is predicted -----

  /** The first of two edges is the likely one. */
  predicate FirstLikely(t: TwoWay) {
    t.Invoke? || t.isProb
  }

  /** Some of several edges go to doomed blocks. */
  ghost predicate DoomDecides(f: Function, b: Block)
    requires b in f.succs
  {
    |f.succs[b]| > 1 && exists s | s in f.succs[b] :: Doomed(f, s)
  }

  /**
   By the first of the predictions that applies, edge i is less likely than edge k: it goes to a
   doomed block, to a cold one, out of the loop, or it is the unlikely one of two.
   */
  ghost predicate LessLikely(f: Function, coldSet: set<Block>, b: Block, i: nat, k: nat)
    requires b in f.succs && i < |f.succs[b]| && k < |f.succs[b]|
  {
    var ss := f.succs[b];
    if DoomDecides(f, b) then Doomed(f, ss[i]) && !Doomed(f, ss[k])
    else if HasProfile(f, b) then false
    else if SomeRare(ss, coldSet) then ss[i] in coldSet && ss[k] !in coldSet
    else if LoopDecides(f, b) then ss[i] !in f.loops[b].blocks && ss[k] in f.loops[b].blocks
    else match Recognized(EndOf(f, b))
         case Some(t) => if FirstLikely(t) then i == 1 && k == 0 else i == 0 && k == 1
         case None => false
  }

  /** The less likely edge weighs less. */
  lemma LessLikelyWeighsLess(f: Function, doomed: set<Block>, coldSet: set<Block>, b: Block, i: nat, k: nat)
    requires WellFormed(f) && b in f.succs && i < |f.succs[b]| && k < |f.succs[b]| && LessLikely(f, coldSet, b, i, k)
    requires forall s | s in f.succs[b] :: s in doomed <==> Doomed(f, s)
    ensures var ws := BlockWeights(f, doomed, coldSet, b);
            ws.Some? && i < |ws.value| && k < |ws.value| && ws.value[i] < ws.value[k]
  {
    var ss := f.succs[b];
    KindsInOrder(KindsIn(ss, doomed));
    KindsInOrder(KindsIn(ss, coldSet));
    if b in f.loops {
      KindsInOrder(LoopKinds(ss, f.loops[b]));
    }
    assert SomeRare(ss, doomed) <==> DoomDecides(f, b);
  }

  /** The block joins the blocks that must meet a cold call. */
  predicate JoinsCold(f: Function, doomed: set<Block>, coldSet: set<Block>, b: Block)
    requires b in f.succs
  {
    && !SomeRare(f.succs[b], doomed) && !HasProfile(f, b) && f.succs[b] != []
    && ((forall s | s in f.succs[b] :: s in coldSet) || b in f.cold)
  }

  lemma {:induction false} ValuesNotNegative(ops: seq<Operand>)
    requires forall o | o in ops :: o.Int? && OperandFits(o)
    ensures Sum(Values(ops)) >= 0 && forall i | 0 <= i < |ops| :: Values(ops)[i] >= 0
    decreases |ops|
  {
    var ws := Values(ops);
    assert forall i | 0 <= i < |ops| :: ops[i] in ops;
    if ops != [] {
      var n := |ops| - 1;
      assert forall o :: o in ops[..n] ==> o in ops;
      ValuesNotNegative(ops[..n]);
      assert ws[..n] == Values(ops[..n]);
    }
  }

  // ----- Bounds -----

  /** Weights from a profile may be 0, but their sum fits 32 bits. */
  ghost predicate FitsProfile(ws: seq<int>) {
    (forall i | 0 <= i < |ws| :: ws[i] >= 0) && Sum(ws) <= UINT32_MAX
  }

  lemma ScaledNotNegative(ws: seq<int>, sf: int)
    requires sf > 0 && forall i | 0 <= i < |ws| :: ws[i] >= 0
    ensures forall i | 0 <= i < |ws| :: Scaled(ws, sf)[i] >= 0
  {
    forall i | 0 <= i < |ws| ensures ws[i] / sf >= 0 {
      assert ws[i] >= 0;
    }
  }

  lemma ScaledFitsProfile(ws: seq<int>)
    requires forall i | 0 <= i < |ws| :: ws[i] >= 0
    ensures Sum(ws) >= 0 && FitsProfile(Scaled(ws, ScalingFactor(Sum(ws))))
  {
    ScalingFits(ws);
    ScaledNotNegative(ws, ScalingFactor(Sum(ws)));
  }

  lemma ProfileBounded(f: Function, b: Block)
    requires WellFormed(f) && b in f.succs && HasProfile(f, b)
    ensures Sum(Values(f.prof[b])) >= 0 && |ProfileWeights(Values(f.prof[b]))| == |f.succs[b]| && FitsProfile(ProfileWeights(Values(f.prof[b])))
  {
    ValuesNotNegative(f.prof[b]);
    ScaledFitsProfile(Values(f.prof[b]));
  }

  lemma RareBounded(ss: seq<Block>, rare: set<Block>)
    ensures var kinds := KindsIn(ss, rare);
            && Moderate(ByWeight(kinds, k => UnreachableWeight(kinds, k))) && Moderate(ByWeight(kinds, k => ColdWeight(kinds, k)))
            && |ByWeight(kinds, k => UnreachableWeight(kinds, k))| == |ByWeight(kinds, k => ColdWeight(kinds, k))| == |ss|
  {
    var kinds := KindsIn(ss, rare);
    UnreachableModerate(ByWeight(kinds, k => UnreachableWeight(kinds, k)), kinds);
    ColdModerate(ByWeight(kinds, k => ColdWeight(kinds, k)), kinds);
  }

  lemma LoopBounded(ss: seq<Block>, l: Loop)
    ensures var kinds := LoopKinds(ss, l);
            Moderate(ByWeight(kinds, k => LoopWeight(kinds, k))) && |ByWeight(kinds, k => LoopWeight(kinds, k))| == |ss|
  {
    var kinds := LoopKinds(ss, l);
    LoopModerate(ByWeight(kinds, k => LoopWeight(kinds, k)), kinds);
  }

  /** Every heuristic weighs all edges of the block, within bounds that leave the sum in 32 bits. */
  lemma BlockWeightsBounded(f: Function, doomed: set<Block>, coldSet: set<Block>, b: Block)
    requires WellFormed(f) && b in f.succs && BlockWeights(f, doomed, coldSet, b).Some?
    ensures |BlockWeights(f, doomed, coldSet, b).value| == |f.succs[b]|
    ensures if !SomeRare(f.succs[b], doomed) && HasProfile(f, b) then FitsProfile(BlockWeights(f, doomed, coldSet, b).value)
            else Moderate(BlockWeights(f, doomed, coldSet, b).value)
  {
    RareBounded(f.succs[b], doomed);
    RareBounded(f.succs[b], coldSet);
    if HasProfile(f, b) {
      ProfileBounded(f, b);
    }
    if b in f.loops {
      LoopBounded(f.succs[b], f.loops[b]);
    }
    if Recognized(EndOf(f, b)).Some? {
      TwoWayModerate(Recognized(EndOf(f, b)).value);
    }
  }

  lemma TwoWayModerate(t: TwoWay)
    ensures Moderate(TwoWayWeights(t)) && |TwoWayWeights(t)| == 2
  {
    var ws := TwoWayWeights(t);
    assert ws[..1][..0] == [];
    assert Sum(ws[..1]) == ws[0];
  }

  // ----- Along a post-order -----

  ghost predicate InFunction(f: Function, order: seq<Block>) {
    forall i | 0 <= i < |order| :: order[i] in f.succs
  }

  /** PostDominatedByColdCall after k blocks. */
  ghost function ColdAfter(f: Function, order: seq<Block>, k: nat): set<Block>
    requires k <= |order| && InFunction(f, order)
  {
    if k == 0 then {}
    else
      var before := ColdAfter(f, order, k - 1);
      before + if JoinsCold(f, DoomedIn(f, order), before, order[k - 1]) then {order[k - 1]} else {}
  }

  lemma {:induction false} ColdAfterSeen(f: Function, order: seq<Block>, k: nat)
    requires k <= |order| && InFunction(f, order)
    ensures forall b | b in ColdAfter(f, order, k) :: b in order[..k]
    decreases k
  {
    if k > 0 {
      ColdAfterSeen(f, order, k - 1);
      assert order[..k] == order[..k - 1] + [order[k - 1]];
    }
  }

  /** Every path from a block in the set meets a cold call. */
  lemma {:induction false} ColdAfterSound(f: Function, order: seq<Block>, k: nat)
    requires WellFormed(f) && k <= |order| && InFunction(f, order)
    ensures forall b | b in ColdAfter(f, order, k) :: MeetsCold(f, b)
    decreases k
  {
    if k > 0 {
      ColdAfterSound(f, order, k - 1);
      var before, b := ColdAfter(f, order, k - 1), order[k - 1];
      if b in f.cold {
        ColdItself(f, b);
      } else if f.succs[b] != [] && forall s | s in f.succs[b] :: s in before {
        AllSuccessorsCold(f, b);
      }
    }
  }

  /** What the rule must find: a block with a cold call, or with only cold successors, unless it is decided before. */
  lemma {:induction false} ColdFound(f: Function, order: seq<Block>, j: nat, k: nat)
    requires j < k <= |order| && InFunction(f, order)
    requires var b := order[j];
             && !SomeRare(f.succs[b], DoomedIn(f, order)) && !HasProfile(f, b) && f.succs[b] != []
             && (b in f.cold || forall s | s in f.succs[b] :: s in ColdAfter(f, order, j))
    ensures order[j] in ColdAfter(f, order, k)
    decreases k
  {
    if j < k - 1 {
      ColdFound(f, order, j, k - 1);
    }
  }

  /** Only the successors' membership matters. */
  lemma SameDoom(f: Function, d: set<Block>, e: set<Block>, coldSet: set<Block>, b: Block)
    requires b in f.succs && forall s | s in f.succs[b] :: s in d <==> s in e
    ensures BlockWeights(f, d, coldSet, b) == BlockWeights(f, e, coldSet, b) && JoinsCold(f, d, coldSet, b) == JoinsCold(f, e, coldSet, b)
  {
    assert KindsIn(f.succs[b], d) == KindsIn(f.succs[b], e);
    assert SomeRare(f.succs[b], d) == SomeRare(f.succs[b], e);
  }
}
