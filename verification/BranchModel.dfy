/** Control-flow graphs, and which blocks can only end in unreachable or must meet a cold call. */
module BranchModel {
  import opened TwoWayBranches
  import opened Wrappers

  type Block(==, !new)

  /** An operand of a weight node. */
  datatype Operand = Int(value: int) | NotInt

  datatype Loop = Loop(header: Block, blocks: set<Block>)

  /**
   A function: the successors of each block by index, the blocks whose terminator is unreachable,
   those that contain a call to a cold function, those ending in a branch or switch, the weight
   operands of their metadata, the innermost loops and how the terminators choose.
   */
  datatype Function = Function(
    succs: map<Block, seq<Block>>, unreachable: set<Block>, cold: set<Block>, branches: set<Block>,
    prof: map<Block, seq<Operand>>, loops: map<Block, Loop>, ends: map<Block, End>)

  const UINT32_MAX: int := 0xFFFF_FFFF

  ghost predicate OperandFits(o: Operand) {
    o.Int? ==> 0 <= o.value <= UINT32_MAX
  }

  ghost predicate WellFormed(f: Function) {
    && (forall b, s | b in f.succs && s in f.succs[b] :: s in f.succs)
    && (forall b | b in f.ends && !f.ends[b].OtherEnd? :: b in f.succs && |f.succs[b]| == 2)
    && (forall b, o | b in f.prof && o in f.prof[b] :: OperandFits(o))
    && (forall b | b in f.succs :: |f.succs[b]| < UINT32_MAX)
    && (forall b | b in f.branches && b in f.succs :: f.succs[b] != [])
  }

  function EndOf(f: Function, b: Block): End {
    if b in f.ends then f.ends[b] else OtherEnd
  }

  // ----- Paths -----

  ghost predicate IsPath(f: Function, p: seq<Block>) {
    && p != [] && (forall i | 0 <= i < |p| :: p[i] in f.succs)
    && forall i | 0 <= i < |p| - 1 :: p[i + 1] in f.succs[p[i]]
  }

  /** The path ends where control cannot go on. */
  ghost predicate Ends(f: Function, p: seq<Block>)
    requires IsPath(f, p)
  {
    f.succs[p[|p| - 1]] == []
  }

  ghost predicate PathBetween(f: Function, p: seq<Block>, u: Block, v: Block) {
    IsPath(f, p) && p[0] == u && p[|p| - 1] == v
  }

  ghost predicate CanReach(f: Function, u: Block, v: Block) {
    exists p :: PathBetween(f, p, u, v)
  }

  /** Every path from b has at most n blocks and, where it ends, ends in unreachable. */
  ghost predicate DoomedBy(f: Function, b: Block, n: nat) {
    forall p :: IsPath(f, p) && p[0] == b ==> |p| <= n && (Ends(f, p) ==> p[|p| - 1] in f.unreachable)
  }

  /** All paths from b are finite and end in unreachable. */
  ghost predicate Doomed(f: Function, b: Block) {
    b in f.succs && exists n: nat :: DoomedBy(f, b, n)
  }

  /** Every path from b that ends, or has n blocks, meets a block with a cold call. */
  ghost predicate ColdBy(f: Function, b: Block, n: nat) {
    forall p :: IsPath(f, p) && p[0] == b && (Ends(f, p) || |p| >= n) ==> exists x :: x in p && x in f.cold
  }

  /** Every path from b meets a cold call, after boundedly many blocks. */
  ghost predicate MeetsCold(f: Function, b: Block) {
    b in f.succs && exists n: nat :: ColdBy(f, b, n)
  }

  // ----- Doom, block by block -----

  lemma LongPathGoesOn(f: Function, p: seq<Block>)
    requires IsPath(f, p)
    ensures |p| == 1 || f.succs[p[0]] != []
  {
    if |p| > 1 {
      assert p[0 + 1] in f.succs[p[0]];
    }
  }

  lemma DoomedExit(f: Function, b: Block)
    requires b in f.succs && f.succs[b] == []
    ensures Doomed(f, b) <==> b in f.unreachable
  {
    assert IsPath(f, [b]) && Ends(f, [b]);
    if b in f.unreachable {
      forall p | IsPath(f, p) && p[0] == b ensures |p| <= 1 && (Ends(f, p) ==> p[|p| - 1] in f.unreachable) {
        LongPathGoesOn(f, p);
      }
      assert DoomedBy(f, b, 1);
    }
  }

  lemma PathTail(f: Function, p: seq<Block>)
    requires IsPath(f, p) && |p| > 1
    ensures IsPath(f, p[1..]) && p[1] in f.succs[p[0]] && (Ends(f, p[1..]) <==> Ends(f, p))
  {
    assert forall i | 0 <= i < |p| - 1 :: p[1..][i] == p[i + 1];
  }

  lemma PathExtend(f: Function, b: Block, p: seq<Block>)
    requires IsPath(f, p) && b in f.succs && p[0] in f.succs[b]
    ensures IsPath(f, [b] + p) && (Ends(f, [b] + p) <==> Ends(f, p))
  {
    var q := [b] + p;
    assert forall i | 0 < i < |q| :: q[i] == p[i - 1];
  }

  /** A doomed block dooms nothing it cannot reach: its successors are doomed too, and none leads back to it. */
  lemma DoomedSuccessor(f: Function, b: Block, s: Block)
    requires WellFormed(f) && Doomed(f, b) && s in f.succs[b]
    ensures Doomed(f, s) && !CanReach(f, s, b)
  {
    var n: nat :| DoomedBy(f, b, n);
    forall p | IsPath(f, p) && p[0] == s ensures |p| <= n && (Ends(f, p) ==> p[|p| - 1] in f.unreachable) {
      PathExtend(f, b, p);
      assert ([b] + p)[0] == b;
    }
    assert DoomedBy(f, s, n);
    if CanReach(f, s, b) {
      var p :| PathBetween(f, p, s, b);
      LongPath(f, b, s, p, n + 1);
    }
  }

  /** Around a cycle there are paths of any length. */
  lemma {:induction false} LongPath(f: Function, b: Block, s: Block, p: seq<Block>, n: nat)
    requires b in f.succs && s in f.succs[b] && PathBetween(f, p, s, b)
    ensures exists q :: IsPath(f, q) && q[0] == b && |q| >= n
    decreases n
  {
    if n == 0 {
      assert IsPath(f, [b]) && [b][0] == b;
    } else {
      LongPath(f, b, s, p, n - 1);
      var q :| IsPath(f, q) && q[0] == b && |q| >= n - 1;
      var r := [b] + (p[..|p| - 1] + q);
      assert forall i | 0 < i < |p| :: r[i] == p[i - 1];
      assert forall i | |p| <= i < |r| :: r[i] == q[i - |p|];
      assert IsPath(f, r);
    }
  }

  ghost predicate AllDoomedBy(f: Function, ss: seq<Block>, n: nat) {
    forall s | s in ss :: DoomedBy(f, s, n)
  }

  lemma {:induction false} CommonBound(f: Function, ss: seq<Block>) returns (n: nat)
    requires forall s | s in ss :: Doomed(f, s)
    ensures AllDoomedBy(f, ss, n)
    decreases |ss|
  {
    n := 0;
    if ss != [] {
      assert ss[0] in ss;
      var m: nat :| DoomedBy(f, ss[0], m);
      var k := CommonBound(f, ss[1..]);
      n := if m > k then m else k;
      forall s | s in ss ensures DoomedBy(f, s, n) {
        assert s == ss[0] || s in ss[1..];
        assert DoomedBy(f, s, if s == ss[0] then m else k);
      }
    }
  }

  /** A block whose successors are all doomed is doomed. */
  lemma AllSuccessorsDoomed(f: Function, b: Block)
    requires WellFormed(f) && b in f.succs && f.succs[b] != [] && forall s | s in f.succs[b] :: Doomed(f, s)
    ensures Doomed(f, b)
  {
    var n := CommonBound(f, f.succs[b]);
    forall p | IsPath(f, p) && p[0] == b ensures |p| <= n + 1 && (Ends(f, p) ==> p[|p| - 1] in f.unreachable) {
      if |p| > 1 {
        PathTail(f, p);
        assert DoomedBy(f, p[1], n);
        assert p[1..][0] == p[1];
      }
    }
    assert DoomedBy(f, b, n + 1);
  }

  // ----- Cold calls, block by block -----

  lemma ColdItself(f: Function, b: Block)
    requires b in f.succs && b in f.cold
    ensures MeetsCold(f, b)
  {
    assert ColdBy(f, b, 1);
  }

  ghost predicate AllColdBy(f: Function, ss: seq<Block>, n: nat) {
    forall s | s in ss :: ColdBy(f, s, n)
  }

  lemma {:induction false} CommonColdBound(f: Function, ss: seq<Block>) returns (n: nat)
    requires forall s | s in ss :: MeetsCold(f, s)
    ensures AllColdBy(f, ss, n)
    decreases |ss|
  {
    n := 0;
    if ss != [] {
      assert ss[0] in ss;
      var m: nat :| ColdBy(f, ss[0], m);
      var k := CommonColdBound(f, ss[1..]);
      n := if m > k then m else k;
      forall s | s in ss ensures ColdBy(f, s, n) {
        assert s == ss[0] || s in ss[1..];
        assert ColdBy(f, s, if s == ss[0] then m else k);
      }
    }
  }

  lemma AllSuccessorsCold(f: Function, b: Block)
    requires WellFormed(f) && b in f.succs && f.succs[b] != [] && forall s | s in f.succs[b] :: MeetsCold(f, s)
    ensures MeetsCold(f, b)
  {
    var n := CommonColdBound(f, f.succs[b]);
    forall p | IsPath(f, p) && p[0] == b && (Ends(f, p) || |p| >= n + 2) ensures exists x :: x in p && x in f.cold {
      assert |p| > 1;
      PathTail(f, p);
      assert ColdBy(f, p[1], n);
      assert p[1..][0] == p[1];
      var x :| x in p[1..] && x in f.cold;
      assert x in p;
    }
    assert ColdBy(f, b, n + 2);
  }

  // ----- Post-order -----

  ghost predicate EdgeOrdered(f: Function, order: seq<Block>, k: nat, s: Block)
    requires k < |order|
  {
    s in order && (s in order[..k] || CanReach(f, s, order[k]))
  }

  /**
   What a depth-first post-order guarantees: every block once, and the target of an edge comes
   before its source unless the walk was still inside the target, which then reaches the source.
   */
  ghost predicate PostOrder(f: Function, order: seq<Block>) {
    && (forall i, j | 0 <= i < j < |order| :: order[i] != order[j])
    && (forall k | 0 <= k < |order| :: order[k] in f.succs)
    && forall k, s | 0 <= k < |order| && s in f.succs[order[k]] :: EdgeOrdered(f, order, k, s)
  }

  /** In post-order the doomed successors of a block come before it. */
  lemma DoomedComesFirst(f: Function, order: seq<Block>, k: nat, s: Block)
    requires WellFormed(f) && PostOrder(f, order) && k < |order| && s in f.succs[order[k]] && Doomed(f, s)
    ensures s in order[..k]
  {
    assert EdgeOrdered(f, order, k, s);
    if CanReach(f, s, order[k]) {
      ReachAround(f, s, order[k]);
    }
  }

  /** A doomed block is on no cycle. */
  lemma ReachAround(f: Function, s: Block, b: Block)
    requires WellFormed(f) && Doomed(f, s) && b in f.succs && s in f.succs[b]
    ensures !CanReach(f, s, b)
  {
    if CanReach(f, s, b) {
      var p :| PathBetween(f, p, s, b);
      DoomedAlong(f, p);
      DoomedSuccessor(f, b, s);
    }
  }

  lemma {:induction false} DoomedAlong(f: Function, p: seq<Block>)
    requires WellFormed(f) && IsPath(f, p) && Doomed(f, p[0])
    ensures Doomed(f, p[|p| - 1])
    decreases |p|
  {
    if |p| > 1 {
      PathTail(f, p);
      DoomedSuccessor(f, p[0], p[1]);
      DoomedAlong(f, p[1..]);
    }
  }

  // ----- The sets after k blocks of a post-order -----

  ghost function DoomedUpTo(f: Function, order: seq<Block>, k: nat): set<Block>
    requires k <= |order|
  {
    set b | b in order[..k] && Doomed(f, b)
  }

  ghost function DoomedIn(f: Function, order: seq<Block>): set<Block> {
    DoomedUpTo(f, order, |order|)
  }

  /** The walk meets every successor, so it finds the doomed ones. */
  lemma DoomedWalked(f: Function, order: seq<Block>, k: nat, s: Block)
    requires WellFormed(f) && PostOrder(f, order) && k < |order| && s in f.succs[order[k]]
    ensures s in DoomedIn(f, order) <==> Doomed(f, s)
  {
    assert EdgeOrdered(f, order, k, s);
    assert order[..|order|] == order;
  }

  /** The rule that puts a block into PostDominatedByUnreachable, given the blocks before it, finds exactly the doomed ones. */
  lemma DoomedRule(f: Function, order: seq<Block>, k: nat)
    requires WellFormed(f) && PostOrder(f, order) && k < |order|
    ensures var b, before := order[k], DoomedUpTo(f, order, k);
            && b in f.succs
            && (Doomed(f, b) <==> if f.succs[b] == [] then b in f.unreachable else forall s | s in f.succs[b] :: s in before)
            && DoomedUpTo(f, order, k + 1) == before + (if Doomed(f, b) then {b} else {})
            && (forall s | s in f.succs[b] :: s in before <==> s in DoomedIn(f, order))
  {
    var b, before := order[k], DoomedUpTo(f, order, k);
    assert order[..k + 1] == order[..k] + [b];
    assert order[..|order|] == order;
    if f.succs[b] == [] {
      DoomedExit(f, b);
    } else if forall s | s in f.succs[b] :: s in before {
      AllSuccessorsDoomed(f, b);
    }
    forall s | s in f.succs[b] && Doomed(f, s) ensures s in before {
      DoomedComesFirst(f, order, k, s);
    }
    forall s | s in f.succs[b] && Doomed(f, b) ensures s in before {
      DoomedSuccessor(f, b, s);
    }
    assert forall s | s in before :: s in order;
  }
}
