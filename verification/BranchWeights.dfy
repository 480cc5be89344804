/** The weights each heuristic gives, their bounds, and the sums over them. */
module BranchWeights {
  import opened BranchModel

  const UR_TAKEN_WEIGHT: int := 1
  const UR_NONTAKEN_WEIGHT: int := 1024 * 1024 - 1
  const CC_TAKEN_WEIGHT: int := 4
  const CC_NONTAKEN_WEIGHT: int := 64
  const LBH_TAKEN_WEIGHT: int := 124
  const LBH_NONTAKEN_WEIGHT: int := 4
  const LIKELY_WEIGHT: int := 20             // PH, ZH and FPH
  const UNLIKELY_WEIGHT: int := 12
  const IH_TAKEN_WEIGHT: int := 1024 * 1024 - 1
  const IH_NONTAKEN_WEIGHT: int := 1
  const NORMAL_WEIGHT: int := 16
  const MIN_WEIGHT: int := 1
  const DEFAULT_WEIGHT: int := 16

  /** What a heuristic takes an edge for. */
  datatype Kind = Rare | Usual | Back | Inner | Exiting

  function Max(a: int, b: int): int { if a > b then a else b }

  // ----- Edge lists -----

  /** The indices of the edges of one kind, in order. */
  function Where(kinds: seq<Kind>, k: Kind): seq<nat> {
    if kinds == [] then []
    else
      var n := |kinds| - 1;
      if kinds[n] == k then Where(kinds[..n], k) + [n] else Where(kinds[..n], k)
  }

  lemma {:induction false} WhereMeans(kinds: seq<Kind>, k: Kind)
    ensures forall i: nat :: i in Where(kinds, k) <==> i < |kinds| && kinds[i] == k
    decreases |kinds|
  {
    if kinds != [] {
      WhereMeans(kinds[..|kinds| - 1], k);
    }
  }

  function Count(kinds: seq<Kind>, k: Kind): nat { |Where(kinds, k)| }

  lemma WhereSnoc(kinds: seq<Kind>, n: nat, k: Kind)
    requires n < |kinds|
    ensures Where(kinds[..n + 1], k) == if kinds[n] == k then Where(kinds[..n], k) + [n] else Where(kinds[..n], k)
  {
    assert kinds[..n + 1][..n] == kinds[..n];
  }

  /** The weight divided over the edges of a kind, but not less than the least. */
  function Shared(weight: int, kinds: seq<Kind>, k: Kind, least: int): int {
    if Count(kinds, k) == 0 then least else Max(weight / Count(kinds, k), least)
  }

  function UnreachableWeight(kinds: seq<Kind>, k: Kind): int {
    if k == Rare then Shared(UR_TAKEN_WEIGHT, kinds, Rare, MIN_WEIGHT) else Shared(UR_NONTAKEN_WEIGHT, kinds, Usual, NORMAL_WEIGHT)
  }

  function ColdWeight(kinds: seq<Kind>, k: Kind): int {
    if k == Rare then Shared(CC_TAKEN_WEIGHT, kinds, Rare, MIN_WEIGHT) else Shared(CC_NONTAKEN_WEIGHT, kinds, Usual, NORMAL_WEIGHT)
  }

  function LoopWeight(kinds: seq<Kind>, k: Kind): int {
    match k
    case Back => Shared(LBH_TAKEN_WEIGHT, kinds, Back, NORMAL_WEIGHT)
    case Inner => Shared(LBH_TAKEN_WEIGHT, kinds, Inner, NORMAL_WEIGHT)
    case _ => Shared(LBH_NONTAKEN_WEIGHT, kinds, Exiting, MIN_WEIGHT)
  }

  /** However many edges share a weight, a rare edge weighs less than a usual one, and leaving a loop less than staying. */
  lemma KindsInOrder(kinds: seq<Kind>)
    ensures UnreachableWeight(kinds, Rare) == 1 && 16 <= UnreachableWeight(kinds, Usual)
    ensures 1 <= ColdWeight(kinds, Rare) <= 4 && 16 <= ColdWeight(kinds, Usual)
    ensures 1 <= LoopWeight(kinds, Exiting) <= 4 && 16 <= LoopWeight(kinds, Back) && 16 <= LoopWeight(kinds, Inner)
  {
    SharedBounds(UR_TAKEN_WEIGHT, kinds, Rare, MIN_WEIGHT);
    SharedBounds(CC_TAKEN_WEIGHT, kinds, Rare, MIN_WEIGHT);
    SharedBounds(LBH_NONTAKEN_WEIGHT, kinds, Exiting, MIN_WEIGHT);
  }

  lemma SharedBounds(weight: int, kinds: seq<Kind>, k: Kind, least: int)
    requires 0 <= least <= weight
    ensures least <= Shared(weight, kinds, k, least) <= weight
  {
    if Count(kinds, k) > 0 {
      QuotientNoMore(weight, Count(kinds, k));
    }
  }

  lemma QuotientNoMore(w: int, n: int)
    requires w >= 0 && n > 0
    ensures 0 <= w / n <= w
  {
    DivideAndMultiply(w, n);
    TimesAtLeast(n, w / n, w);
  }

  lemma TimesAtLeast(n: int, q: int, w: int)
    requires n > 0 && 0 <= n * q <= w
    ensures 0 <= q <= w
  {
    if q < 0 {
      MultiplyUp(q, -1, n);
    } else {
      MultiplyUp(1, n, q);
    }
  }

  // ----- Sums -----

  function Sum(ws: seq<int>): int {
    if ws == [] then 0 else Sum(ws[..|ws| - 1]) + ws[|ws| - 1]
  }

  lemma SumSnoc(ws: seq<int>, n: nat)
    requires n < |ws|
    ensures Sum(ws[..n + 1]) == Sum(ws[..n]) + ws[n]
  {
    assert ws[..n + 1][..n] == ws[..n];
  }

  lemma {:induction false} SumBound(ws: seq<int>, low: int, high: int)
    requires forall i | 0 <= i < |ws| :: low <= ws[i] <= high
    ensures low * |ws| <= Sum(ws) <= high * |ws|
    decreases |ws|
  {
    if ws != [] {
      SumBound(ws[..|ws| - 1], low, high);
    }
  }

  /** The weights of the edges by their kind. */
  ghost predicate ByKind(ws: seq<int>, kinds: seq<Kind>, weight: Kind -> int) {
    |ws| == |kinds| && forall i | 0 <= i < |ws| :: ws[i] == weight(kinds[i])
  }

  /** A sum by kinds. */
  lemma {:induction false} SumByKind(ws: seq<int>, kinds: seq<Kind>, weight: Kind -> int)
    requires ByKind(ws, kinds, weight)
    ensures Sum(ws) == Count(kinds, Rare) * weight(Rare) + Count(kinds, Usual) * weight(Usual) + Count(kinds, Back) * weight(Back)
                       + Count(kinds, Inner) * weight(Inner) + Count(kinds, Exiting) * weight(Exiting)
    decreases |ws|
  {
    if ws != [] {
      var n := |ws| - 1;
      SumByKind(ws[..n], kinds[..n], weight);
      OneMoreOfKind(kinds, n, Rare, weight(Rare));
      OneMoreOfKind(kinds, n, Usual, weight(Usual));
      OneMoreOfKind(kinds, n, Back, weight(Back));
      OneMoreOfKind(kinds, n, Inner, weight(Inner));
      OneMoreOfKind(kinds, n, Exiting, weight(Exiting));
    }
  }

  lemma OneMoreOfKind(kinds: seq<Kind>, n: nat, k: Kind, w: int)
    requires |kinds| == n + 1
    ensures Count(kinds, k) * w == Count(kinds[..n], k) * w + if kinds[n] == k then w else 0
  {
    if kinds[n] == k {
      assert Count(kinds, k) == Count(kinds[..n], k) + 1;
    }
  }

  lemma {:induction false} CountsAddUp(kinds: seq<Kind>)
    ensures Count(kinds, Rare) + Count(kinds, Usual) + Count(kinds, Back) + Count(kinds, Inner) + Count(kinds, Exiting) == |kinds|
    decreases |kinds|
  {
    if kinds != [] {
      CountsAddUp(kinds[..|kinds| - 1]);
    }
  }

  lemma SharedTotal(weight: int, kinds: seq<Kind>, k: Kind, least: int)
    requires weight >= 0 && least >= 1
    ensures Shared(weight, kinds, k, least) >= least
    ensures 0 <= Count(kinds, k) * Shared(weight, kinds, k, least) <= weight + least * Count(kinds, k)
  {
    var n := Count(kinds, k);
    if n > 0 {
      DivideAndMultiply(weight, n);
      if weight / n > least {
      } else {
        assert n * least == least * n;
      }
    }
  }

  lemma DivideAndMultiply(w: int, n: int)
    requires w >= 0 && n > 0
    ensures 0 <= n * (w / n) <= w
  {
  }

  /** No heuristic weight is 0, and together they exceed 16 per edge by less than 2^20. */
  ghost predicate Moderate(ws: seq<int>) {
    && (forall i | 0 <= i < |ws| :: 1 <= ws[i] < 0x10_0000)
    && Sum(ws) <= NORMAL_WEIGHT * |ws| + 0x10_0000
  }

  lemma UnreachableModerate(ws: seq<int>, kinds: seq<Kind>)
    requires ByKind(ws, kinds, k => UnreachableWeight(kinds, k)) && forall i | 0 <= i < |kinds| :: kinds[i] == Rare || kinds[i] == Usual
    ensures Moderate(ws)
  {
    SumByKind(ws, kinds, k => UnreachableWeight(kinds, k));
    CountsAddUp(kinds);
    SharedTotal(UR_TAKEN_WEIGHT, kinds, Rare, MIN_WEIGHT);
    SharedTotal(UR_NONTAKEN_WEIGHT, kinds, Usual, NORMAL_WEIGHT);
    NoneOfKind(kinds, Back);
    NoneOfKind(kinds, Inner);
    NoneOfKind(kinds, Exiting);
    SharedSmall(UR_NONTAKEN_WEIGHT, kinds, Usual, NORMAL_WEIGHT);
  }

  lemma {:induction false} NoneOfKind(kinds: seq<Kind>, k: Kind)
    requires forall i | 0 <= i < |kinds| :: kinds[i] != k
    ensures Count(kinds, k) == 0
    decreases |kinds|
  {
    if kinds != [] {
      NoneOfKind(kinds[..|kinds| - 1], k);
    }
  }

  lemma SharedSmall(weight: int, kinds: seq<Kind>, k: Kind, least: int)
    requires 0 <= weight < 0x10_0000 && least < 0x10_0000
    ensures Shared(weight, kinds, k, least) < 0x10_0000
  {
  }

  lemma ColdModerate(ws: seq<int>, kinds: seq<Kind>)
    requires ByKind(ws, kinds, k => ColdWeight(kinds, k)) && forall i | 0 <= i < |kinds| :: kinds[i] == Rare || kinds[i] == Usual
    ensures Moderate(ws)
  {
    SumByKind(ws, kinds, k => ColdWeight(kinds, k));
    CountsAddUp(kinds);
    SharedTotal(CC_TAKEN_WEIGHT, kinds, Rare, MIN_WEIGHT);
    SharedTotal(CC_NONTAKEN_WEIGHT, kinds, Usual, NORMAL_WEIGHT);
    NoneOfKind(kinds, Back);
    NoneOfKind(kinds, Inner);
    NoneOfKind(kinds, Exiting);
    SharedSmall(CC_TAKEN_WEIGHT, kinds, Rare, MIN_WEIGHT);
    SharedSmall(CC_NONTAKEN_WEIGHT, kinds, Usual, NORMAL_WEIGHT);
  }

  lemma LoopModerate(ws: seq<int>, kinds: seq<Kind>)
    requires ByKind(ws, kinds, k => LoopWeight(kinds, k)) && forall i | 0 <= i < |kinds| :: kinds[i] != Rare && kinds[i] != Usual
    ensures Moderate(ws)
  {
    SumByKind(ws, kinds, k => LoopWeight(kinds, k));
    CountsAddUp(kinds);
    SharedTotal(LBH_TAKEN_WEIGHT, kinds, Back, NORMAL_WEIGHT);
    SharedTotal(LBH_TAKEN_WEIGHT, kinds, Inner, NORMAL_WEIGHT);
    SharedTotal(LBH_NONTAKEN_WEIGHT, kinds, Exiting, MIN_WEIGHT);
    NoneOfKind(kinds, Rare);
    NoneOfKind(kinds, Usual);
    SharedSmall(LBH_TAKEN_WEIGHT, kinds, Back, NORMAL_WEIGHT);
    SharedSmall(LBH_TAKEN_WEIGHT, kinds, Inner, NORMAL_WEIGHT);
    SharedSmall(LBH_NONTAKEN_WEIGHT, kinds, Exiting, MIN_WEIGHT);
  }

  // ----- Metadata -----

  function ScalingFactor(sum: int): int
    requires sum >= 0
  {
    if sum > UINT32_MAX then sum / UINT32_MAX + 1 else 1
  }

  function Scaled(ws: seq<int>, sf: int): seq<int>
    requires sf > 0
  {
    seq(|ws|, i requires 0 <= i < |ws| => ws[i] / sf)
  }

  lemma AddFloors(a: int, b: int, sf: int)
    requires a >= 0 && b >= 0 && sf > 0
    ensures a / sf + b / sf <= (a + b) / sf
  {
    DivisionBounds(a, sf);
    DivisionBounds(b, sf);
    assert (a / sf + b / sf) * sf == a / sf * sf + b / sf * sf;
    FloorAtLeast(a + b, sf, a / sf + b / sf);
  }

  lemma FloorAtLeast(n: int, sf: int, q: int)
    requires sf > 0 && q * sf <= n
    ensures q <= n / sf
  {
    DivisionBounds(n, sf);
    if n / sf + 1 <= q {
      MultiplyUp(n / sf + 1, q, sf);
    }
  }

  lemma DivisionBounds(n: int, sf: int)
    requires sf > 0
    ensures n / sf * sf <= n < (n / sf + 1) * sf
  {
  }

  lemma MultiplyUp(a: int, b: int, c: int)
    requires a <= b && c >= 0
    ensures a * c <= b * c
  {
  }

  lemma ScaledPrefix(ws: seq<int>, sf: int)
    requires sf > 0 && ws != []
    ensures Scaled(ws, sf)[..|ws| - 1] == Scaled(ws[..|ws| - 1], sf) && Scaled(ws, sf)[|ws| - 1] == ws[|ws| - 1] / sf
  {
  }

  lemma {:induction false} ScaledSum(ws: seq<int>, sf: int)
    requires sf > 0 && forall i | 0 <= i < |ws| :: ws[i] >= 0
    ensures 0 <= Sum(Scaled(ws, sf)) <= Sum(ws) / sf && Sum(ws) >= 0
    decreases |ws|
  {
    if ws != [] {
      var n := |ws| - 1;
      ScaledSum(ws[..n], sf);
      ScaledPrefix(ws, sf);
      AddFloors(Sum(ws[..n]), ws[n], sf);
      FloorAtLeast(ws[n], sf, 0);
    }
  }

  lemma FactorSuffices(sum: int)
    requires sum >= 0
    ensures sum / ScalingFactor(sum) <= UINT32_MAX
  {
    var sf := ScalingFactor(sum);
    DivisionBounds(sum, sf);
    DivisionBounds(sum, UINT32_MAX);
    if UINT32_MAX <= sum / sf {
      MultiplyUp(UINT32_MAX, sum / sf, sf);
    }
  }

  /** Scaling brings any sum of weights down to 32 bits, and leaves a sum that fits alone. */
  lemma ScalingFits(ws: seq<int>)
    requires forall i | 0 <= i < |ws| :: ws[i] >= 0
    ensures Sum(ws) >= 0
    ensures 0 <= Sum(Scaled(ws, ScalingFactor(Sum(ws)))) <= UINT32_MAX
    ensures Sum(ws) <= UINT32_MAX ==> Scaled(ws, ScalingFactor(Sum(ws))) == ws
  {
    ScaledSum(ws, 1);
    ScaledSum(ws, ScalingFactor(Sum(ws)));
    FactorSuffices(Sum(ws));
  }

  /** With fewer than 2^32 - 1 weights, scaling never turns a sum that is not 0 into 0. */
  lemma ScalingKeepsSome(ws: seq<int>)
    requires |ws| < UINT32_MAX && (forall i | 0 <= i < |ws| :: ws[i] >= 0) && Sum(ws) > 0
    ensures exists i :: 0 <= i < |ws| && Scaled(ws, ScalingFactor(Sum(ws)))[i] > 0
  {
    var sf := ScalingFactor(Sum(ws));
    FactorTimesCount(Sum(ws), |ws|);
    SomeExceeds(ws, sf - 1);
    var i :| 0 <= i < |ws| && ws[i] > sf - 1;
    FloorAtLeast(ws[i], sf, 1);
    assert Scaled(ws, sf)[i] > 0;
  }

  lemma SomeExceeds(ws: seq<int>, bound: int)
    requires bound * |ws| < Sum(ws) && bound >= 0 && forall i | 0 <= i < |ws| :: ws[i] >= 0
    ensures exists i :: 0 <= i < |ws| && ws[i] > bound
  {
    if forall i | 0 <= i < |ws| :: ws[i] <= bound {
      SumBound(ws, 0, bound);
    }
  }

  lemma FactorTimesCount(sum: int, n: nat)
    requires sum > 0 && n < UINT32_MAX
    ensures (ScalingFactor(sum) - 1) * n < sum
  {
    var q := ScalingFactor(sum) - 1;
    DivisionBounds(sum, UINT32_MAX);
    if q > 0 {
      MultiplyUp(n, UINT32_MAX - 1, q);
    }
  }
}
