/** GetIndexDifference: subtracting one list of scaled variables from another in place. */
module IndexDifference {
  import opened Arith
  import opened GepModel
  import opened LinearExpression
  import opened Decomposition

  /** The scaled sum of arbitrary values for the variables. */
  ghost function Combination(vars: seq<VariableIndex>, xs: seq<int>): int
    requires |xs| == |vars|
  {
    if vars == [] then 0
    else Combination(vars[..|vars| - 1], xs[..|vars| - 1]) + vars[|vars| - 1].scale * xs[|vars| - 1]
  }

  lemma {:induction false} CombinationErase(vars: seq<VariableIndex>, xs: seq<int>, i: nat)
    requires |xs| == |vars| && i < |vars|
    ensures Combination(Erase(vars, i), Erase(xs, i)) == Combination(vars, xs) - vars[i].scale * xs[i]
    decreases |vars|
  {
    var n := |vars| - 1;
    if i == n {
      assert Erase(vars, i) == vars[..n] && Erase(xs, i) == xs[..n];
    } else {
      CombinationErase(vars[..n], xs[..n], i);
      assert Erase(vars, i)[..n - 1] == Erase(vars[..n], i) && Erase(xs, i)[..n - 1] == Erase(xs[..n], i);
      assert Erase(vars, i)[n - 1] == vars[n] && Erase(xs, i)[n - 1] == xs[n];
    }
  }

  lemma CombinationAppend(vars: seq<VariableIndex>, xs: seq<int>, v: VariableIndex, x: int)
    requires |xs| == |vars|
    ensures Combination(vars + [v], xs + [x]) == Combination(vars, xs) + v.scale * x
  {
    assert (vars + [v])[..|vars|] == vars && (xs + [x])[..|xs|] == xs;
  }

  lemma {:induction false} CombinationUpdate(vars: seq<VariableIndex>, xs: seq<int>, i: nat, v: VariableIndex)
    requires |xs| == |vars| && i < |vars|
    ensures Combination(vars[i := v], xs) == Combination(vars, xs) + (v.scale - vars[i].scale) * xs[i]
    decreases |vars|
  {
    var n := |vars| - 1;
    if i == n {
      assert vars[i := v][..n] == vars[..n];
      assert (v.scale - vars[i].scale) * xs[i] == v.scale * xs[i] - vars[i].scale * xs[i];
    } else {
      CombinationUpdate(vars[..n], xs[..n], i, v);
      assert vars[i := v][..n] == vars[..n][i := v];
    }
  }

  ghost function ValuesOf(vars: seq<VariableIndex>, env: Env): (xs: seq<int>)
    requires GoodIndices(vars)
    ensures |xs| == |vars|
  {
    seq(|vars|, i requires 0 <= i < |vars| => EntryValue(vars[i], env))
  }

  lemma {:induction false} SumIsCombination(vars: seq<VariableIndex>, env: Env)
    requires GoodIndices(vars)
    ensures Sum(vars, env) == Combination(vars, ValuesOf(vars, env))
    decreases |vars|
  {
    if vars != [] {
      var n := |vars| - 1;
      SumIsCombination(vars[..n], env);
      assert ValuesOf(vars, env)[..n] == ValuesOf(vars[..n], env);
    }
  }

  /**
   The equality oracle, isValueEqualInPotentialCycles, accepts only identical values. It refuses
   a value that may differ between the two pointers because a cycle leads back to it.
   */
  type EqualityOracle = (Expr, Expr) -> bool

  ghost predicate AcceptsOnlyIdentical(eqv: EqualityOracle) {
    forall a, b | eqv(a, b) :: a == b
  }

  /** No variable that the oracle accepts with itself has two entries. */
  ghost predicate NoneTwice(vars: seq<VariableIndex>, eqv: EqualityOracle) {
    forall i, j | 0 <= i < j < |vars| :: vars[i].v == vars[j].v && vars[i].extension == vars[j].extension ==> !eqv(vars[i].v, vars[i].v)
  }

  /** The two environments may differ only on values the oracle refuses. */
  ghost predicate Agree(eqv: EqualityOracle, env1: Env, env2: Env) {
    forall a | WellTyped(a) && eqv(a, a) :: Value(a, env1) == Value(a, env2)
  }

  /** Each entry read in the environment of the list it came from. */
  ghost function MixedValues(vars: seq<VariableIndex>, fromSrc: seq<bool>, env1: Env, env2: Env): (xs: seq<int>)
    requires GoodIndices(vars) && |fromSrc| == |vars|
    ensures |xs| == |vars|
  {
    seq(|vars|, i requires 0 <= i < |vars| => EntryValue(vars[i], if fromSrc[i] then env2 else env1))
  }

  ghost function MixedSum(vars: seq<VariableIndex>, fromSrc: seq<bool>, env1: Env, env2: Env): int
    requires GoodIndices(vars) && |fromSrc| == |vars|
  {
    Combination(vars, MixedValues(vars, fromSrc, env1, env2))
  }

  /** The list denotes what is left of total. */
  ghost predicate Leaves(vars: seq<VariableIndex>, fromSrc: seq<bool>, env1: Env, env2: Env, total: int)
    requires GoodIndices(vars) && |fromSrc| == |vars|
  {
    Cong(MixedSum(vars, fromSrc, env1, env2), total, TWO64)
  }

  lemma WrapScale(s: int, d: int, x: int)
    ensures Cong((Int64(s - d) - s) * x, -(d * x), TWO64)
  {
    Int64Cong(s - d);
    CongRefl(s, TWO64);
    CongSub(Int64(s - d), s - d, s, s, TWO64);
    CongRefl(x, TWO64);
    CongMul(Int64(s - d) - s, -d, x, x, TWO64);
    assert -d * x == -(d * x);
  }

  /** Subtracting the scale of a matched entry. */
  lemma MatchedStep(vars: seq<VariableIndex>, fromSrc: seq<bool>, j: nat, d: int, env1: Env, env2: Env, total: int)
    requires GoodIndices(vars) && |fromSrc| == |vars| && j < |vars| && vars[j].scale != d && -TWO63 <= d < TWO63
    requires EntryValue(vars[j], env1) == EntryValue(vars[j], env2)
    requires Leaves(vars, fromSrc, env1, env2, total)
    ensures var vars' := vars[j := vars[j].(scale := Int64(vars[j].scale - d))];
            GoodIndices(vars') && Leaves(vars', fromSrc, env1, env2, total - d * EntryValue(vars[j], env2))
  {
    var x, s, xs := EntryValue(vars[j], env2), vars[j].scale, MixedValues(vars, fromSrc, env1, env2);
    var v := vars[j].(scale := Int64(s - d));
    WrapNonZero(s, d);
    assert MixedValues(vars[j := v], fromSrc, env1, env2) == xs;
    CombinationUpdate(vars, xs, j, v);
    WrapScale(s, d, x);
    CongAdd(Combination(vars, xs), total, (Int64(s - d) - s) * x, -(d * x), TWO64);
  }

  lemma WrapNonZero(s: int, d: int)
    requires -TWO63 <= s < TWO63 && -TWO63 <= d < TWO63 && s != d
    ensures Int64(s - d) != 0
  {
    if Int64(s - d) == 0 {
      Int64Cong(s - d);
      var k := CongElim(0, s - d, TWO64);
      assert false;
    }
  }

  lemma MixedErase(vars: seq<VariableIndex>, fromSrc: seq<bool>, j: nat, env1: Env, env2: Env)
    requires GoodIndices(vars) && |fromSrc| == |vars| && j < |vars|
    ensures GoodIndices(Erase(vars, j))
    ensures MixedValues(Erase(vars, j), Erase(fromSrc, j), env1, env2) == Erase(MixedValues(vars, fromSrc, env1, env2), j)
  {
    var xs, ys := MixedValues(Erase(vars, j), Erase(fromSrc, j), env1, env2), Erase(MixedValues(vars, fromSrc, env1, env2), j);
    forall i | 0 <= i < |xs| ensures xs[i] == ys[i] {
      assert Erase(vars, j)[i] == vars[if i < j then i else i + 1];
    }
  }

  lemma ErasedStep(vars: seq<VariableIndex>, fromSrc: seq<bool>, j: nat, env1: Env, env2: Env, total: int)
    requires GoodIndices(vars) && |fromSrc| == |vars| && j < |vars|
    requires EntryValue(vars[j], env1) == EntryValue(vars[j], env2)
    requires Leaves(vars, fromSrc, env1, env2, total)
    ensures GoodIndices(Erase(vars, j))
    ensures Leaves(Erase(vars, j), Erase(fromSrc, j), env1, env2, total - vars[j].scale * EntryValue(vars[j], env2))
  {
    var xs := MixedValues(vars, fromSrc, env1, env2);
    MixedErase(vars, fromSrc, j, env1, env2);
    CombinationErase(vars, xs, j);
    assert xs[j] == EntryValue(vars[j], env2);
    var t := vars[j].scale * xs[j];
    CongRefl(t, TWO64);
    CongSub(Combination(vars, xs), total, t, t, TWO64);
  }

  lemma MixedAppend(vars: seq<VariableIndex>, fromSrc: seq<bool>, y: VariableIndex, env1: Env, env2: Env)
    requires GoodIndices(vars) && |fromSrc| == |vars| && GoodEntry(y) && WellTyped(y.v)
    ensures GoodIndices(vars + [y])
    ensures MixedValues(vars + [y], fromSrc + [true], env1, env2) == MixedValues(vars, fromSrc, env1, env2) + [EntryValue(y, env2)]
  {
  }

  lemma AppendedStep(vars: seq<VariableIndex>, fromSrc: seq<bool>, y: VariableIndex, env1: Env, env2: Env, total: int)
    requires GoodIndices(vars) && |fromSrc| == |vars| && GoodEntry(y) && WellTyped(y.v)
    requires Leaves(vars, fromSrc, env1, env2, total)
    ensures var y' := y.(scale := Int64(-y.scale));
            GoodIndices(vars + [y']) && Leaves(vars + [y'], fromSrc + [true], env1, env2, total - Term(y, env2))
  {
    var x, xs := EntryValue(y, env2), MixedValues(vars, fromSrc, env1, env2);
    var y' := y.(scale := Int64(-y.scale));
    WrapNonZero(0, y.scale);
    MixedAppend(vars, fromSrc, y', env1, env2);
    CombinationAppend(vars, xs, y', x);
    WrapScale(0, y.scale, x);
    CongAdd(Combination(vars, xs), total, Int64(-y.scale) * x, -(y.scale * x), TWO64);
  }

  /** The matching entry keeps a remainder, whatever the values. */
  lemma MatchedAlways(dest: seq<VariableIndex>, fromSrc: seq<bool>, j: nat, y: VariableIndex, eqv: EqualityOracle)
    requires GoodIndices(dest) && |fromSrc| == |dest| && GoodEntry(y) && WellTyped(y.v) && AcceptsOnlyIdentical(eqv)
    requires j < |dest| && eqv(dest[j].v, y.v) && dest[j].extension == y.extension && dest[j].scale != y.scale
    ensures var after := dest[j := dest[j].(scale := Int64(dest[j].scale - y.scale))];
            && GoodIndices(after)
            && forall env1: Env, env2: Env, total: int :: Agree(eqv, env1, env2) && Leaves(dest, fromSrc, env1, env2, total) ==>
                 Leaves(after, fromSrc, env1, env2, total - Term(y, env2))
  {
    WrapNonZero(dest[j].scale, y.scale);
    forall env1: Env, env2: Env, total: int | Agree(eqv, env1, env2) && Leaves(dest, fromSrc, env1, env2, total)
      ensures Leaves(dest[j := dest[j].(scale := Int64(dest[j].scale - y.scale))], fromSrc, env1, env2, total - Term(y, env2))
    {
      MatchedStep(dest, fromSrc, j, y.scale, env1, env2, total);
    }
  }

  /** The matching entry goes when the scales are equal. */
  lemma ErasedAlways(dest: seq<VariableIndex>, fromSrc: seq<bool>, j: nat, y: VariableIndex, eqv: EqualityOracle)
    requires GoodIndices(dest) && |fromSrc| == |dest| && GoodEntry(y) && WellTyped(y.v) && AcceptsOnlyIdentical(eqv)
    requires j < |dest| && eqv(dest[j].v, y.v) && dest[j].extension == y.extension && dest[j].scale == y.scale
    ensures forall env1: Env, env2: Env, total: int :: Agree(eqv, env1, env2) && Leaves(dest, fromSrc, env1, env2, total) ==>
              Leaves(Erase(dest, j), Erase(fromSrc, j), env1, env2, total - Term(y, env2))
  {
    forall env1: Env, env2: Env, total: int | Agree(eqv, env1, env2) && Leaves(dest, fromSrc, env1, env2, total)
      ensures Leaves(Erase(dest, j), Erase(fromSrc, j), env1, env2, total - Term(y, env2))
    {
      ErasedStep(dest, fromSrc, j, env1, env2, total);
    }
  }

  /** The first entry from the j-th on whose variable the oracle takes for y's. */
  function Matching(dest: seq<VariableIndex>, y: VariableIndex, eqv: EqualityOracle, j: nat): (k: nat)
    requires j <= |dest|
    ensures j <= k <= |dest|
    decreases |dest| - j
  {
    if j == |dest| || (eqv(dest[j].v, y.v) && dest[j].extension == y.extension) then j else Matching(dest, y, eqv, j + 1)
  }

  function LessEntry(dest: seq<VariableIndex>, y: VariableIndex, eqv: EqualityOracle): seq<VariableIndex> {
    var j := Matching(dest, y, eqv, 0);
    if j == |dest| then dest + [y.(scale := Int64(-y.scale))]
    else if dest[j].scale != y.scale then dest[j := dest[j].(scale := Int64(dest[j].scale - y.scale))]
    else Erase(dest, j)
  }

  /** The entries of src subtracted from those of dest, in order. */
  function Less(dest: seq<VariableIndex>, src: seq<VariableIndex>, eqv: EqualityOracle): seq<VariableIndex> {
    if src == [] then dest else LessEntry(Less(dest, src[..|src| - 1], eqv), src[|src| - 1], eqv)
  }

  lemma LessSnoc(dest: seq<VariableIndex>, src: seq<VariableIndex>, i: nat, eqv: EqualityOracle)
    requires i < |src|
    ensures src[..i + 1] == src[..i] + [src[i]]
    ensures Less(dest, src[..i + 1], eqv) == LessEntry(Less(dest, src[..i], eqv), src[i], eqv)
  {
    assert src[..i + 1][..i] == src[..i];
  }

  /** One entry of the subtrahend. */
  method SubtractEntry(dest0: seq<VariableIndex>, ghost from0: seq<bool>, y: VariableIndex, eqv: EqualityOracle)
    returns (dest: seq<VariableIndex>, ghost fromSrc: seq<bool>)
    requires GoodIndices(dest0) && |from0| == |dest0| && GoodEntry(y) && WellTyped(y.v) && AcceptsOnlyIdentical(eqv)
    ensures dest == LessEntry(dest0, y, eqv) && GoodIndices(dest) && |fromSrc| == |dest|
    ensures NoneTwice(dest0, eqv) ==> NoneTwice(dest, eqv)
    ensures forall env1: Env, env2: Env, total: int ::
              Agree(eqv, env1, env2) && Leaves(dest0, from0, env1, env2, total) ==>
                Leaves(dest, fromSrc, env1, env2, total - Term(y, env2))
  {
    for j := 0 to |dest0|
      invariant Matching(dest0, y, eqv, 0) == Matching(dest0, y, eqv, j)
      invariant forall i | 0 <= i < j :: !eqv(dest0[i].v, y.v) || dest0[i].extension != y.extension
    {
      if eqv(dest0[j].v, y.v) && dest0[j].extension == y.extension {
        if dest0[j].scale != y.scale {
          dest, fromSrc := dest0[j := dest0[j].(scale := Int64(dest0[j].scale - y.scale))], from0;
          MatchedAlways(dest0, from0, j, y, eqv);
        } else {
          dest, fromSrc := Erase(dest0, j), Erase(from0, j);
          ErasedAlways(dest0, from0, j, y, eqv);
        }
        return;
      }
    }
    WrapNonZero(0, y.scale);
    dest, fromSrc := dest0 + [y.(scale := Int64(-y.scale))], from0 + [true];
    forall env1: Env, env2: Env, total: int | Leaves(dest0, from0, env1, env2, total)
      ensures Leaves(dest, fromSrc, env1, env2, total - Term(y, env2)) {
      AppendedStep(dest0, from0, y, env1, env2, total);
    }
  }

  /** No entry is marked as coming from the subtrahend yet. */
  ghost function NoneFromSrc(n: nat): (f: seq<bool>)
    ensures |f| == n
  {
    seq(n, _ => false)
  }

  lemma StartLeaves(vars: seq<VariableIndex>, env1: Env, env2: Env)
    requires GoodIndices(vars)
    ensures Leaves(vars, NoneFromSrc(|vars|), env1, env2, Sum(vars, env1))
  {
    SumIsCombination(vars, env1);
    assert MixedValues(vars, NoneFromSrc(|vars|), env1, env2) == ValuesOf(vars, env1);
    CongRefl(Sum(vars, env1), TWO64);
  }

  /** The list denotes the difference of two lists wherever the two environments agree. */
  ghost predicate LeavesAfter(dest0: seq<VariableIndex>, src: seq<VariableIndex>, dest: seq<VariableIndex>, fromSrc: seq<bool>,
                              eqv: EqualityOracle)
    requires GoodIndices(dest0) && GoodIndices(src) && GoodIndices(dest) && |fromSrc| == |dest|
  {
    forall env1: Env, env2: Env {:trigger Agree(eqv, env1, env2)} | Agree(eqv, env1, env2) ::
      Leaves(dest, fromSrc, env1, env2, Sum(dest0, env1) - Sum(src, env2))
  }

  lemma OneMoreSubtracted(dest0: seq<VariableIndex>, src: seq<VariableIndex>, y: VariableIndex,
                          dest1: seq<VariableIndex>, from1: seq<bool>, dest: seq<VariableIndex>, fromSrc: seq<bool>, eqv: EqualityOracle)
    requires GoodIndices(dest0) && GoodIndices(src) && GoodEntry(y) && WellTyped(y.v) && GoodIndices(src + [y])
    requires GoodIndices(dest1) && |from1| == |dest1| && GoodIndices(dest) && |fromSrc| == |dest|
    requires LeavesAfter(dest0, src, dest1, from1, eqv)
    requires forall env1: Env, env2: Env, total: int ::
               Agree(eqv, env1, env2) && Leaves(dest1, from1, env1, env2, total) ==>
                 Leaves(dest, fromSrc, env1, env2, total - Term(y, env2))
    ensures LeavesAfter(dest0, src + [y], dest, fromSrc, eqv)
  {
    forall env1: Env, env2: Env | Agree(eqv, env1, env2)
      ensures Leaves(dest, fromSrc, env1, env2, Sum(dest0, env1) - Sum(src + [y], env2)) {
      SumAppend(src, y, env2);
      assert Leaves(dest1, from1, env1, env2, Sum(dest0, env1) - Sum(src, env2));
    }
  }

  /** The first n entries of src are subtracted. */
  ghost predicate Subtracted(dest0: seq<VariableIndex>, src: seq<VariableIndex>, n: nat, dest: seq<VariableIndex>, fromSrc: seq<bool>,
                             eqv: EqualityOracle)
    requires GoodIndices(dest0) && GoodIndices(src) && n <= |src|
  {
    && dest == Less(dest0, src[..n], eqv) && GoodIndices(dest) && |fromSrc| == |dest|
    && LeavesAfter(dest0, src[..n], dest, fromSrc, eqv) && (NoDuplicates(dest0) ==> NoneTwice(dest, eqv))
  }

  /** One turn of the loop over Src. */
  method SubtractNext(ghost dest0: seq<VariableIndex>, src: seq<VariableIndex>, i: nat, dest1: seq<VariableIndex>, ghost from1: seq<bool>,
                      eqv: EqualityOracle)
    returns (dest: seq<VariableIndex>, ghost fromSrc: seq<bool>)
    requires GoodIndices(dest0) && GoodIndices(src) && i < |src| && AcceptsOnlyIdentical(eqv) && Subtracted(dest0, src, i, dest1, from1, eqv)
    ensures Subtracted(dest0, src, i + 1, dest, fromSrc, eqv)
  {
    dest, fromSrc := SubtractEntry(dest1, from1, src[i], eqv);
    LessSnoc(dest0, src, i, eqv);
    OneMoreSubtracted(dest0, src[..i], src[i], dest1, from1, dest, fromSrc, eqv);
  }

  lemma SubtractingBegins(dest0: seq<VariableIndex>, src: seq<VariableIndex>, eqv: EqualityOracle)
    requires GoodIndices(dest0) && GoodIndices(src)
    ensures Subtracted(dest0, src, 0, dest0, NoneFromSrc(|dest0|), eqv)
  {
    assert src[..0] == [];
    forall env1: Env, env2: Env ensures Leaves(dest0, NoneFromSrc(|dest0|), env1, env2, Sum(dest0, env1)) {
      StartLeaves(dest0, env1, env2);
    }
  }

  /** The list denotes the difference of the two sums, the first in one environment and the second in the other, wherever they agree. */
  ghost predicate DenotesDifference(dest0: seq<VariableIndex>, src: seq<VariableIndex>, dest: seq<VariableIndex>, fromSrc: seq<bool>,
                                    eqv: EqualityOracle)
    requires GoodIndices(dest0) && GoodIndices(src) && GoodIndices(dest) && |fromSrc| == |dest|
  {
    forall env1: Env, env2: Env {:trigger MixedSum(dest, fromSrc, env1, env2)} | Agree(eqv, env1, env2) ::
      Cong(MixedSum(dest, fromSrc, env1, env2), Sum(dest0, env1) - Sum(src, env2), TWO64)
  }

  lemma LeavesDifference(dest0: seq<VariableIndex>, src: seq<VariableIndex>, dest: seq<VariableIndex>, fromSrc: seq<bool>, eqv: EqualityOracle)
    requires GoodIndices(dest0) && GoodIndices(src) && GoodIndices(dest) && |fromSrc| == |dest|
    requires LeavesAfter(dest0, src, dest, fromSrc, eqv)
    ensures DenotesDifference(dest0, src, dest, fromSrc, eqv)
  {
    forall env1: Env, env2: Env | Agree(eqv, env1, env2)
      ensures Cong(MixedSum(dest, fromSrc, env1, env2), Sum(dest0, env1) - Sum(src, env2), TWO64) {
      assert Leaves(dest, fromSrc, env1, env2, Sum(dest0, env1) - Sum(src, env2));
    }
  }

  lemma SubtractingEnds(dest0: seq<VariableIndex>, src: seq<VariableIndex>, dest: seq<VariableIndex>, fromSrc: seq<bool>, eqv: EqualityOracle)
    requires GoodIndices(dest0) && GoodIndices(src) && Subtracted(dest0, src, |src|, dest, fromSrc, eqv)
    ensures dest == Less(dest0, src, eqv) && GoodIndices(dest) && |fromSrc| == |dest| && (NoDuplicates(dest0) ==> NoneTwice(dest, eqv))
    ensures DenotesDifference(dest0, src, dest, fromSrc, eqv)
  {
    var whole := src[..|src|];
    assert whole == src;
    LeavesDifference(dest0, whole, dest, fromSrc, eqv);
  }

  /**
   Dest becomes old Dest minus Src modulo 2^64, with one entry for each variable that the oracle
   takes for one value. The first list is read in one environment and the second in another,
   which is what two turns of a cycle amount to.
   */
  method GetIndexDifference(dest0: seq<VariableIndex>, src: seq<VariableIndex>, eqv: EqualityOracle)
    returns (dest: seq<VariableIndex>, ghost fromSrc: seq<bool>)
    requires GoodIndices(dest0) && GoodIndices(src) && AcceptsOnlyIdentical(eqv)
    ensures dest == Less(dest0, src, eqv) && GoodIndices(dest) && |fromSrc| == |dest|
    ensures (NoDuplicates(dest0) ==> NoneTwice(dest, eqv)) && DenotesDifference(dest0, src, dest, fromSrc, eqv)
  {
    dest, fromSrc := dest0, NoneFromSrc(|dest0|);
    SubtractingBegins(dest0, src, eqv);
    for i := 0 to |src|
      invariant Subtracted(dest0, src, i, dest, fromSrc, eqv)
    {
      dest, fromSrc := SubtractNext(dest0, src, i, dest, fromSrc, eqv);
    }
    SubtractingEnds(dest0, src, dest, fromSrc, eqv);
  }
}
