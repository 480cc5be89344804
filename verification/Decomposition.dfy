/** DecomposeGEPExpression: a pointer as base + constant + sum of scaled variables. */
module Decomposition {
  import opened Arith
  import opened GepModel
  import opened LinearExpression
  import opened IndexValues

  const MAX_LOOKUP_SEARCH_DEPTH: nat := 6

  datatype VariableIndex = VariableIndex(v: Expr, extension: ExtensionKind, scale: int)

  predicate GoodEntry(x: VariableIndex) {
    -TWO63 <= x.scale < TWO63 && x.scale != 0
  }

  /** Entries are well typed and carry a non-zero int64_t scale. */
  ghost predicate GoodIndices(vars: seq<VariableIndex>) {
    forall i | 0 <= i < |vars| :: GoodEntry(vars[i]) && WellTyped(vars[i].v)
  }

  ghost predicate NoDuplicates(vars: seq<VariableIndex>) {
    forall i, j | 0 <= i < j < |vars| :: vars[i].v != vars[j].v || vars[i].extension != vars[j].extension
  }

  /** An entry stands for its value as its extension reads it. */
  ghost function EntryValue(x: VariableIndex, env: Env): int
    requires WellTyped(x.v)
  {
    Reading(x.v, x.extension, env)
  }

  ghost function Term(x: VariableIndex, env: Env): int
    requires WellTyped(x.v)
  {
    x.scale * EntryValue(x, env)
  }

  ghost function Sum(vars: seq<VariableIndex>, env: Env): int
    requires GoodIndices(vars)
  {
    if vars == [] then 0 else Sum(vars[..|vars| - 1], env) + Term(vars[|vars| - 1], env)
  }

  function Erase<T>(s: seq<T>, i: nat): seq<T>
    requires i < |s|
  {
    s[..i] + s[i + 1..]
  }

  lemma {:induction false} SumErase(vars: seq<VariableIndex>, i: nat, env: Env)
    requires GoodIndices(vars) && i < |vars|
    ensures GoodIndices(Erase(vars, i))
    ensures Sum(Erase(vars, i), env) == Sum(vars, env) - Term(vars[i], env)
    decreases |vars|
  {
    var n := |vars| - 1;
    if i == n {
      assert Erase(vars, i) == vars[..n];
    } else {
      SumErase(vars[..n], i, env);
      ErasePrefix(vars, i);
      assert GoodIndices(Erase(vars, i));
    }
  }

  /** Erasing before the last entry keeps it last. */
  lemma ErasePrefix<T>(s: seq<T>, i: nat)
    requires i < |s| - 1
    ensures var n := |s| - 1; Erase(s, i)[..n - 1] == Erase(s[..n], i) && Erase(s, i)[n - 1] == s[n]
  {
  }

  lemma SumAppend(vars: seq<VariableIndex>, x: VariableIndex, env: Env)
    requires GoodIndices(vars) && GoodEntry(x) && WellTyped(x.v)
    ensures GoodIndices(vars + [x]) && Sum(vars + [x], env) == Sum(vars, env) + Term(x, env)
  {
    assert (vars + [x])[..|vars|] == vars;
  }

  // ----- What the walk has collected -----

  /** The constant part and the entries so far. */
  datatype Collected = Collected(offs: int, vars: seq<VariableIndex>)

  const NOTHING: Collected := Collected(0, [])

  ghost predicate GoodCollected(c: Collected) {
    -TWO63 <= c.offs < TWO63 && GoodIndices(c.vars) && NoDuplicates(c.vars)
  }

  /** Constant part and entries as one number. */
  ghost function Total(c: Collected, env: Env): int
    requires GoodIndices(c.vars)
  {
    c.offs + Sum(c.vars, env)
  }

  /** What one step adds, modulo the pointer width. */
  ghost predicate Moves(c: Collected, c': Collected, delta: int, p: nat, env: Env)
    requires GoodIndices(c.vars) && GoodIndices(c'.vars)
  {
    Cong(Total(c', env), Total(c, env) + delta, Pow2(p))
  }

  lemma MovesNothing(c: Collected, p: nat, env: Env)
    requires GoodIndices(c.vars)
    ensures Moves(c, c, 0, p, env)
  {
    CongRefl(Total(c, env), Pow2(p));
  }

  lemma MovesTrans(c0: Collected, c1: Collected, c2: Collected, d: int, e: int, p: nat, env: Env)
    requires GoodIndices(c0.vars) && GoodIndices(c1.vars) && GoodIndices(c2.vars)
    requires Moves(c0, c1, d, p, env) && Moves(c1, c2, e, p, env)
    ensures Moves(c0, c2, d + e, p, env)
  {
    CongRefl(e, Pow2(p));
    CongAdd(Total(c1, env), Total(c0, env) + d, e, e, Pow2(p));
    CongTrans(Total(c2, env), Total(c1, env) + e, Total(c0, env) + d + e, Pow2(p));
  }

  /** A step that moves as it is taken moves by the value exactly when it is taken for the value. */
  lemma MovesByValue(c: Collected, c': Collected, taken: int, v: int, p: nat, env: Env)
    requires GoodIndices(c.vars) && GoodIndices(c'.vars) && Moves(c, c', taken, p, env)
    ensures Moves(c, c', v, p, env) <==> Cong(taken, v, Pow2(p))
  {
    var a, b, m := Total(c, env), Total(c', env), Pow2(p);
    CongRefl(a, m);
    CongSym(b, a + taken, m);
    if Cong(taken, v, m) {
      CongAdd(a, a, taken, v, m);
      CongTrans(b, a + taken, a + v, m);
    }
    if Moves(c, c', v, p, env) {
      CongTrans(a + taken, b, a + v, m);
      CongSub(a + taken, a + v, a, a, m);
    }
  }

  /** Wrapping the constant part to int64_t keeps the whole modulo the pointer width. */
  lemma WrapMoves(a: int, s: int, total: int, p: nat)
    requires 1 <= p <= 64 && Cong(a + s, total, Pow2(p))
    ensures Cong(Int64(a) + s, total, Pow2(p))
  {
    Pow2Of64();
    Int64Cong(a);
    CongNarrow(Int64(a), a, 64, p);
    CongRefl(s, Pow2(p));
    CongAdd(Int64(a), a, s, s, Pow2(p));
    CongTrans(Int64(a) + s, a + s, total, Pow2(p));
  }

  // ----- One array index -----

  /** The scale sign extended from the pointer width, as two shifts by 64 - p do it. */
  function FitScale(scale: int, p: nat): (r: int)
    requires 1 <= p <= 64
    ensures -TWO63 <= r < TWO63
  {
    var k := Pow2(64 - p);
    var q := Int64(scale * k);
    ShiftBackBound(q, k);
    q / k
  }

  lemma ShiftBackBound(q: int, k: int)
    requires k >= 1 && -TWO63 <= q < TWO63
    ensures -TWO63 <= q / k < TWO63
  {
    QuotientBound(q / k, k, q % k);
  }

  /** A quotient lies between zero and its dividend. */
  lemma QuotientBound(d: int, k: int, r: int)
    requires k >= 1 && 0 <= r < k
    ensures if d >= 0 then d <= k * d + r else k * d + r <= d
  {
    if d >= 0 {
      Product(k - 1, d);
      assert (k - 1) * d == k * d - d;
    } else {
      Product(k - 1, -d - 1);
      assert (k - 1) * (-d - 1) == -(k * d) - k + d + 1;
    }
  }

  lemma Product(a: int, b: int)
    requires a >= 0 && b >= 0
    ensures a * b >= 0
  {
  }

  lemma FitScaleCong(scale: int, p: nat)
    requires 1 <= p <= 64
    ensures Cong(FitScale(scale, p), scale, Pow2(p))
  {
    var k, m := Pow2(64 - p), Pow2(p);
    Pow2Of64();
    Pow2Add(64 - p, p);
    Int64Cong(scale * k);
    var n := CongElim(Int64(scale * k), scale * k, TWO64);
    Regroup(scale, n, k, m);
    ExactQuotient(Int64(scale * k), scale + n * m, k);
    CongIntro(FitScale(scale, p), scale, n, m);
  }

  /** The two shifts are the sign extension. */
  lemma FitScaleIsSigned(scale: int, p: nat)
    requires 1 <= p <= 64
    ensures FitScale(scale, p) == Signed(scale, p)
  {
    var f := FitScale(scale, p);
    FitScaleCong(scale, p);
    FitScaleRange(scale, p);
    CongSym(f, scale, Pow2(p));
    SignedInRange(f, p);
    CongModEq(scale, f, Pow2(p));
    ModSmall(f % Pow2(p), Pow2(p));
  }

  lemma FitScaleRange(scale: int, p: nat)
    requires 1 <= p <= 64
    ensures -Pow2(p - 1) <= FitScale(scale, p) < Pow2(p - 1)
  {
    Pow2Of64();
    Pow2Add(64 - p, p - 1);
    QuotientRange(Int64(scale * Pow2(64 - p)), Pow2(64 - p), Pow2(p - 1));
  }

  lemma QuotientRange(q: int, k: int, h: int)
    requires k >= 1 && -(k * h) <= q < k * h
    ensures -h <= q / k < h
  {
    var d := q / k;
    assert q == k * d + q % k;
    assert k * (-h - 1) == -(k * h) - k;
    if d >= h {
      ProductMonotone(k, h, d);
    } else if d < -h {
      ProductMonotone(k, d, -h - 1);
    }
  }

  lemma ProductMonotone(k: int, a: int, b: int)
    requires k >= 0 && a <= b
    ensures k * a <= k * b
  {
    Product(k, b - a);
    assert k * (b - a) == k * b - k * a;
  }

  /** A value of the pointer's width is an int64_t. */
  lemma SignedFits(p: nat)
    requires 1 <= p <= 64
    ensures Pow2(p - 1) <= TWO63
  {
    Pow2Of64();
    Pow2Monotone(p - 1, 63);
  }

  lemma Regroup(s: int, n: int, k: int, m: int)
    ensures s * k + n * (k * m) == (s + n * m) * k
  {
    assert n * (k * m) == (n * m) * k;
    assert (s + n * m) * k == s * k + (n * m) * k;
  }

  lemma ExactQuotient(q: int, d: int, k: int)
    requires k >= 1 && q == d * k
    ensures q / k == d
  {
    var r := q % k;
    assert q == k * (q / k) + r;
    assert (d - q / k) * k == d * k - (q / k) * k;
    SmallMultiple(d - q / k, k);
  }

  /** The first entry for the variable, from the i-th on. */
  function FirstFor(vars: seq<VariableIndex>, v: Expr, ext: ExtensionKind, i: nat): (k: nat)
    requires i <= |vars|
    ensures i <= k <= |vars|
    decreases |vars| - i
  {
    if i == |vars| || (vars[i].v == v && vars[i].extension == ext) then i else FirstFor(vars, v, ext, i + 1)
  }

  /** The entries without the one for the variable, and its scale. */
  function Taken(vars: seq<VariableIndex>, v: Expr, ext: ExtensionKind): (seq<VariableIndex>, int) {
    var k := FirstFor(vars, v, ext, 0);
    if k < |vars| then (Erase(vars, k), vars[k].scale) else (vars, 0)
  }

  lemma {:induction false} NoneBefore(vars: seq<VariableIndex>, v: Expr, ext: ExtensionKind, i: nat)
    requires i <= |vars|
    ensures var k := FirstFor(vars, v, ext, i);
            && (k < |vars| ==> vars[k].v == v && vars[k].extension == ext)
            && forall j | i <= j < k :: vars[j].v != v || vars[j].extension != ext
    decreases |vars| - i
  {
    if i < |vars| && !(vars[i].v == v && vars[i].extension == ext) {
      NoneBefore(vars, v, ext, i + 1);
    }
  }

  lemma TakenGood(vars: seq<VariableIndex>, v: Expr, ext: ExtensionKind)
    requires GoodIndices(vars) && NoDuplicates(vars) && WellTyped(v)
    ensures var (rest, scale) := Taken(vars, v, ext);
            && GoodIndices(rest) && NoDuplicates(rest)
            && forall i | 0 <= i < |rest| :: rest[i].v != v || rest[i].extension != ext
  {
    NoneBefore(vars, v, ext, 0);
  }

  lemma TakenSum(vars: seq<VariableIndex>, v: Expr, ext: ExtensionKind, env: Env)
    requires GoodIndices(vars) && WellTyped(v)
    ensures var (rest, scale) := Taken(vars, v, ext);
            GoodIndices(rest) && Sum(vars, env) == Sum(rest, env) + scale * Reading(v, ext, env)
  {
    NoneBefore(vars, v, ext, 0);
    var k, y := FirstFor(vars, v, ext, 0), Reading(v, ext, env);
    if k < |vars| {
      SumErase(vars, k, env);
      assert Taken(vars, v, ext) == (Erase(vars, k), vars[k].scale);
      assert Term(vars[k], env) == vars[k].scale * y;
    } else {
      assert Taken(vars, v, ext) == (vars, 0) && 0 * y == 0;
    }
  }

  /** Removes the entry for the variable, if there is one, and returns its scale. */
  method TakeEntry(vars: seq<VariableIndex>, v: Expr, ext: ExtensionKind)
    returns (rest: seq<VariableIndex>, scale: int)
    ensures (rest, scale) == Taken(vars, v, ext)
  {
    for i := 0 to |vars|
      invariant FirstFor(vars, v, ext, 0) == FirstFor(vars, v, ext, i)
    {
      if vars[i].v == v && vars[i].extension == ext {
        return Erase(vars, i), vars[i].scale;
      }
    }
    rest, scale := vars, 0;
  }

  function PushScale(rest: seq<VariableIndex>, r: Expr, x: ExtensionKind, scale: int): seq<VariableIndex> {
    if scale != 0 then rest + [VariableIndex(r, x, scale)] else rest
  }

  lemma PushScaleSum(rest: seq<VariableIndex>, r: Expr, x: ExtensionKind, scale: int, env: Env)
    requires GoodIndices(rest) && WellTyped(r) && -TWO63 <= scale < TWO63
    ensures GoodIndices(PushScale(rest, r, x, scale))
    ensures Sum(PushScale(rest, r, x, scale), env) == Sum(rest, env) + scale * Reading(r, x, env)
  {
    if scale != 0 {
      SumAppend(rest, VariableIndex(r, x, scale), env);
    }
  }

  /** The entry for the residue replaced by one of this scale, and the constant part moved by d. */
  ghost function Replaced(c: Collected, r: Expr, x: ExtensionKind, scale: int, d: int): (c': Collected)
    requires WellTyped(r) && GoodCollected(c) && -TWO63 <= scale < TWO63
    ensures GoodCollected(c')
  {
    TakenGood(c.vars, r, x);
    Collected(Int64(c.offs + d), PushScale(Taken(c.vars, r, x).0, r, x, scale))
  }

  /** The scale of the residue grows by step, fitted to the pointer width, and the constant part by d. */
  ghost function WithResidue(c: Collected, r: Expr, x: ExtensionKind, step: int, d: int, p: nat): (c': Collected)
    requires WellTyped(r) && 1 <= p <= 64 && GoodCollected(c)
    ensures GoodCollected(c')
  {
    SignedFits(p);
    Replaced(c, r, x, Signed(step + Taken(c.vars, r, x).1, p), d)
  }

  /** After a variable index, read as a scale of a residue and an offset. */
  ghost function AfterVariable(size: nat, index: Expr, p: nat, mz: MaskOracle, c: Collected): (c': Collected)
    requires WellTyped(index) && 1 <= p <= 64 && GoodCollected(c)
    ensures GoodCollected(c')
  {
    var w, ext := Width(index), IndexExtension(index, p);
    NoCastKeepsWidth(index, ext, MAX_DEPTH, mz);
    var (r, x) := Residue(index, ext, MAX_DEPTH, mz);
    var (s, o) := WrappedForm(index, ext, MAX_DEPTH, mz);
    WithResidue(c, r, x, size * Signed(s, w), Signed(o, w) * size, p)
  }

  /** The sums before and after, around what stays. */
  lemma ReplacedSums(c: Collected, r: Expr, x: ExtensionKind, scale: int, d: int, env: Env) returns (rest: int, hadTerm: int, term: int)
    requires WellTyped(r) && GoodCollected(c) && -TWO63 <= scale < TWO63
    ensures hadTerm == Taken(c.vars, r, x).1 * Reading(r, x, env) && Sum(c.vars, env) == rest + hadTerm
    ensures term == scale * Reading(r, x, env) && Sum(Replaced(c, r, x, scale, d).vars, env) == rest + term
  {
    TakenGood(c.vars, r, x);
    TakenSum(c.vars, r, x, env);
    PushScaleSum(Taken(c.vars, r, x).0, r, x, scale, env);
    rest, hadTerm, term := Sum(Taken(c.vars, r, x).0, env), Taken(c.vars, r, x).1 * Reading(r, x, env), scale * Reading(r, x, env);
  }

  /** The sum after the entry takes the scale fit, and the one for the constant part. */
  lemma EntryMoves(offs: int, d: int, rest: int, had: int, fit: int, step: int, y: int, hadTerm: int, term: int, stepTerm: int, p: nat)
    requires 1 <= p <= 64 && Cong(fit, step + had, Pow2(p))
    requires hadTerm == had * y && term == fit * y && stepTerm == step * y
    ensures Cong(Int64(offs + d) + (rest + term), offs + (rest + hadTerm) + (stepTerm + d), Pow2(p))
  {
    var m := Pow2(p);
    CongRefl(y, m);
    CongMul(fit, step + had, y, y, m);
    assert (step + had) * y == stepTerm + hadTerm;
    CongRefl(offs + d + rest, m);
    CongAdd(offs + d + rest, offs + d + rest, term, stepTerm + hadTerm, m);
    WrapMoves(offs + d, rest + term, offs + (rest + hadTerm) + (stepTerm + d), p);
  }

  lemma ReplacedMoves(c: Collected, r: Expr, x: ExtensionKind, fit: int, step: int, d: int, p: nat, env: Env, stepTerm: int)
    requires WellTyped(r) && 1 <= p <= 64 && GoodCollected(c) && stepTerm == step * Reading(r, x, env)
    requires -TWO63 <= fit < TWO63 && Cong(fit, step + Taken(c.vars, r, x).1, Pow2(p))
    ensures Moves(c, Replaced(c, r, x, fit, d), stepTerm + d, p, env)
  {
    var rest, hadTerm, term := ReplacedSums(c, r, x, fit, d, env);
    EntryMoves(c.offs, d, rest, Taken(c.vars, r, x).1, fit, step, Reading(r, x, env), hadTerm, term, stepTerm, p);
  }

  /** Any scale that fits moves the sum by the same. */
  ghost predicate AnyFitMoves(c: Collected, r: Expr, x: ExtensionKind, step: int, d: int, p: nat, env: Env, delta: int)
    requires WellTyped(r) && GoodCollected(c)
  {
    forall fit: int | -TWO63 <= fit < TWO63 && Cong(fit, step + Taken(c.vars, r, x).1, Pow2(p)) :: Moves(c, Replaced(c, r, x, fit, d), delta, p, env)
  }

  lemma AnyFit(c: Collected, r: Expr, x: ExtensionKind, step: int, d: int, p: nat, env: Env, stepTerm: int)
    requires WellTyped(r) && 1 <= p <= 64 && GoodCollected(c) && stepTerm == step * Reading(r, x, env)
    ensures AnyFitMoves(c, r, x, step, d, p, env, stepTerm + d)
  {
    forall fit: int | -TWO63 <= fit < TWO63 && Cong(fit, step + Taken(c.vars, r, x).1, Pow2(p))
      ensures Moves(c, Replaced(c, r, x, fit, d), stepTerm + d, p, env) {
      ReplacedMoves(c, r, x, fit, step, d, p, env, stepTerm);
    }
  }

  lemma FittedScale(full: int, p: nat) returns (fit: int)
    requires 1 <= p <= 64
    ensures fit == Signed(full, p) && -TWO63 <= fit < TWO63 && Cong(fit, full, Pow2(p))
  {
    SignedFits(p);
    SignedCong(full, p);
    fit := Signed(full, p);
  }

  lemma ResidueMoves(c: Collected, r: Expr, x: ExtensionKind, step: int, d: int, p: nat, env: Env, delta: int)
    requires WellTyped(r) && 1 <= p <= 64 && GoodCollected(c) && AnyFitMoves(c, r, x, step, d, p, env, delta)
    ensures Moves(c, WithResidue(c, r, x, step, d, p), delta, p, env)
  {
    var fit := FittedScale(step + Taken(c.vars, r, x).1, p);
    assert WithResidue(c, r, x, step, d, p) == Replaced(c, r, x, fit, d);
  }

  /** A variable index moves constant part and entries by what it is taken for, times the element size. */
  lemma VariableMoves(size: nat, index: Expr, p: nat, mz: MaskOracle, c: Collected, env: Env)
    requires WellTyped(index) && !index.ConstInt? && 1 <= p <= 64 && GoodCollected(c)
    ensures Moves(c, AfterVariable(size, index, p, mz, c), size * TakenIndex(index, p, mz, env), p, env)
  {
    var w, ext := Width(index), IndexExtension(index, p);
    NoCastKeepsWidth(index, ext, MAX_DEPTH, mz);
    var (r, x) := Residue(index, ext, MAX_DEPTH, mz);
    var (s, o) := WrappedForm(index, ext, MAX_DEPTH, mz);
    var step, d, delta := size * Signed(s, w), Signed(o, w) * size, size * TakenIndex(index, p, mz, env);
    FormAnyFit(size, r, x, Signed(s, w), Signed(o, w), p, c, env, TakenIndex(index, p, mz, env));
    ResidueMoves(c, r, x, step, d, p, env, delta);
  }

  lemma FormAnyFit(size: nat, r: Expr, x: ExtensionKind, ss: int, so: int, p: nat, c: Collected, env: Env, taken: int)
    requires WellTyped(r) && 1 <= p <= 64 && GoodCollected(c) && taken == ss * Reading(r, x, env) + so
    ensures AnyFitMoves(c, r, x, size * ss, so * size, p, env, size * taken)
  {
    TakenParts(size, ss, Reading(r, x, env), so);
    AnyFit(c, r, x, size * ss, so * size, p, env, (size * ss) * Reading(r, x, env));
  }

  lemma TakenParts(size: int, s: int, y: int, o: int)
    ensures size * (s * y + o) == (size * s) * y + o * size
  {
    Distribute(size, s, y, o);
    assert (s * size) * y == (size * s) * y;
  }

  /** That is by its value exactly when it is taken for it. */
  lemma VariableMovesByValue(size: nat, index: Expr, p: nat, mz: MaskOracle, c: Collected, env: Env)
    requires WellTyped(index) && !index.ConstInt? && 1 <= p <= 64 && GoodCollected(c)
    ensures var c' := AfterVariable(size, index, p, mz, c);
            Moves(c, c', size * SignedValue(index, env), p, env) <==> ExactIndex(size, index, p, mz, env)
  {
    VariableMoves(size, index, p, mz, c, env);
    MovesByValue(c, AfterVariable(size, index, p, mz, c), size * TakenIndex(index, p, mz, env), size * SignedValue(index, env), p, env);
  }

  /** The variable of the entry is where the walk into the index must stop. */
  ghost predicate ReadFrom(index: Expr, x: VariableIndex, mz: MaskOracle) {
    EndsAt(index, MAX_DEPTH, x.v, x.extension, mz)
  }

  lemma TakenSubset(vars: seq<VariableIndex>, v: Expr, ext: ExtensionKind)
    ensures forall x | x in Taken(vars, v, ext).0 :: x in vars
  {
  }

  /** An entry is an old one or that of the index. */
  lemma EntryFrom(size: nat, index: Expr, p: nat, mz: MaskOracle, c: Collected)
    requires WellTyped(index) && 1 <= p <= 64 && GoodCollected(c)
    ensures forall x | x in AfterVariable(size, index, p, mz, c).vars :: x in c.vars || ReadFrom(index, x, mz)
  {
    var ext := IndexExtension(index, p);
    NoCastKeepsWidth(index, ext, MAX_DEPTH, mz);
    var (r, x) := Residue(index, ext, MAX_DEPTH, mz);
    ResidueEnds(index, ext, MAX_DEPTH, mz);
    TakenSubset(c.vars, r, x);
  }

  lemma AlwaysMoves(size: nat, index: Expr, p: nat, mz: MaskOracle, c: Collected)
    requires WellTyped(index) && !index.ConstInt? && 1 <= p <= 64 && GoodCollected(c)
    ensures var c' := AfterVariable(size, index, p, mz, c);
            && (forall env: Env :: Moves(c, c', size * TakenIndex(index, p, mz, env), p, env))
            && (forall env: Env :: Moves(c, c', size * SignedValue(index, env), p, env) <==> ExactIndex(size, index, p, mz, env))
            && (forall x | x in c'.vars :: x in c.vars || ReadFrom(index, x, mz))
  {
    var c' := AfterVariable(size, index, p, mz, c);
    EntryFrom(size, index, p, mz, c);
    forall env: Env ensures Moves(c, c', size * TakenIndex(index, p, mz, env), p, env) {
      VariableMoves(size, index, p, mz, c, env);
    }
    forall env: Env ensures Moves(c, c', size * SignedValue(index, env), p, env) <==> ExactIndex(size, index, p, mz, env) {
      VariableMovesByValue(size, index, p, mz, c, env);
    }
  }

  /** A non-constant array index joins the constant part and the entry of its residue. */
  method AddVariableIndex(size: nat, index: Expr, p: nat, mz: MaskOracle, c: Collected) returns (c': Collected)
    requires WellTyped(index) && !index.ConstInt? && Width(index) <= 64 && 1 <= p <= 64 && GoodCollected(c)
    ensures c' == AfterVariable(size, index, p, mz, c)
    ensures forall env: Env :: Moves(c, c', size * TakenIndex(index, p, mz, env), p, env)
    ensures forall env: Env :: Moves(c, c', size * SignedValue(index, env), p, env) <==> ExactIndex(size, index, p, mz, env)
    ensures forall x | x in c'.vars :: x in c.vars || ReadFrom(index, x, mz)
  {
    var w, ext := Width(index), IndexExtension(index, p);
    var r, s, o, x := GetLinearExpression(index, ext, 0, mz);
    // The uint64_t products and sums wrap; FitScale reads their low bits once at the end.
    var rest, had := TakeEntry(c.vars, r, x);
    var scale := FitScale(size * Signed(s, w) + had, p);
    FitScaleIsSigned(size * Signed(s, w) + had, p);
    c' := Collected(Int64(c.offs + Signed(o, w) * size), PushScale(rest, r, x, scale));
    AlwaysMoves(size, index, p, mz, c);
  }

  // ----- All indices of one GEP -----

  predicate AllConstant(indices: seq<Expr>) {
    forall i | 0 <= i < |indices| :: indices[i].ConstInt?
  }

  /** Bytes that the walk takes one index for. */
  ghost function TakenOffset(container: Ty, index: Expr, p: nat, mz: MaskOracle, env: Env): int
    requires ValidIndex(container, index) && GoodLayout(container)
  {
    if container.ArrayTy? then AllocSize(container.elem) * TakenIndex(index, p, mz, env) else container.offsets[index.value]
  }

  ghost function TakenOffsets(container: Ty, indices: seq<Expr>, p: nat, mz: MaskOracle, env: Env): int
    requires ValidIndices(container, indices) && GoodLayout(container)
  {
    if indices == [] then 0
    else TakenOffset(container, indices[0], p, mz, env) + TakenOffsets(Indexed(container, indices[0]), indices[1..], p, mz, env)
  }

  /** After one index of a GEP, whatever its kind; a constant 0 is skipped. */
  ghost function AfterIndex(container: Ty, index: Expr, p: nat, mz: MaskOracle, c: Collected): (c': Collected)
    requires ValidIndex(container, index) && GoodLayout(container) && 1 <= p <= 64 && GoodCollected(c)
    ensures GoodCollected(c') && (index.ConstInt? ==> c'.vars == c.vars)
  {
    if index.ConstInt? && index.value == 0 then c
    else if container.StructTy? then Collected(Int64(c.offs + container.offsets[index.value]), c.vars)
    else if index.ConstInt? then Collected(Int64(c.offs + AllocSize(container.elem) * Signed(index.value, index.width)), c.vars)
    else AfterVariable(AllocSize(container.elem), index, p, mz, c)
  }

  ghost function AfterIndices(container: Ty, indices: seq<Expr>, p: nat, mz: MaskOracle, c: Collected): (c': Collected)
    requires ValidIndices(container, indices) && GoodLayout(container) && 1 <= p <= 64 && GoodCollected(c)
    ensures GoodCollected(c')
    decreases indices
  {
    if indices == [] then c
    else AfterIndices(Indexed(container, indices[0]), indices[1..], p, mz, AfterIndex(container, indices[0], p, mz, c))
  }

  lemma IndexMoves(container: Ty, index: Expr, p: nat, mz: MaskOracle, c: Collected, env: Env)
    requires ValidIndex(container, index) && GoodLayout(container) && 1 <= p <= 64 && GoodCollected(c)
    ensures Moves(c, AfterIndex(container, index, p, mz, c), TakenOffset(container, index, p, mz, env), p, env)
  {
    if index.ConstInt? && index.value == 0 {
      SignedSmall(0, Width(index));
      MovesNothing(c, p, env);
    } else if index.ConstInt? {
      var d := TakenOffset(container, index, p, mz, env);
      CongRefl(c.offs + d + Sum(c.vars, env), Pow2(p));
      WrapMoves(c.offs + d, Sum(c.vars, env), Total(c, env) + d, p);
    } else {
      VariableMoves(AllocSize(container.elem), index, p, mz, c, env);
    }
  }

  lemma {:induction false} IndicesMove(container: Ty, indices: seq<Expr>, p: nat, mz: MaskOracle, c: Collected, env: Env)
    requires ValidIndices(container, indices) && GoodLayout(container) && 1 <= p <= 64 && GoodCollected(c)
    ensures Moves(c, AfterIndices(container, indices, p, mz, c), TakenOffsets(container, indices, p, mz, env), p, env)
    decreases indices
  {
    if indices == [] {
      MovesNothing(c, p, env);
    } else {
      var container', c' := Indexed(container, indices[0]), AfterIndex(container, indices[0], p, mz, c);
      IndexMoves(container, indices[0], p, mz, c, env);
      IndicesMove(container', indices[1..], p, mz, c', env);
      MovesTrans(c, c', AfterIndices(container', indices[1..], p, mz, c'),
                 TakenOffset(container, indices[0], p, mz, env), TakenOffsets(container', indices[1..], p, mz, env), p, env);
    }
  }

  lemma {:induction false} EntriesFrom(container: Ty, indices: seq<Expr>, p: nat, mz: MaskOracle, c: Collected)
    requires ValidIndices(container, indices) && GoodLayout(container) && 1 <= p <= 64 && GoodCollected(c)
    ensures forall x | x in AfterIndices(container, indices, p, mz, c).vars ::
              x in c.vars || exists index :: index in indices && ReadFrom(index, x, mz)
    decreases indices
  {
    if indices != [] {
      var c' := AfterIndex(container, indices[0], p, mz, c);
      forall x | x in c'.vars ensures x in c.vars || ReadFrom(indices[0], x, mz) {
        if container.ArrayTy? && !indices[0].ConstInt? {
          EntryFrom(AllocSize(container.elem), indices[0], p, mz, c);
        }
      }
      EntriesFrom(Indexed(container, indices[0]), indices[1..], p, mz, c');
    }
  }

  lemma {:induction false} ConstantIndices(container: Ty, indices: seq<Expr>, p: nat, mz: MaskOracle, c: Collected)
    requires ValidIndices(container, indices) && GoodLayout(container) && 1 <= p <= 64 && GoodCollected(c) && AllConstant(indices)
    ensures AfterIndices(container, indices, p, mz, c).vars == c.vars
    decreases indices
  {
    if indices != [] {
      ConstantIndices(Indexed(container, indices[0]), indices[1..], p, mz, AfterIndex(container, indices[0], p, mz, c));
    }
  }

  /** One index of a GEP, whatever its kind. */
  method AddIndex(container: Ty, index: Expr, p: nat, mz: MaskOracle, c: Collected) returns (c': Collected)
    requires ValidIndex(container, index) && GoodLayout(container) && 1 <= p <= 64 && GoodCollected(c)
    ensures c' == AfterIndex(container, index, p, mz, c)
    ensures forall env: Env :: Moves(c, c', TakenOffset(container, index, p, mz, env), p, env)
  {
    c' := c;
    if container.StructTy? {
      if index.value != 0 {
        c' := Collected(Int64(c.offs + container.offsets[index.value]), c.vars);
      }
    } else if index.ConstInt? {
      if index.value != 0 {
        c' := Collected(Int64(c.offs + AllocSize(container.elem) * Signed(index.value, index.width)), c.vars);
      }
    } else {
      c' := AddVariableIndex(AllocSize(container.elem), index, p, mz, c);
    }
    forall env: Env ensures Moves(c, c', TakenOffset(container, index, p, mz, env), p, env) {
      IndexMoves(container, index, p, mz, c, env);
    }
  }

  /** All the indices of one GEP, left to right. */
  method AddIndices(container0: Ty, indices: seq<Expr>, p: nat, mz: MaskOracle, c0: Collected) returns (c: Collected)
    requires ValidIndices(container0, indices) && GoodLayout(container0) && 1 <= p <= 64 && GoodCollected(c0)
    ensures c == AfterIndices(container0, indices, p, mz, c0)
    ensures forall env: Env :: Moves(c0, c, TakenOffsets(container0, indices, p, mz, env), p, env)
  {
    c := c0;
    var container := container0;
    for i := 0 to |indices|
      invariant ValidIndices(container, indices[i..]) && GoodLayout(container) && GoodCollected(c)
      invariant AfterIndices(container0, indices, p, mz, c0) == AfterIndices(container, indices[i..], p, mz, c)
    {
      assert indices[i..][0] == indices[i] && indices[i..][1..] == indices[i + 1..];
      c := AddIndex(container, indices[i], p, mz, c);
      container := Indexed(container, indices[i]);
    }
    forall env: Env ensures Moves(c0, c, TakenOffsets(container0, indices, p, mz, env), p, env) {
      IndicesMove(container0, indices, p, mz, c0, env);
    }
  }

  // ----- The walk to the base -----

  /** Whether the walk can look through v. */
  predicate CanLookThrough(v: Ptr) {
    match v
    case Root(_, _) => false
    case Cast(_, _) => true
    case GlobalAlias(_, overridden) => !overridden
    case Simplifiable(_, _) => true
    case Gep(b, _) => Sized(Pointee(b))
  }

  function Beneath(v: Ptr): Ptr
    requires !v.Root?
  {
    match v
    case Cast(q, _) => q
    case GlobalAlias(q, _) => q
    case Simplifiable(_, q) => q
    case Gep(b, _) => b
  }

  /** The pointer reached in at most fuel steps, and whether the fuel ran out. */
  function LookThrough(v: Ptr, fuel: nat): (Ptr, bool) {
    if fuel == 0 then (v, true)
    else if !CanLookThrough(v) then (v, false)
    else LookThrough(Beneath(v), fuel - 1)
  }

  /** w is n pointers below v. */
  predicate Down(v: Ptr, n: nat, w: Ptr) {
    if n == 0 then v == w else !v.Root? && Down(Beneath(v), n - 1, w)
  }

  /** A pointer that is not computed from another, or over an unsized type. */
  predicate Bottom(v: Ptr) {
    v.Root? || (v.GlobalAlias? && v.mayBeOverridden) || (v.Gep? && !Sized(Pointee(v.base)))
  }

  /** The base is all the steps down, or fewer and nothing to look through. */
  ghost predicate WalkEnds(v: Ptr, steps: nat, base: Ptr, reached: bool) {
    exists n {:trigger Down(v, n, base)} :: 0 <= n <= steps && Down(v, n, base) && (reached <==> n == steps) && (!reached ==> Bottom(base))
  }

  lemma {:induction false} LookThroughEnds(v: Ptr, fuel: nat)
    ensures var (base, reached) := LookThrough(v, fuel); WalkEnds(v, fuel, base, reached)
    decreases fuel
  {
    var (base, reached) := LookThrough(v, fuel);
    if fuel == 0 || !CanLookThrough(v) {
      assert Down(v, 0, base);
    } else {
      LookThroughEnds(Beneath(v), fuel - 1);
      var n :| 0 <= n <= fuel - 1 && Down(Beneath(v), n, base) && (reached <==> n == fuel - 1) && (!reached ==> Bottom(base));
      assert Down(v, n + 1, base);
    }
  }

  /** The address the walk takes v for: every index on the way for what it is taken for. */
  ghost function TakenAddress(v: Ptr, fuel: nat, p: nat, mz: MaskOracle, env: Env): int
    requires WellFormed(v)
  {
    if fuel == 0 || !CanLookThrough(v) then Address(v, env)
    else TakenAddress(Beneath(v), fuel - 1, p, mz, env) + if v.Gep? then TakenOffsets(GepContainer(v), v.indices, p, mz, env) else 0
  }

  /** The walk takes v for its address. */
  ghost predicate ExactPointer(v: Ptr, fuel: nat, p: nat, mz: MaskOracle, env: Env) {
    WellFormed(v) && Cong(TakenAddress(v, fuel, p, mz, env), Address(v, env), Pow2(p))
  }

  /** Every GEP the walk takes apart has constant indices. */
  predicate ConstantWalk(v: Ptr, fuel: nat) {
    fuel == 0 || !CanLookThrough(v) || ((v.Gep? ==> AllConstant(v.indices)) && ConstantWalk(Beneath(v), fuel - 1))
  }

  /** What is collected on the way from v, on top of c. */
  ghost function AfterWalk(v: Ptr, fuel: nat, p: nat, mz: MaskOracle, c: Collected): (c': Collected)
    requires WellFormed(v) && 1 <= p <= 64 && GoodCollected(c)
    ensures GoodCollected(c')
  {
    if fuel == 0 || !CanLookThrough(v) then c
    else AfterWalk(Beneath(v), fuel - 1, p, mz, if v.Gep? then AfterIndices(GepContainer(v), v.indices, p, mz, c) else c)
  }

  /** An index of a GEP that the walk takes apart. */
  predicate OnTheWay(v: Ptr, fuel: nat, index: Expr) {
    fuel != 0 && CanLookThrough(v) && ((v.Gep? && index in v.indices) || OnTheWay(Beneath(v), fuel - 1, index))
  }

  /** Every variable is where the walk into an index on the way must stop. */
  ghost predicate VariablesFinal(v: Ptr, fuel: nat, vars: seq<VariableIndex>, mz: MaskOracle) {
    forall x | x in vars :: exists index :: OnTheWay(v, fuel, index) && ReadFrom(index, x, mz)
  }

  lemma {:induction false} WalkEntriesFrom(v: Ptr, fuel: nat, p: nat, mz: MaskOracle, c: Collected)
    requires WellFormed(v) && 1 <= p <= 64 && GoodCollected(c)
    ensures forall x | x in AfterWalk(v, fuel, p, mz, c).vars ::
              x in c.vars || exists index :: OnTheWay(v, fuel, index) && ReadFrom(index, x, mz)
    decreases fuel
  {
    if fuel > 0 && CanLookThrough(v) {
      var c' := if v.Gep? then AfterIndices(GepContainer(v), v.indices, p, mz, c) else c;
      if v.Gep? {
        EntriesFrom(GepContainer(v), v.indices, p, mz, c);
      }
      WalkEntriesFrom(Beneath(v), fuel - 1, p, mz, c');
      forall x | x in AfterWalk(v, fuel, p, mz, c).vars && x !in c.vars
        ensures exists index :: OnTheWay(v, fuel, index) && ReadFrom(index, x, mz) {
        if x in c'.vars {
          var index :| index in v.indices && ReadFrom(index, x, mz);
          assert OnTheWay(v, fuel, index);
        } else {
          var index :| OnTheWay(Beneath(v), fuel - 1, index) && ReadFrom(index, x, mz);
          assert OnTheWay(v, fuel, index);
        }
      }
    }
  }

  lemma {:induction false} WalkEndsWellFormed(v: Ptr, fuel: nat)
    requires WellFormed(v)
    ensures WellFormed(LookThrough(v, fuel).0)
    decreases fuel
  {
    if fuel > 0 && CanLookThrough(v) {
      WalkEndsWellFormed(Beneath(v), fuel - 1);
    }
  }

  /** Base address and collected parts together are the address the walk takes v for. */
  lemma {:induction false} WalkMoves(v: Ptr, fuel: nat, p: nat, mz: MaskOracle, c: Collected, env: Env)
    requires WellFormed(v) && 1 <= p <= 64 && GoodCollected(c)
    ensures WellFormed(LookThrough(v, fuel).0)
    ensures Cong(TakenAddress(v, fuel, p, mz, env) + Total(c, env),
                 Address(LookThrough(v, fuel).0, env) + Total(AfterWalk(v, fuel, p, mz, c), env), Pow2(p))
    decreases fuel
  {
    var m := Pow2(p);
    WalkEndsWellFormed(v, fuel);
    if fuel == 0 || !CanLookThrough(v) {
      CongRefl(Address(v, env) + Total(c, env), m);
    } else {
      var c' := if v.Gep? then AfterIndices(GepContainer(v), v.indices, p, mz, c) else c;
      var d := if v.Gep? then TakenOffsets(GepContainer(v), v.indices, p, mz, env) else 0;
      var a := TakenAddress(Beneath(v), fuel - 1, p, mz, env);
      if v.Gep? {
        IndicesMove(GepContainer(v), v.indices, p, mz, c, env);
      } else {
        MovesNothing(c, p, env);
      }
      WalkMoves(Beneath(v), fuel - 1, p, mz, c', env);
      CongRefl(a, m);
      CongSym(Total(c', env), Total(c, env) + d, m);
      CongAdd(a, a, Total(c, env) + d, Total(c', env), m);
      CongTrans(a + (Total(c, env) + d), a + Total(c', env),
                Address(LookThrough(v, fuel).0, env) + Total(AfterWalk(v, fuel, p, mz, c), env), m);
    }
  }

  lemma {:induction false} ConstantWalkCollects(v: Ptr, fuel: nat, p: nat, mz: MaskOracle, c: Collected)
    requires WellFormed(v) && 1 <= p <= 64 && GoodCollected(c) && ConstantWalk(v, fuel)
    ensures AfterWalk(v, fuel, p, mz, c).vars == c.vars
    decreases fuel
  {
    if fuel > 0 && CanLookThrough(v) {
      if v.Gep? {
        ConstantIndices(GepContainer(v), v.indices, p, mz, c);
      }
      ConstantWalkCollects(Beneath(v), fuel - 1, p, mz, if v.Gep? then AfterIndices(GepContainer(v), v.indices, p, mz, c) else c);
    }
  }

  /** The pointer is base + offset + variables modulo the pointer width. */
  ghost predicate Decomposes(v: Ptr, base: Ptr, c: Collected, p: nat, env: Env)
    requires WellFormed(v) && WellFormed(base) && GoodIndices(c.vars)
  {
    Cong(Address(v, env), Address(base, env) + c.offs + Sum(c.vars, env), Pow2(p))
  }

  /** Base, constant part and variables denote the address the walk takes v for; that is v's exactly when the walk is exact. */
  lemma WalkDecomposes(v: Ptr, p: nat, mz: MaskOracle, env: Env)
    requires WellFormed(v) && 1 <= p <= 64
    ensures var base := LookThrough(v, MAX_LOOKUP_SEARCH_DEPTH).0;
            var c := AfterWalk(v, MAX_LOOKUP_SEARCH_DEPTH, p, mz, NOTHING);
            && WellFormed(base)
            && Cong(TakenAddress(v, MAX_LOOKUP_SEARCH_DEPTH, p, mz, env), Address(base, env) + c.offs + Sum(c.vars, env), Pow2(p))
            && (Decomposes(v, base, c, p, env) <==> ExactPointer(v, MAX_LOOKUP_SEARCH_DEPTH, p, mz, env))
  {
    WalkMoves(v, MAX_LOOKUP_SEARCH_DEPTH, p, mz, NOTHING, env);
    var base := LookThrough(v, MAX_LOOKUP_SEARCH_DEPTH).0;
    var c := AfterWalk(v, MAX_LOOKUP_SEARCH_DEPTH, p, mz, NOTHING);
    var a, t, b, m := Address(v, env), TakenAddress(v, MAX_LOOKUP_SEARCH_DEPTH, p, mz, env),
                      Address(base, env) + c.offs + Sum(c.vars, env), Pow2(p);
    assert Total(NOTHING, env) == 0;
    if Cong(t, a, m) {
      CongSym(t, a, m);
      CongTrans(a, t, b, m);
    }
    if Cong(a, b, m) {
      CongSym(a, b, m);
      CongTrans(t, b, a, m);
    }
  }

  /** What holds of the end of the walk. */
  lemma WalkFacts(v0: Ptr, p: nat, mz: MaskOracle)
    requires WellFormed(v0) && 1 <= p <= 64
    ensures var (base, reached) := LookThrough(v0, MAX_LOOKUP_SEARCH_DEPTH);
            var c := AfterWalk(v0, MAX_LOOKUP_SEARCH_DEPTH, p, mz, NOTHING);
            && WellFormed(base) && (ConstantWalk(v0, MAX_LOOKUP_SEARCH_DEPTH) ==> c.vars == [])
            && VariablesFinal(v0, MAX_LOOKUP_SEARCH_DEPTH, c.vars, mz) && WalkEnds(v0, MAX_LOOKUP_SEARCH_DEPTH, base, reached)
            && (forall env: Env ::
                  Cong(TakenAddress(v0, MAX_LOOKUP_SEARCH_DEPTH, p, mz, env), Address(base, env) + c.offs + Sum(c.vars, env), Pow2(p)))
            && (forall env: Env :: Decomposes(v0, base, c, p, env) <==> ExactPointer(v0, MAX_LOOKUP_SEARCH_DEPTH, p, mz, env))
  {
    WalkEntriesFrom(v0, MAX_LOOKUP_SEARCH_DEPTH, p, mz, NOTHING);
    LookThroughEnds(v0, MAX_LOOKUP_SEARCH_DEPTH);
    WalkEndsWellFormed(v0, MAX_LOOKUP_SEARCH_DEPTH);
    if ConstantWalk(v0, MAX_LOOKUP_SEARCH_DEPTH) {
      ConstantWalkCollects(v0, MAX_LOOKUP_SEARCH_DEPTH, p, mz, NOTHING);
    }
    forall env: Env {
      WalkDecomposes(v0, p, mz, env);
    }
  }

  method DecomposeGEPExpression(v0: Ptr, p: nat, mz: MaskOracle)
    returns (base: Ptr, baseOffs: int, vars: seq<VariableIndex>, maxLookupReached: bool)
    requires WellFormed(v0) && 1 <= p <= 64
    ensures (base, maxLookupReached) == LookThrough(v0, MAX_LOOKUP_SEARCH_DEPTH)
    ensures Collected(baseOffs, vars) == AfterWalk(v0, MAX_LOOKUP_SEARCH_DEPTH, p, mz, NOTHING)
    ensures WellFormed(base) && GoodCollected(Collected(baseOffs, vars))
    ensures ConstantWalk(v0, MAX_LOOKUP_SEARCH_DEPTH) ==> vars == []
    ensures VariablesFinal(v0, MAX_LOOKUP_SEARCH_DEPTH, vars, mz) && WalkEnds(v0, MAX_LOOKUP_SEARCH_DEPTH, base, maxLookupReached)
    ensures forall env: Env :: Cong(TakenAddress(v0, MAX_LOOKUP_SEARCH_DEPTH, p, mz, env), Address(base, env) + baseOffs + Sum(vars, env), Pow2(p))
    ensures forall env: Env :: Decomposes(v0, base, Collected(baseOffs, vars), p, env) <==> ExactPointer(v0, MAX_LOOKUP_SEARCH_DEPTH, p, mz, env)
  {
    base, baseOffs, vars, maxLookupReached := WalkToBase(v0, p, mz);
    WalkFacts(v0, p, mz);
  }

  /** The loop. */
  method WalkToBase(v0: Ptr, p: nat, mz: MaskOracle)
    returns (base: Ptr, baseOffs: int, vars: seq<VariableIndex>, maxLookupReached: bool)
    requires WellFormed(v0) && 1 <= p <= 64
    ensures (base, maxLookupReached) == LookThrough(v0, MAX_LOOKUP_SEARCH_DEPTH)
    ensures Collected(baseOffs, vars) == AfterWalk(v0, MAX_LOOKUP_SEARCH_DEPTH, p, mz, NOTHING)
  {
    base, baseOffs, vars, maxLookupReached := v0, 0, [], false;
    var maxLookup := MAX_LOOKUP_SEARCH_DEPTH;
    while maxLookup > 0
      invariant WellFormed(base) && GoodCollected(Collected(baseOffs, vars))
      invariant LookThrough(v0, MAX_LOOKUP_SEARCH_DEPTH) == LookThrough(base, maxLookup)
      invariant AfterWalk(v0, MAX_LOOKUP_SEARCH_DEPTH, p, mz, NOTHING) == AfterWalk(base, maxLookup, p, mz, Collected(baseOffs, vars))
    {
      if base.Root? || (base.GlobalAlias? && base.mayBeOverridden) {
        return;
      }
      if base.Gep? {
        if !Sized(Pointee(base.base)) {
          return;
        }
        var c := AddIndices(GepContainer(base), base.indices, p, mz, Collected(baseOffs, vars));
        baseOffs, vars := c.offs, c.vars;
      }
      base := Beneath(base);
      maxLookup := maxLookup - 1;
    }
    maxLookupReached := true;
  }

  // ----- When the walk is exact -----

  ghost predicate ExactIndices(container: Ty, indices: seq<Expr>, p: nat, mz: MaskOracle, env: Env)
    requires ValidIndices(container, indices)
  {
    indices != [] ==>
      && (container.ArrayTy? ==> ExactIndex(AllocSize(container.elem), indices[0], p, mz, env))
      && ExactIndices(Indexed(container, indices[0]), indices[1..], p, mz, env)
  }

  lemma {:induction false} ExactOffsets(container: Ty, indices: seq<Expr>, p: nat, mz: MaskOracle, env: Env)
    requires ValidIndices(container, indices) && GoodLayout(container) && ExactIndices(container, indices, p, mz, env)
    ensures Cong(TakenOffsets(container, indices, p, mz, env), IndicesOffset(container, indices, env), Pow2(p))
    decreases indices
  {
    CongRefl(0, Pow2(p));
    if indices != [] {
      var container' := Indexed(container, indices[0]);
      ExactOffsets(container', indices[1..], p, mz, env);
      CongRefl(IndexOffset(container, indices[0], env), Pow2(p));
      CongAdd(TakenOffset(container, indices[0], p, mz, env), IndexOffset(container, indices[0], env),
              TakenOffsets(container', indices[1..], p, mz, env), IndicesOffset(container', indices[1..], env), Pow2(p));
    }
  }

  /** Every index the walk reads is exact. */
  ghost predicate ExactWalk(v: Ptr, fuel: nat, p: nat, mz: MaskOracle, env: Env)
    requires WellFormed(v)
  {
    fuel == 0 || !CanLookThrough(v) ||
    ((v.Gep? ==> ExactIndices(GepContainer(v), v.indices, p, mz, env)) && ExactWalk(Beneath(v), fuel - 1, p, mz, env))
  }

  /** Then the walk is, whatever the GEPs on the way. */
  lemma {:induction false} ExactWalkIsExact(v: Ptr, fuel: nat, p: nat, mz: MaskOracle, env: Env)
    requires WellFormed(v) && ExactWalk(v, fuel, p, mz, env)
    ensures ExactPointer(v, fuel, p, mz, env)
    decreases fuel
  {
    CongRefl(Address(v, env), Pow2(p));
    if fuel > 0 && CanLookThrough(v) {
      var b := Beneath(v);
      ExactWalkIsExact(b, fuel - 1, p, mz, env);
      if v.Gep? {
        ExactOffsets(GepContainer(v), v.indices, p, mz, env);
        CongAdd(TakenAddress(b, fuel - 1, p, mz, env), Address(b, env),
                TakenOffsets(GepContainer(v), v.indices, p, mz, env), IndicesOffset(GepContainer(v), v.indices, env), Pow2(p));
      }
    }
  }

  lemma {:induction false} ConstantIndicesExact(container: Ty, indices: seq<Expr>, p: nat, mz: MaskOracle, env: Env)
    requires ValidIndices(container, indices) && AllConstant(indices)
    ensures ExactIndices(container, indices, p, mz, env)
    decreases indices
  {
    if indices != [] {
      CongRefl(SignedValue(indices[0], env), Pow2(p));
      if container.ArrayTy? {
        TakenForValue(AllocSize(container.elem), indices[0], p, mz, env);
      }
      ConstantIndicesExact(Indexed(container, indices[0]), indices[1..], p, mz, env);
    }
  }

  lemma {:induction false} ConstantWalkExact(v: Ptr, fuel: nat, p: nat, mz: MaskOracle, env: Env)
    requires WellFormed(v) && ConstantWalk(v, fuel)
    ensures ExactWalk(v, fuel, p, mz, env)
    decreases fuel
  {
    if fuel > 0 && CanLookThrough(v) {
      if v.Gep? {
        ConstantIndicesExact(GepContainer(v), v.indices, p, mz, env);
      }
      ConstantWalkExact(Beneath(v), fuel - 1, p, mz, env);
    }
  }

  /** With one variable index, off a base that is exact, the walk is exact if and only if the index is. */
  lemma OneIndexExact(b: Ptr, index: Expr, fuel: nat, p: nat, mz: MaskOracle, env: Env)
    requires WellFormed(Gep(b, [index])) && Sized(Pointee(b)) && fuel > 0
    requires TakenAddress(b, fuel - 1, p, mz, env) == Address(b, env)
    ensures WellTyped(index)
    ensures TakenAddress(Gep(b, [index]), fuel, p, mz, env) == Address(b, env) + AllocSize(Pointee(b)) * TakenIndex(index, p, mz, env)
    ensures Address(Gep(b, [index]), env) == Address(b, env) + AllocSize(Pointee(b)) * SignedValue(index, env)
    ensures ExactPointer(Gep(b, [index]), fuel, p, mz, env) <==> ExactIndex(AllocSize(Pointee(b)), index, p, mz, env)
  {
    var g, size, container := Gep(b, [index]), AllocSize(Pointee(b)), ArrayTy(Pointee(b), 0);
    assert GepContainer(g) == container && g.indices[0] == index && g.indices[1..] == [];
    assert ValidIndices(container, g.indices) && ValidIndex(container, index);
    var taken, v, a := size * TakenIndex(index, p, mz, env), size * SignedValue(index, env), Address(b, env);
    assert TakenOffsets(Pointee(b), [], p, mz, env) == 0 && IndicesOffset(Pointee(b), [], env) == 0;
    assert TakenOffsets(container, g.indices, p, mz, env) == taken && IndicesOffset(container, g.indices, env) == v;
    CongShift(a + taken, a + v, Pow2(p));
    CongShift(taken, v, Pow2(p));
  }

  // ----- Agreement with GetUnderlyingObject -----

  /** GetUnderlyingObject also looks through GEPs over unsized types. */
  function GetUnderlyingObject(v: Ptr, fuel: nat): Ptr {
    if fuel == 0 || v.Root? || (v.GlobalAlias? && v.mayBeOverridden) then v
    else GetUnderlyingObject(Beneath(v), fuel - 1)
  }

  predicate MeetsUnsizedGep(v: Ptr, fuel: nat) {
    fuel != 0 && !v.Root? && !(v.GlobalAlias? && v.mayBeOverridden) &&
    ((v.Gep? && !Sized(Pointee(v.base))) || MeetsUnsizedGep(Beneath(v), fuel - 1))
  }

  lemma {:induction false} UnderlyingIsSmaller(v: Ptr, fuel: nat)
    ensures GetUnderlyingObject(v, fuel) == v || GetUnderlyingObject(v, fuel) < v
    decreases fuel
  {
    if fuel != 0 && !v.Root? && !(v.GlobalAlias? && v.mayBeOverridden) {
      UnderlyingIsSmaller(Beneath(v), fuel - 1);
    }
  }

  /** The two walks end at the same pointer exactly when neither meets a GEP over an unsized type. */
  lemma {:induction false} WalksAgree(v: Ptr, fuel: nat)
    ensures LookThrough(v, fuel).0 == GetUnderlyingObject(v, fuel) <==> !MeetsUnsizedGep(v, fuel)
    decreases fuel
  {
    if fuel != 0 && !v.Root? && !(v.GlobalAlias? && v.mayBeOverridden) {
      if v.Gep? && !Sized(Pointee(v.base)) {
        UnderlyingIsSmaller(Beneath(v), fuel - 1);
      } else {
        WalksAgree(Beneath(v), fuel - 1);
      }
    }
  }
}
