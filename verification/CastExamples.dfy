/**
 Two families of pointers whose indices are not taken for their values: byte sext(x + c) of p
 against byte sext(x) of p + d, for x of w bits, and an index of a single bit.
 */
module CastExamples {
  import opened AliasResults
  import opened Arith
  import opened GepModel
  import opened LinearExpression
  import opened IndexValues
  import opened Decomposition
  import opened IndexDifference
  import opened OffsetRules
  import opened FieldRule
  import opened AliasGEP
  import opened ByteGeps

  const ROOT: Ptr := Root(0, BYTE)

  function X(w: nat): Expr { Opaque(0, w) }

  function SumOf(c: nat, w: nat): Expr { SExt(Binary(Add, X(w), ConstInt(c, w)), 64) }

  function Wide(w: nat): Expr { SExt(X(w), 64) }

  /** Byte sext(x + c) of p. */
  function Above(c: nat, w: nat): Ptr { Byte(ROOT, SumOf(c, w)) }

  /** Byte sext(x) of p + d. */
  function Below(d: int, w: nat): Ptr { Byte(Byte(ROOT, Fixed(d)), Wide(w)) }

  predicate Fits(c: nat, d: int, w: nat) {
    1 <= w < 64 && c < Pow2(w) && -TWO63 <= d < TWO63
  }

  predicate Sizes(n: nat, m: nat) {
    0 < n <= TWO63 && 0 < m <= TWO63
  }

  /** Two ranges that are diff apart share no byte: each ends before the other starts again. */
  predicate Clear(diff: int, n: nat, m: nat) {
    m <= diff % TWO64 && n <= TWO64 - diff % TWO64
  }

  /** The two against each other, off one object. */
  function Ask(c: nat, d: int, w: nat, n: nat, m: nat): Question {
    Question(Above(c, w), Known(n), Below(d, w), Known(m), ROOT, ROOT, MustAlias, MayAlias, MayAlias)
  }

  // ----- The pointers -----

  lemma IndicesGood(c: nat, d: int, w: nat)
    requires Fits(c, d, w)
    ensures WellTyped(X(w)) && WellTyped(SumOf(c, w)) && WellTyped(Wide(w)) && WellTyped(Fixed(d))
  {
    Pow2Of64();
    assert WellTyped(ConstInt(c, w)) && WellTyped(Binary(Add, X(w), ConstInt(c, w)));
  }

  lemma PointersGood(c: nat, d: int, w: nat)
    requires Fits(c, d, w)
    ensures WellFormed(ROOT) && WellFormed(Above(c, w)) && WellFormed(Below(d, w)) && WellFormed(Byte(ROOT, Fixed(d)))
    ensures Pointee(Byte(ROOT, Fixed(d))) == BYTE
  {
    IndicesGood(c, d, w);
    assert GoodLayout(BYTE);
    ByteGood(ROOT, SumOf(c, w));
    ByteGood(ROOT, Fixed(d));
    ByteGood(Byte(ROOT, Fixed(d)), Wide(w));
  }

  lemma WideValue(w: nat, env: Env)
    requires 1 <= w < 64
    ensures WellTyped(Wide(w)) && WellTyped(X(w)) && SignedValue(Wide(w), env) == SignedValue(X(w), env)
  {
    CastReading(Wide(w), SignExtended, env);
    var k := CongElim(SignedValue(Wide(w), env), SignedValue(X(w), env), 0);
  }

  /** What the sum loses by overflowing. */
  ghost function Turn(c: nat, w: nat, env: Env): int
    requires 1 <= w < 64
  {
    XWellTyped(w);
    if SignedValue(X(w), env) + c < Pow2(w - 1) then 0 else Pow2(w)
  }

  lemma XWellTyped(w: nat)
    requires 1 <= w < 64
    ensures WellTyped(X(w))
  {
  }

  /** The pointers are c - d apart, or a turn of the index less where the sum overflows. */
  lemma Distance(c: nat, d: int, w: nat, mz: MaskOracle, env: Env)
    requires Fits(c, d, w) && SoundMask(mz)
    ensures WellFormed(Above(c, w)) && WellFormed(Below(d, w))
    ensures Address(Above(c, w), env) - Address(Below(d, w), env) == c - d - Turn(c, w, env)
  {
    PointersGood(c, d, w);
    IndicesGood(c, d, w);
    FixedValue(d, env);
    WideValue(w, env);
    ByteAddress(ROOT, SumOf(c, w), env);
    ByteAddress(ROOT, Fixed(d), env);
    ByteAddress(Byte(ROOT, Fixed(d)), Wide(w), env);
    SumBelowCast(1, X(w), c, 64, 64, mz, env);
  }

  // ----- What the walks collect -----

  lemma VariableCollected(index: Expr, x: Expr, o: nat, mz: MaskOracle)
    requires WellTyped(index) && Width(index) == 64 && !index.ConstInt? && o < TWO63
    requires Residue(index, NotExtended, MAX_DEPTH, mz) == (x, SignExtended) && WrappedForm(index, NotExtended, MAX_DEPTH, mz) == (1, o)
    ensures AfterVariable(1, index, 64, mz, NOTHING) == Collected(o, [VariableIndex(x, SignExtended, 1)])
  {
    Pow2Of64();
    SignedOne(64);
    SignedSmall(o, 64);
    SignedSmall(1, 64);
    assert Taken([], x, SignExtended) == ([], 0);
    assert [] + [VariableIndex(x, SignExtended, 1)] == [VariableIndex(x, SignExtended, 1)];
  }

  lemma AboveCollected(c: nat, d: int, w: nat, mz: MaskOracle)
    requires Fits(c, d, w)
    ensures WellFormed(Above(c, w))
    ensures AfterWalk(Above(c, w), MAX_LOOKUP_SEARCH_DEPTH, 64, mz, NOTHING) == Collected(c, [VariableIndex(X(w), SignExtended, 1)])
  {
    IndicesGood(c, d, w);
    PointersGood(c, d, w);
    Pow2Of64();
    Pow2Monotone(w, 63);
    SumSteps(X(w), c, SignExtended, 5, mz);
    VariableCollected(SumOf(c, w), X(w), c, mz);
    OneIndexCollected(ROOT, SumOf(c, w), mz, NOTHING);
  }

  lemma BelowCollected(d: int, w: nat, mz: MaskOracle)
    requires Fits(0, d, w)
    ensures WellFormed(Below(d, w))
    ensures AfterWalk(Below(d, w), MAX_LOOKUP_SEARCH_DEPTH, 64, mz, NOTHING) == Collected(d, [VariableIndex(X(w), SignExtended, 1)])
  {
    IndicesGood(0, d, w);
    PointersGood(0, d, w);
    assert Residue(X(w), SignExtended, 5, mz) == (X(w), SignExtended) && WrappedForm(X(w), SignExtended, 5, mz) == (1, 0);
    VariableCollected(Wide(w), X(w), 0, mz);
    OneIndexCollected(Byte(ROOT, Fixed(d)), Wide(w), mz, NOTHING);
    var c := Collected(0, [VariableIndex(X(w), SignExtended, 1)]);
    FixedCollected(d, c, mz);
    OneIndexCollected(ROOT, Fixed(d), mz, c);
  }

  // ----- The answer -----

  lemma AskGood(c: nat, d: int, w: nat, n: nat, m: nat)
    requires Fits(c, d, w)
    ensures var q := Ask(c, d, w, n, m); q.Valid() && q.WalksEnd() && Decidable(q)
  {
    PointersGood(c, d, w);
    assert Sized(BYTE);
    assert LookThrough(ROOT, 5) == LookThrough(ROOT, 4) == (ROOT, false);
    assert LookThrough(Byte(ROOT, Fixed(d)), 5) == (ROOT, false);
  }

  /** The difference of the two walks is the constant c - d. */
  lemma AskDifference(c: nat, d: int, w: nat, n: nat, m: nat, mz: MaskOracle, eqv: EqualityOracle)
    requires Fits(c, d, w) && eqv(X(w), X(w))
    ensures var q := Ask(c, d, w, n, m); q.Valid() && q.Offs(mz) == Int64(c - d) && q.Vars(mz, eqv) == []
  {
    AskGood(c, d, w, n, m);
    AboveCollected(c, d, w, mz);
    BelowCollected(d, w, mz);
    var vars := [VariableIndex(X(w), SignExtended, 1)];
    assert vars[..0] == [] && Less(vars, [], eqv) == vars;
    assert Matching(vars, vars[0], eqv, 0) == 0;
    assert Less(vars, vars, eqv) == [];
  }

  /** Where the sum does not overflow, both walks are exact. */
  lemma ExactAtLowest(c: nat, d: int, w: nat, n: nat, m: nat, mz: MaskOracle)
    requires Fits(c, d, w) && SoundMask(mz)
    ensures var q := Ask(c, d, w, n, m); q.Valid() && q.Exact(mz, Lowest(w), Lowest(w))
  {
    AskGood(c, d, w, n, m);
    AboveExact(c, d, w, mz);
    BelowExact(c, d, w, mz);
  }

  lemma AboveExact(c: nat, d: int, w: nat, mz: MaskOracle)
    requires Fits(c, d, w) && SoundMask(mz)
    ensures ExactPointer(Above(c, w), MAX_LOOKUP_SEARCH_DEPTH, 64, mz, Lowest(w))
  {
    var env := Lowest(w);
    XValue(w, Pow2(w - 1));
    AddressesAt(c, d, w, mz, env);
    WalkDecomposes(Above(c, w), 64, mz, env);
    AboveCollected(c, d, w, mz);
    CollectedSum(w, env);
    CongRefl(Address(Above(c, w), env), Pow2(64));
  }

  lemma BelowExact(c: nat, d: int, w: nat, mz: MaskOracle)
    requires Fits(c, d, w) && SoundMask(mz)
    ensures ExactPointer(Below(d, w), MAX_LOOKUP_SEARCH_DEPTH, 64, mz, Lowest(w))
  {
    var env := Lowest(w);
    AskGood(c, d, w, 1, 1);
    XValue(w, Pow2(w - 1));
    AddressesAt(c, d, w, mz, env);
    WalkDecomposes(Below(d, w), 64, mz, env);
    BelowCollected(d, w, mz);
    CollectedSum(w, env);
    CongRefl(Address(Below(d, w), env), Pow2(64));
  }

  lemma CollectedSum(w: nat, env: Env)
    requires 1 <= w < 64
    ensures WellTyped(X(w)) && GoodIndices([VariableIndex(X(w), SignExtended, 1)])
    ensures Sum([VariableIndex(X(w), SignExtended, 1)], env) == SignedValue(X(w), env)
  {
    var v := VariableIndex(X(w), SignExtended, 1);
    assert [v][..0] == [] && Sum([], env) == 0;
    assert Term(v, env) == SignedValue(X(w), env);
  }

  lemma AddressesAt(c: nat, d: int, w: nat, mz: MaskOracle, env: Env)
    requires Fits(c, d, w) && SoundMask(mz) && WellTyped(X(w)) && SignedValue(X(w), env) + c < Pow2(w - 1)
    ensures WellFormed(Above(c, w)) && WellFormed(Below(d, w)) && WellFormed(ROOT)
    ensures Address(Above(c, w), env) == Address(ROOT, env) + c + SignedValue(X(w), env)
    ensures Address(Below(d, w), env) == Address(ROOT, env) + d + SignedValue(X(w), env)
  {
    PointersGood(c, d, w);
    IndicesGood(c, d, w);
    FixedValue(d, env);
    WideValue(w, env);
    ByteAddress(ROOT, Fixed(d), env);
    ByteAddress(Byte(ROOT, Fixed(d)), Wide(w), env);
    Distance(c, d, w, mz, env);
  }

  function At(w: nat, x: nat): Env {
    Env(map[X(w) := x], map[])
  }

  /** The least and the greatest signed value of x. */
  function Lowest(w: nat): Env
    requires w >= 1
  {
    At(w, Pow2(w - 1))
  }

  function Highest(w: nat): Env
    requires w >= 1
  {
    At(w, Pow2(w - 1) - 1)
  }

  lemma XValue(w: nat, x: nat)
    requires 1 <= w < 64 && x < Pow2(w)
    ensures WellTyped(X(w)) && SignedValue(X(w), At(w, x)) == if x < Pow2(w - 1) then x else x - Pow2(w)
  {
    ModSmall(x, Pow2(w));
  }

  /** The rules on a constant difference, in terms of the difference before it wraps. */
  lemma ConstantAnswer(diff: int, n: nat, m: nat)
    requires Sizes(n, m)
    ensures SoundAnswer(NoAlias, Int64(diff), [], Known(n), Known(m)) <==> Clear(diff, n, m)
    ensures Int64(diff) == 0 <==> Cong(diff, 0, TWO64)
  {
    var offs := Int64(diff);
    Int64Cong(diff);
    CongSym(offs, diff, TWO64);
    LongestDecides(offs, [], Known(n), Known(m));
    ConstantApart(offs, n, m);
    GapOfConstant(diff, 0, offs);
    DisjointIffGap(diff, n, 0, m);
    CongModEq(offs, diff, TWO64);
    CongModEq(diff, 0, TWO64);
  }

  /** Whatever the values, the rules see two pointers that are always c - d apart. */
  lemma SumAnswer(c: nat, d: int, w: nat, n: nat, m: nat, mz: MaskOracle, eqv: EqualityOracle, r: AliasResult, why: Reason)
    requires Fits(c, d, w) && Sizes(n, m) && SoundMask(mz) && eqv(X(w), X(w))
    requires Ask(c, d, w, n, m).Valid() && Outcome(Ask(c, d, w, n, m), r, why, mz, eqv)
    ensures r == NoAlias <==> Clear(c - d, n, m)
    ensures r == MustAlias <==> Cong(c - d, 0, TWO64)
  {
    AskReady(c, d, w, n, m, mz, eqv);
    DifferenceAnswer(Ask(c, d, w, n, m), c - d, n, m, mz, eqv, Lowest(w), r, why);
  }

  /** A question whose walks differ by a constant. */
  lemma DifferenceAnswer(q: Question, diff: int, n: nat, m: nat, mz: MaskOracle, eqv: EqualityOracle, env: Env, r: AliasResult, why: Reason)
    requires Sizes(n, m) && q.Valid() && Outcome(q, r, why, mz, eqv) && Decidable(q) && q.Exact(mz, env, env)
    requires q.s1 == Known(n) && q.s2 == Known(m) && q.Vars(mz, eqv) == [] && q.Offs(mz) == Int64(diff)
    requires !(EndInFields(q.g1, q.v2) && q.g1.base == q.v2.base)
    ensures r == NoAlias <==> Clear(diff, n, m)
    ensures r == MustAlias <==> Cong(diff, 0, TWO64)
  {
    ConstantOutcome(q, r, why, mz, eqv, env);
    ConstantAnswer(diff, n, m);
  }

  lemma AskReady(c: nat, d: int, w: nat, n: nat, m: nat, mz: MaskOracle, eqv: EqualityOracle)
    requires Fits(c, d, w) && SoundMask(mz) && eqv(X(w), X(w))
    ensures var q := Ask(c, d, w, n, m);
            && q.Valid() && Decidable(q) && q.Exact(mz, Lowest(w), Lowest(w))
            && q.Vars(mz, eqv) == [] && q.Offs(mz) == Int64(c - d)
  {
    AskGood(c, d, w, n, m);
    AskDifference(c, d, w, n, m, mz, eqv);
    ExactAtLowest(c, d, w, n, m, mz);
  }

  /** aliasGEP on the two pointers of one object. */
  method AskSum(c: nat, d: int, w: nat, n: nat, m: nat, mz: MaskOracle, eqv: EqualityOracle) returns (r: AliasResult)
    requires Fits(c, d, w) && Sizes(n, m) && SoundMask(mz) && AcceptsOnlyIdentical(eqv) && eqv(X(w), X(w))
    ensures r == NoAlias <==> Clear(c - d, n, m)
    ensures r == MustAlias <==> Cong(c - d, 0, TWO64)
  {
    AskGood(c, d, w, n, m);
    ghost var why;
    r, why := AliasGEP.AliasGEP(Ask(c, d, w, n, m), mz, eqv);
    SumAnswer(c, d, w, n, m, mz, eqv, r, why);
  }

  // ----- When that is true -----

  /** NoAlias is true of the two pointers at one value of x, and at all of them. */
  ghost predicate ApartAt(c: nat, d: int, w: nat, n: nat, m: nat, env: Env)
    requires Fits(c, d, w)
  {
    PointersGood(c, d, w);
    Meaning(NoAlias, Address(Above(c, w), env), Known(n), Address(Below(d, w), env), Known(m))
  }

  ghost predicate AlwaysApart(c: nat, d: int, w: nat, n: nat, m: nat)
    requires Fits(c, d, w)
  {
    forall env: Env :: ApartAt(c, d, w, n, m, env)
  }

  lemma MeaningByDistance(a1: int, n: nat, a2: int, m: nat, diff: int)
    requires Sizes(n, m) && a1 - a2 == diff
    ensures Meaning(NoAlias, a1, Known(n), a2, Known(m)) <==> Clear(diff, n, m)
  {
    DisjointIffGap(a1, n, a2, m);
    assert Accesses(n, Known(n)) && Accesses(m, Known(m));
    if Clear(diff, n, m) {
      forall k: nat, l: nat | Accesses(k, Known(n)) && Accesses(l, Known(m)) ensures Disjoint(a1, k, a2, l) {
        GapSuffices(a1, k, a2, l);
      }
    }
  }

  lemma ApartByTurn(c: nat, d: int, w: nat, n: nat, m: nat, mz: MaskOracle, env: Env, diff: int)
    requires Fits(c, d, w) && Sizes(n, m) && SoundMask(mz) && diff == c - d - Turn(c, w, env)
    ensures ApartAt(c, d, w, n, m, env) <==> Clear(diff, n, m)
  {
    Distance(c, d, w, mz, env);
    MeaningByDistance(Address(Above(c, w), env), n, Address(Below(d, w), env), m, diff);
  }

  lemma LowestTurn(c: nat, w: nat)
    requires Fits(c, 0, w)
    ensures Turn(c, w, Lowest(w)) == 0
  {
    XValue(w, Pow2(w - 1));
  }

  lemma HighestTurn(c: nat, w: nat)
    requires Fits(c, 0, w) && c > 0
    ensures Turn(c, w, Highest(w)) == Pow2(w)
  {
    XValue(w, Pow2(w - 1) - 1);
  }

  lemma ApartThen(c: nat, d: int, w: nat, n: nat, m: nat, mz: MaskOracle, env: Env, diff: int)
    requires Fits(c, d, w) && Sizes(n, m) && SoundMask(mz) && diff == c - d - Turn(c, w, env) && AlwaysApart(c, d, w, n, m)
    ensures Clear(diff, n, m)
  {
    ApartByTurn(c, d, w, n, m, mz, env, diff);
  }

  lemma AlwaysByTurn(c: nat, d: int, w: nat, n: nat, m: nat, mz: MaskOracle)
    requires Fits(c, d, w) && Sizes(n, m) && SoundMask(mz)
    requires Clear(c - d, n, m) && (c > 0 ==> Clear(c - d - Pow2(w), n, m))
    ensures AlwaysApart(c, d, w, n, m)
  {
    forall env: Env ensures ApartAt(c, d, w, n, m, env) {
      ApartByTurn(c, d, w, n, m, mz, env, if Turn(c, w, env) == 0 then c - d else c - d - Pow2(w));
    }
  }

  lemma ClearAtLowest(c: nat, d: int, w: nat, n: nat, m: nat, mz: MaskOracle)
    requires Fits(c, d, w) && Sizes(n, m) && SoundMask(mz) && AlwaysApart(c, d, w, n, m)
    ensures Clear(c - d, n, m)
  {
    LowestTurn(c, w);
    ApartThen(c, d, w, n, m, mz, Lowest(w), c - d);
  }

  lemma ClearAtHighest(c: nat, d: int, w: nat, n: nat, m: nat, mz: MaskOracle)
    requires Fits(c, d, w) && Sizes(n, m) && SoundMask(mz) && AlwaysApart(c, d, w, n, m) && c > 0
    ensures Clear(c - d - Pow2(w), n, m)
  {
    HighestTurn(c, w);
    ApartThen(c, d, w, n, m, mz, Highest(w), c - d - Pow2(w));
  }

  /**
   That NoAlias is true at all values if and only if the pointers are also apart when the sum
   has overflowed and is a whole turn of its width lower, or it cannot overflow.
   */
  lemma OverflowExact(c: nat, d: int, w: nat, n: nat, m: nat, mz: MaskOracle)
    requires Fits(c, d, w) && Sizes(n, m) && SoundMask(mz)
    ensures AlwaysApart(c, d, w, n, m) <==> Clear(c - d, n, m) && (c > 0 ==> Clear(c - d - Pow2(w), n, m))
  {
    if AlwaysApart(c, d, w, n, m) {
      ClearAtLowest(c, d, w, n, m, mz);
      if c > 0 {
        ClearAtHighest(c, d, w, n, m, mz);
      }
    } else if Clear(c - d, n, m) && (c > 0 ==> Clear(c - d - Pow2(w), n, m)) {
      AlwaysByTurn(c, d, w, n, m, mz);
    }
  }

  /** p + sext(x + 1) against p - 255 + sext(x), for x of 8 bits: NoAlias, and one address at x = 127. */
  lemma OverflowBelowCast(mz: MaskOracle, eqv: EqualityOracle, r: AliasResult, why: Reason)
    requires SoundMask(mz) && eqv(X(8), X(8))
    requires Ask(1, -255, 8, 4, 4).Valid() && Outcome(Ask(1, -255, 8, 4, 4), r, why, mz, eqv)
    ensures r == NoAlias && WellFormed(Above(1, 8)) && WellFormed(Below(-255, 8))
    ensures Address(Above(1, 8), At(8, 127)) == Address(Below(-255, 8), At(8, 127))
  {
    Apart256();
    SumAnswer(1, -255, 8, 4, 4, mz, eqv, r, why);
    MeetAt127(mz);
  }

  lemma Apart256()
    ensures Pow2(7) == 128 && Pow2(8) == 256 && Clear(256, 4, 4)
  {
    ModSmall(256, TWO64);
  }

  lemma MeetAt127(mz: MaskOracle)
    requires SoundMask(mz) && Pow2(7) == 128 && Pow2(8) == 256
    ensures WellFormed(Above(1, 8)) && WellFormed(Below(-255, 8))
    ensures Address(Above(1, 8), At(8, 127)) == Address(Below(-255, 8), At(8, 127))
  {
    XValue(8, 127);
    Distance(1, -255, 8, mz, At(8, 127));
  }

  /** An overflow does no harm where it makes up for itself: sext(x + 255) at x = -128 is 127. */
  lemma HarmlessSum(mz: MaskOracle)
    requires SoundMask(mz)
    ensures WellTyped(SumOf(255, 8)) && SignedValue(SumOf(255, 8), At(8, 128)) == -128 + 255
    ensures ExactIndex(1, SumOf(255, 8), 64, mz, At(8, 128))
  {
    assert Pow2(7) == 128 && Pow2(8) == 256;
    IndicesGood(255, 0, 8);
    XValue(8, 128);
    SumBelowCast(1, X(8), 255, 64, 64, mz, At(8, 128));
  }

  // ----- One bit -----

  /**
   An index of a single bit is subtracted where it should be added: the walk takes the element
   below for the one above. It is exact at both values exactly for elements of half the address
   space.
   */
  lemma OneBitIndex(id: nat, t: Ty, mz: MaskOracle)
    requires Sized(t) && GoodLayout(t)
    ensures var b, g := Root(id, t), Byte(Root(id, t), X(1));
            && WellFormed(b) && WellFormed(g) && WellTyped(X(1))
            && (forall env: Env :: Address(g, env) == Address(b, env) + AllocSize(t) * SignedValue(X(1), env))
            && (forall env: Env :: TakenAddress(g, MAX_LOOKUP_SEARCH_DEPTH, 64, mz, env) == Address(b, env) + AllocSize(t) * -SignedValue(X(1), env))
            && ((forall env: Env :: ExactPointer(g, MAX_LOOKUP_SEARCH_DEPTH, 64, mz, env)) <==> Cong(2 * AllocSize(t), 0, TWO64))
  {
    ElementGood(id, t);
    forall env: Env
      ensures Address(Byte(Root(id, t), X(1)), env) == Address(Root(id, t), env) + AllocSize(t) * SignedValue(X(1), env)
      ensures TakenAddress(Byte(Root(id, t), X(1)), MAX_LOOKUP_SEARCH_DEPTH, 64, mz, env) == Address(Root(id, t), env) + AllocSize(t) * -SignedValue(X(1), env)
      ensures ExactPointer(Byte(Root(id, t), X(1)), MAX_LOOKUP_SEARCH_DEPTH, 64, mz, env) <==> ExactIndex(AllocSize(t), X(1), 64, mz, env) {
      OneBitAt(id, t, mz, env);
    }
    Pow2Of64();
    LeafIndexExact(AllocSize(t), 0, 1, 64, mz);
  }

  lemma OneBitAt(id: nat, t: Ty, mz: MaskOracle, env: Env)
    requires Sized(t) && GoodLayout(t)
    ensures var b, g := Root(id, t), Byte(Root(id, t), X(1));
            && WellFormed(b) && WellFormed(g) && WellTyped(X(1))
            && Address(g, env) == Address(b, env) + AllocSize(t) * SignedValue(X(1), env)
            && TakenAddress(g, MAX_LOOKUP_SEARCH_DEPTH, 64, mz, env) == Address(b, env) + AllocSize(t) * -SignedValue(X(1), env)
            && (ExactPointer(g, MAX_LOOKUP_SEARCH_DEPTH, 64, mz, env) <==> ExactIndex(AllocSize(t), X(1), 64, mz, env))
  {
    ElementGood(id, t);
    OneIndexExact(Root(id, t), X(1), MAX_LOOKUP_SEARCH_DEPTH, 64, mz, env);
    PlainIndex(AllocSize(t), X(1), 64, mz, env);
  }

  lemma ElementGood(id: nat, t: Ty)
    requires GoodLayout(t)
    ensures WellFormed(Root(id, t)) && WellFormed(Byte(Root(id, t), X(1))) && WellTyped(X(1))
  {
    var g := Byte(Root(id, t), X(1));
    assert g.indices[1..] == [] && GepContainer(g) == ArrayTy(t, 0) && GoodLayout(ArrayTy(t, 0));
    assert ValidIndices(t, []) && LastIndexed(t, []) == t && LastIndexed(ArrayTy(t, 0), g.indices) == t;
    assert ValidIndices(ArrayTy(t, 0), g.indices);
  }
}
