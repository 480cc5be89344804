/** aliasGEP: disambiguating a GEP against another pointer, given what is known of the bases. */
module AliasGEP {
  import opened AliasResults
  import opened Arith
  import opened GepModel
  import opened LinearExpression
  import opened IndexValues
  import opened Decomposition
  import opened IndexDifference
  import opened OffsetRules
  import opened FieldRule

  const POINTER_BITS: nat := 64

  /**
   The question: two pointers with access sizes, their underlying objects, and the answers
   of the nested queries on the bases (of unknown size, of the access sizes, and of the base
   against a second pointer that is no GEP).
   */
  datatype Question = Question(g1: Ptr, s1: Size, v2: Ptr, s2: Size, u1: Ptr, u2: Ptr,
                               baseAlias: AliasResult, preciseBaseAlias: AliasResult, directAlias: AliasResult)
  {
    ghost predicate Valid() {
      WellFormed(g1) && g1.Gep? && WellFormed(v2) && WellFormed(u1) && WellFormed(u2)
    }

    /** The first pointer's indices are exact in the first environment, the second's in the second. */
    ghost predicate Exact(mz: MaskOracle, env1: Env, env2: Env) {
      && ExactPointer(g1, MAX_LOOKUP_SEARCH_DEPTH, POINTER_BITS, mz, env1)
      && (v2.Gep? ==> ExactPointer(v2, MAX_LOOKUP_SEARCH_DEPTH, POINTER_BITS, mz, env2))
    }

    /** The walk from p ends at u without running out of depth. */
    predicate Walks(p: Ptr, u: Ptr) {
      LookThrough(p, MAX_LOOKUP_SEARCH_DEPTH) == (u, false)
    }

    /** What the walks from both pointers collect; a second pointer that is no GEP is its own base. */
    ghost function First(mz: MaskOracle): (c: Collected)
      requires Valid()
      ensures GoodCollected(c)
    {
      AfterWalk(g1, MAX_LOOKUP_SEARCH_DEPTH, POINTER_BITS, mz, NOTHING)
    }

    ghost function Second(mz: MaskOracle): (c: Collected)
      requires Valid()
      ensures GoodCollected(c)
    {
      if v2.Gep? then AfterWalk(v2, MAX_LOOKUP_SEARCH_DEPTH, POINTER_BITS, mz, NOTHING) else NOTHING
    }

    /** Their difference: constant part and variables. */
    ghost function Offs(mz: MaskOracle): (d: int)
      requires Valid()
      ensures -TWO63 <= d < TWO63
    {
      Int64(First(mz).offs - Second(mz).offs)
    }

    ghost function Vars(mz: MaskOracle, eqv: EqualityOracle): seq<VariableIndex>
      requires Valid()
    {
      Less(First(mz).vars, Second(mz).vars, eqv)
    }

    /** Both walks end at the underlying objects within the depth. */
    predicate WalksEnd() {
      Walks(g1, u1) && (v2.Gep? ==> Walks(v2, u2))
    }

    /** The bases may alias, but not at the one access size: equal offsets decide. */
    predicate OffsetsMayDecide() {
      v2.Gep? && baseAlias == MayAlias && s1 == s2 && preciseBaseAlias == NoAlias && WalksEnd()
    }

    /** The pointer that the second address is measured from. */
    function Anchor(): Ptr {
      if v2.Gep? then u2 else v2
    }

    /** The walks do not end at the underlying objects, or neither size is known for the offsets to work with. */
    predicate GivesUp() {
      if v2.Gep? then !Walks(g1, u1) || !Walks(v2, u2) else s1.UnknownSize? && s2.UnknownSize?
    }

    /** The nested answer about the bases. */
    function Nested(): AliasResult {
      if v2.Gep? then baseAlias else directAlias
    }

    ghost predicate Says(r: AliasResult, env1: Env, env2: Env)
      requires Valid()
    {
      Meaning(r, Address(g1, env1), s1, Address(v2, env2), s2)
    }
  }

  /** Which reasoning an answer rests on. */
  datatype Reason =
    | Deferred                                            // the nested answer, or MayAlias
    | SameOffsets(vars: seq<VariableIndex>)               // equal offsets from disjoint bases
    | Fields                                              // different fields of one struct
    | Offsets(offs: int, vars: seq<VariableIndex>)        // the symbolic difference

  /** The access sizes, field offsets and struct size of the field rule add up within uint64_t. */
  ghost predicate FieldBounds(q: Question)
    requires q.Valid() && EndInFields(q.g1, q.v2) && q.g1.base == q.v2.base
  {
    && q.s1.Known? && q.s2.Known? && 0 < q.s1.bytes && 0 < q.s2.bytes
    && NoOverflow(FieldAt(q.g1), q.s1.bytes) && NoOverflow(FieldAt(q.v2), q.s2.bytes) && RuleStruct(q.g1).size < TWO64
  }

  /** The common pointer has one address, and both accesses stay inside the address space. */
  ghost predicate FieldPremise(q: Question, env1: Env, env2: Env)
    requires q.Valid() && EndInFields(q.g1, q.v2) && q.g1.base == q.v2.base
  {
    && FieldBounds(q) && Address(q.g1.base, env1) == Address(q.v2.base, env2)
    && InSpace(q.g1, q.s1, env1) && InSpace(q.v2, q.s2, env2)
  }

  /** Both pointers are as far from their bases. */
  ghost predicate SameShift(q: Question, env1: Env, env2: Env)
    requires q.Valid()
  {
    Cong(Address(q.g1, env1) - Address(q.u1, env1), Address(q.v2, env2) - Address(q.u2, env2), TWO64)
  }

  /** The variables have one value in both environments. */
  ghost predicate StillVariables(vars: seq<VariableIndex>, env1: Env, env2: Env) {
    forall x | x in vars :: WellTyped(x.v) ==> Value(x.v, env1) == Value(x.v, env2)
  }

  /** From addresses of anchors that agree modulo 2^64, the pointers differ by offs plus values of the variables. */
  ghost predicate DifferenceIs(q: Question, offs: int, vars: seq<VariableIndex>, xs: seq<int>, env1: Env, env2: Env)
    requires q.Valid() && |xs| == |vars|
  {
    Cong(Address(q.u1, env1), Address(q.Anchor(), env2), TWO64) ==>
      Differ(Address(q.g1, env1), Address(q.v2, env2), offs, vars, xs)
  }

  /** What each reason guarantees in a pair of environments, and under which premise. */
  ghost predicate Justified(q: Question, r: AliasResult, why: Reason, env1: Env, env2: Env)
    requires q.Valid()
  {
    match why
    case Deferred => r == MayAlias || (r != MustAlias && r == q.Nested())
    case SameOffsets(vars) =>
      && r == NoAlias && q.v2.Gep? && q.s1 == q.s2 && q.baseAlias == MayAlias && q.preciseBaseAlias == NoAlias
      && (StillVariables(vars, env1, env2) ==> SameShift(q, env1, env2))
    case Fields =>
      && r == NoAlias && EndInFields(q.g1, q.v2) && q.g1.base == q.v2.base && q.s1.Known? && q.s2.Known?
      && (FieldPremise(q, env1, env2) ==> q.Says(r, env1, env2))
    case Offsets(offs, vars) =>
      && q.Nested() == MustAlias && r != MayAlias && (r == MustAlias <==> offs == 0 && vars == [])
      && (Plausible(q.s1) && Plausible(q.s2) ==>
            (r == NoAlias <==> SoundAnswer(NoAlias, offs, vars, q.s1, q.s2) && !GivesUp(offs, vars, q.s1, q.s2)))
      && (exists xs: seq<int> :: |xs| == |vars| && DifferenceIs(q, offs, vars, xs, env1, env2))
      && (Cong(Address(q.u1, env1), Address(q.Anchor(), env2), TWO64) ==> q.Says(r, env1, env2))
  }

  /** Where the walks are exact, each pointer is its anchor and what was collected on the way. */
  lemma BothDecompose(q: Question, mz: MaskOracle, env1: Env, env2: Env)
    requires q.Valid() && q.WalksEnd() && q.Exact(mz, env1, env2)
    ensures Decomposes(q.g1, q.u1, q.First(mz), POINTER_BITS, env1) && Decomposes(q.v2, q.Anchor(), q.Second(mz), POINTER_BITS, env2)
  {
    WalkDecomposes(q.g1, POINTER_BITS, mz, env1);
    if q.v2.Gep? {
      WalkDecomposes(q.v2, POINTER_BITS, mz, env2);
    } else {
      CongRefl(Address(q.v2, env2), Pow2(POINTER_BITS));
    }
  }

  lemma Subtract(a1: int, u1: int, o1: int, t1: int, a2: int, u2: int, o2: int, t2: int, offs: int, mixed: int)
    requires Cong(a1, u1 + o1 + t1, TWO64) && Cong(a2, u2 + o2 + t2, TWO64) && Cong(u1, u2, TWO64)
    requires Cong(offs, o1 - o2, TWO64) && Cong(mixed, t1 - t2, TWO64)
    ensures Cong(a1, a2 + offs + mixed, TWO64)
  {
    var m := TWO64;
    var k1 := CongElim(a1, u1 + o1 + t1, m);
    var k2 := CongElim(a2, u2 + o2 + t2, m);
    var k3 := CongElim(u1, u2, m);
    var k4 := CongElim(offs, o1 - o2, m);
    var k5 := CongElim(mixed, t1 - t2, m);
    CongIntro(a1, a2 + offs + mixed, k1 - k2 + k3 - k4 - k5, m);
  }

  /** The rules applied to the subtracted decompositions. */
  lemma OffsetsJustified(q: Question, r: AliasResult, c1: Collected, c2: Collected,
                         offs: int, vars: seq<VariableIndex>, fromSrc: seq<bool>, env1: Env, env2: Env)
    requires q.Valid() && GoodIndices(c1.vars) && GoodIndices(c2.vars) && GoodIndices(vars) && |fromSrc| == |vars|
    requires Decomposes(q.g1, q.u1, c1, POINTER_BITS, env1) && Decomposes(q.v2, q.Anchor(), c2, POINTER_BITS, env2)
    requires Cong(offs, c1.offs - c2.offs, TWO64)
    requires Cong(MixedSum(vars, fromSrc, env1, env2), Sum(c1.vars, env1) - Sum(c2.vars, env2), TWO64)
    requires SoundAnswer(r, offs, vars, q.s1, q.s2)
    ensures var xs := MixedValues(vars, fromSrc, env1, env2); DifferenceIs(q, offs, vars, xs, env1, env2)
    ensures Cong(Address(q.u1, env1), Address(q.Anchor(), env2), TWO64) ==> q.Says(r, env1, env2)
  {
    Pow2Of64();
    if Cong(Address(q.u1, env1), Address(q.Anchor(), env2), TWO64) {
      Subtract(Address(q.g1, env1), Address(q.u1, env1), c1.offs, Sum(c1.vars, env1),
               Address(q.v2, env2), Address(q.Anchor(), env2), c2.offs, Sum(c2.vars, env2),
               offs, MixedSum(vars, fromSrc, env1, env2));
      assert Differ(Address(q.g1, env1), Address(q.v2, env2), offs, vars, MixedValues(vars, fromSrc, env1, env2));
    }
  }

  /** Moving both ranges by the same distance keeps them apart. */
  lemma ShiftDisjoint(a: int, n: nat, b: int, m: nat, a': int, b': int, d: int)
    requires Disjoint(a, n, b, m) && Cong(a', a + d, TWO64) && Cong(b', b + d, TWO64)
    ensures Disjoint(a', n, b', m)
  {
    var k1 := CongElim(a', a + d, TWO64);
    var k2 := CongElim(b', b + d, TWO64);
    forall i, j | 0 <= i < n && 0 <= j < m ensures ByteAt(a', i) != ByteAt(b', j) {
      SameByte(a, i, b, j);
      SameByte(a', i, b', j);
      assert ByteAt(a, i) != ByteAt(b, j);
      if Cong(a' + i, b' + j, TWO64) {
        var k := CongElim(a' + i, b' + j, TWO64);
        CongIntro(a + i, b + j, k - k1 + k2, TWO64);
      }
    }
  }

  lemma {:induction false} StillSum(vars: seq<VariableIndex>, env1: Env, env2: Env)
    requires GoodIndices(vars) && StillVariables(vars, env1, env2)
    ensures Sum(vars, env1) == Sum(vars, env2)
    decreases |vars|
  {
    if vars != [] {
      StillSum(vars[..|vars| - 1], env1, env2);
      assert vars[|vars| - 1] in vars;
    }
  }

  lemma SameOffsetsShift(q: Question, c: Collected, env1: Env, env2: Env)
    requires q.Valid() && GoodIndices(c.vars) && StillVariables(c.vars, env1, env2)
    requires Decomposes(q.g1, q.u1, c, POINTER_BITS, env1) && Decomposes(q.v2, q.u2, c, POINTER_BITS, env2)
    ensures SameShift(q, env1, env2)
  {
    Pow2Of64();
    StillSum(c.vars, env1, env2);
    var a1, a2, b1, b2 := Address(q.g1, env1), Address(q.v2, env2), Address(q.u1, env1), Address(q.u2, env2);
    var d := c.offs + Sum(c.vars, env1);
    CongRefl(b1, TWO64);
    CongRefl(b2, TWO64);
    CongSub(a1, b1 + c.offs + Sum(c.vars, env1), b1, b1, TWO64);
    CongSub(a2, b2 + c.offs + Sum(c.vars, env2), b2, b2, TWO64);
    CongSym(a2 - b2, d, TWO64);
    CongTrans(a1 - b1, d, a2 - b2, TWO64);
  }

  /** Bases apart at the access size leave pointers as far from them apart. */
  lemma ShiftSays(q: Question, env: Env)
    requires q.Valid() && SameShift(q, env, env)
    requires Meaning(NoAlias, Address(q.u1, env), q.s1, Address(q.u2, env), q.s2)
    ensures q.Says(NoAlias, env, env)
  {
    var a1, a2, b1, b2 := Address(q.g1, env), Address(q.v2, env), Address(q.u1, env), Address(q.u2, env);
    CongRefl(a1, TWO64);
    CongRefl(b2, TWO64);
    CongSym(a1 - b1, a2 - b2, TWO64);
    CongAdd(b2, b2, a2 - b2, a1 - b1, TWO64);
    forall n1: nat, n2: nat | Accesses(n1, q.s1) && Accesses(n2, q.s2) ensures Disjoint(a1, n1, a2, n2) {
      ShiftDisjoint(b1, n1, b2, n2, a1, a2, a1 - b1);
    }
  }

  lemma FieldsJustified(q: Question, env1: Env, env2: Env)
    requires q.Valid() && EndInFields(q.g1, q.v2) && q.g1.base == q.v2.base && q.s1.Known? && q.s2.Known?
    requires FieldBounds(q) ==> FieldsApart(RuleStruct(q.g1).size, FieldAt(q.g1), q.s1.bytes, FieldAt(q.v2), q.s2.bytes)
    ensures Justified(q, NoAlias, Fields, env1, env2)
  {
    if FieldPremise(q, env1, env2) {
      ApartMeansNoAlias(q.g1, q.s1, q.v2, q.s2, env1, env2);
    }
  }

  ghost predicate AlwaysJustified(q: Question, r: AliasResult, why: Reason, mz: MaskOracle, eqv: EqualityOracle)
    requires q.Valid()
  {
    forall env1: Env, env2: Env | Agree(eqv, env1, env2) && q.Exact(mz, env1, env2) :: Justified(q, r, why, env1, env2)
  }

  /** The rules on the difference of the two decompositions, with the guarantee in every pair of environments. */
  method DecideByOffsets(q: Question, c1: Collected, c2: Collected, mz: MaskOracle, eqv: EqualityOracle)
    returns (r: AliasResult, ghost why: Reason)
    requires q.Valid() && q.Nested() == MustAlias && q.WalksEnd() && AcceptsOnlyIdentical(eqv)
    requires c1 == q.First(mz) && c2 == q.Second(mz)
    ensures why == Offsets(q.Offs(mz), q.Vars(mz, eqv)) && AlwaysJustified(q, r, why, mz, eqv)
    ensures r != MayAlias && (q.s2.UnknownSize? ==> r != NoAlias)
  {
    var offs, vars; ghost var fromSrc;
    r, offs, vars, fromSrc := RulesOnDifference(c1, c2, q.s1, q.s2, eqv);
    why := Offsets(offs, vars);
    OffsetsAlways(q, r, c1, c2, offs, vars, fromSrc, mz, eqv);
  }

  /** The variables denote the difference of what two walks collected, wherever two environments agree. */
  ghost predicate Subtracts(c1: Collected, c2: Collected, vars: seq<VariableIndex>, fromSrc: seq<bool>, eqv: EqualityOracle)
    requires GoodIndices(c1.vars) && GoodIndices(c2.vars) && GoodIndices(vars) && |fromSrc| == |vars|
  {
    DenotesDifference(c1.vars, c2.vars, vars, fromSrc, eqv)
  }

  /** What the rules promise of a difference. */
  ghost predicate RulesSay(r: AliasResult, offs: int, vars: seq<VariableIndex>, s1: Size, s2: Size) {
    && SoundAnswer(r, offs, vars, s1, s2) && r != MayAlias && (r == MustAlias <==> offs == 0 && vars == [])
    && (Plausible(s1) && Plausible(s2) ==> (r == NoAlias <==> SoundAnswer(NoAlias, offs, vars, s1, s2) && !GivesUp(offs, vars, s1, s2)))
    && (s2.UnknownSize? ==> r != NoAlias)
  }

  /** The subtraction and the rules. */
  method RulesOnDifference(c1: Collected, c2: Collected, s1: Size, s2: Size, eqv: EqualityOracle)
    returns (r: AliasResult, offs: int, vars: seq<VariableIndex>, ghost fromSrc: seq<bool>)
    requires GoodCollected(c1) && GoodCollected(c2) && AcceptsOnlyIdentical(eqv)
    ensures offs == Int64(c1.offs - c2.offs) && vars == Less(c1.vars, c2.vars, eqv) && GoodIndices(vars) && |fromSrc| == |vars|
    ensures Subtracts(c1, c2, vars, fromSrc, eqv) && RulesSay(r, offs, vars, s1, s2)
  {
    offs := Int64(c1.offs - c2.offs);
    vars, fromSrc := GetIndexDifference(c1.vars, c2.vars, eqv);
    r := ApplyOffsetRules(offs, vars, s1, s2);
  }

  lemma OffsetsAt(q: Question, r: AliasResult, c1: Collected, c2: Collected, offs: int, vars: seq<VariableIndex>, fromSrc: seq<bool>,
                  mz: MaskOracle, eqv: EqualityOracle, env1: Env, env2: Env)
    requires q.Valid() && q.Nested() == MustAlias && q.WalksEnd() && GoodIndices(vars) && |fromSrc| == |vars|
    requires c1 == q.First(mz) && c2 == q.Second(mz) && Cong(offs, c1.offs - c2.offs, TWO64)
    requires Subtracts(c1, c2, vars, fromSrc, eqv) && RulesSay(r, offs, vars, q.s1, q.s2)
    requires Agree(eqv, env1, env2) && q.Exact(mz, env1, env2)
    ensures Justified(q, r, Offsets(offs, vars), env1, env2)
  {
    BothDecompose(q, mz, env1, env2);
    assert Cong(MixedSum(vars, fromSrc, env1, env2), Sum(c1.vars, env1) - Sum(c2.vars, env2), TWO64);
    OffsetsJustified(q, r, c1, c2, offs, vars, fromSrc, env1, env2);
  }

  lemma OffsetsAlways(q: Question, r: AliasResult, c1: Collected, c2: Collected, offs: int, vars: seq<VariableIndex>, fromSrc: seq<bool>,
                      mz: MaskOracle, eqv: EqualityOracle)
    requires q.Valid() && q.Nested() == MustAlias && q.WalksEnd() && GoodIndices(vars) && |fromSrc| == |vars|
    requires c1 == q.First(mz) && c2 == q.Second(mz) && offs == Int64(c1.offs - c2.offs)
    requires Subtracts(c1, c2, vars, fromSrc, eqv) && RulesSay(r, offs, vars, q.s1, q.s2)
    ensures AlwaysJustified(q, r, Offsets(offs, vars), mz, eqv)
  {
    Int64Cong(c1.offs - c2.offs);
    forall env1: Env, env2: Env | Agree(eqv, env1, env2) && q.Exact(mz, env1, env2)
      ensures Justified(q, r, Offsets(offs, vars), env1, env2) {
      OffsetsAt(q, r, c1, c2, offs, vars, fromSrc, mz, eqv, env1, env2);
    }
  }

  lemma SameOffsetsJustified(q: Question, mz: MaskOracle)
    requires q.Valid() && q.v2.Gep? && q.s1 == q.s2 && q.baseAlias == MayAlias && q.preciseBaseAlias == NoAlias
    requires q.WalksEnd() && q.First(mz) == q.Second(mz)
    ensures forall eqv :: AlwaysJustified(q, NoAlias, SameOffsets(q.First(mz).vars), mz, eqv)
  {
    var vars := q.First(mz).vars;
    forall env1: Env, env2: Env | q.Exact(mz, env1, env2) ensures Justified(q, NoAlias, SameOffsets(vars), env1, env2) {
      BothDecompose(q, mz, env1, env2);
      if StillVariables(vars, env1, env2) {
        SameOffsetsShift(q, q.First(mz), env1, env2);
      }
    }
  }

  /** Equal offsets from bases that do not alias at the access sizes. */
  method DecideBySameOffsets(q: Question, mz: MaskOracle) returns (decided: bool, r: AliasResult, ghost why: Reason)
    requires q.Valid() && q.v2.Gep? && q.s1 == q.s2 && q.baseAlias == MayAlias && q.preciseBaseAlias == NoAlias
    ensures decided <==> !q.WalksEnd() || q.First(mz) == q.Second(mz)
    ensures decided ==> if q.WalksEnd() then r == NoAlias && why == SameOffsets(q.First(mz).vars) else r == MayAlias && why == Deferred
    ensures decided ==> forall eqv :: AlwaysJustified(q, r, why, mz, eqv)
  {
    var base2, offs2, vars2, reached2 := DecomposeGEPExpression(q.v2, POINTER_BITS, mz);
    var base1, offs1, vars1, reached1 := DecomposeGEPExpression(q.g1, POINTER_BITS, mz);
    if base1 != q.u1 || base2 != q.u2 || reached2 || reached1 {
      return true, MayAlias, Deferred;
    }
    if offs1 == offs2 && vars1 == vars2 {
      SameOffsetsJustified(q, mz);
      return true, NoAlias, SameOffsets(vars1);
    }
    decided, r, why := false, MayAlias, Deferred;
  }

  /** When the answer must come from the fields or the offsets rather than from the nested queries. */
  predicate Decidable(q: Question) {
    && q.Walks(q.g1, q.u1)
    && if q.v2.Gep? then q.Walks(q.v2, q.u2) && q.baseAlias == MustAlias
       else q.directAlias == MustAlias && !(q.s1.UnknownSize? && q.s2.UnknownSize?)
  }

  /** What the answer to a question promises, and when it is forced. */
  ghost predicate Outcome(q: Question, r: AliasResult, why: Reason, mz: MaskOracle, eqv: EqualityOracle)
    requires q.Valid()
  {
    && AlwaysJustified(q, r, why, mz, eqv)
    && (Decidable(q) ==> why.Fields? || why.Offsets?)
    && (Decidable(q) && EndInFields(q.g1, q.v2) && q.g1.base == q.v2.base && FieldBounds(q) ==>
          (why == Fields <==> FieldsApart(RuleStruct(q.g1).size, FieldAt(q.g1), q.s1.bytes, FieldAt(q.v2), q.s2.bytes)))
    && (why == Deferred && q.Nested() != MustAlias && !q.GivesUp() ==> r == q.Nested())
    && (!q.v2.Gep? && q.Nested() != MustAlias ==> why == Deferred)
    && (why.SameOffsets? <==> q.OffsetsMayDecide() && q.First(mz) == q.Second(mz))
    && (why.SameOffsets? ==> why == SameOffsets(q.First(mz).vars))
    && (why.Offsets? ==> why == Offsets(q.Offs(mz), q.Vars(mz, eqv)) && (q.s2.UnknownSize? ==> r != NoAlias))
  }

  /** The decision, with what it rests on. */
  method Decide(q: Question, mz: MaskOracle, eqv: EqualityOracle) returns (r: AliasResult, ghost why: Reason)
    requires q.Valid() && AcceptsOnlyIdentical(eqv)
    ensures Outcome(q, r, why, mz, eqv)
  {
    if q.v2.Gep? {
      if q.baseAlias == MayAlias && q.s1 == q.s2 && q.preciseBaseAlias == NoAlias {
        var decided;
        decided, r, why := DecideBySameOffsets(q, mz);
        if decided {
          assert AlwaysJustified(q, r, why, mz, eqv);
          return;
        }
      }
      if q.baseAlias != MustAlias {
        return q.baseAlias, Deferred;
      }
      r, why := DecideFromOneBase(q, mz, eqv);
    } else {
      if q.s1.UnknownSize? && q.s2.UnknownSize? {
        return MayAlias, Deferred;
      }
      if q.directAlias != MustAlias {
        return q.directAlias, Deferred;
      }
      r, why := DecideFromPointer(q, mz, eqv);
    }
  }

  /** When the bases must alias, giving up needs a reason. */
  lemma GivingUp(q: Question, mz: MaskOracle, eqv: EqualityOracle)
    requires q.Valid() && q.Nested() == MustAlias && !Decidable(q)
    ensures Outcome(q, MayAlias, Deferred, mz, eqv)
  {
  }

  lemma FromOffsets(q: Question, r: AliasResult, why: Reason, mz: MaskOracle, eqv: EqualityOracle)
    requires q.Valid() && q.Nested() == MustAlias && AlwaysJustified(q, r, why, mz, eqv)
    requires why == Offsets(q.Offs(mz), q.Vars(mz, eqv)) && (q.s2.UnknownSize? ==> r != NoAlias)
    requires EndInFields(q.g1, q.v2) && q.g1.base == q.v2.base && FieldBounds(q) ==>
               !FieldsApart(RuleStruct(q.g1).size, FieldAt(q.g1), q.s1.bytes, FieldAt(q.v2), q.s2.bytes)
    ensures Outcome(q, r, why, mz, eqv)
  {
  }

  lemma FromFields(q: Question, mz: MaskOracle, eqv: EqualityOracle)
    requires q.Valid() && q.v2.Gep? && q.Nested() == MustAlias && AlwaysJustified(q, NoAlias, Fields, mz, eqv)
    requires EndInFields(q.g1, q.v2) && q.g1.base == q.v2.base && FieldBounds(q) ==>
               FieldsApart(RuleStruct(q.g1).size, FieldAt(q.g1), q.s1.bytes, FieldAt(q.v2), q.s2.bytes)
    ensures Outcome(q, NoAlias, Fields, mz, eqv)
  {
  }

  /** Two GEPs off one pointer. */
  method DecideByFields(q: Question) returns (r: AliasResult)
    requires q.Valid() && q.v2.Gep? && q.g1.base == q.v2.base
    ensures r == NoAlias || r == MayAlias
    ensures r == NoAlias ==> forall mz, eqv :: AlwaysJustified(q, NoAlias, Fields, mz, eqv)
    ensures EndInFields(q.g1, q.v2) && FieldBounds(q) ==>
              (r == NoAlias <==> FieldsApart(RuleStruct(q.g1).size, FieldAt(q.g1), q.s1.bytes, FieldAt(q.v2), q.s2.bytes))
  {
    r := AliasSameBasePointerGEPs(q.g1, q.s1, q.v2, q.s2);
    if r == NoAlias {
      forall env1: Env, env2: Env ensures Justified(q, NoAlias, Fields, env1, env2) {
        FieldsJustified(q, env1, env2);
      }
    }
  }

  /** Two GEPs whose bases must alias: their fields, then their offsets. */
  method DecideFromOneBase(q: Question, mz: MaskOracle, eqv: EqualityOracle) returns (r: AliasResult, ghost why: Reason)
    requires q.Valid() && AcceptsOnlyIdentical(eqv) && q.v2.Gep? && q.baseAlias == MustAlias
    ensures Outcome(q, r, why, mz, eqv)
  {
    var base1, offs1, vars1, reached1 := DecomposeGEPExpression(q.g1, POINTER_BITS, mz);
    var base2, offs2, vars2, reached2 := DecomposeGEPExpression(q.v2, POINTER_BITS, mz);
    if base1 != q.u1 || base2 != q.u2 {
      GivingUp(q, mz, eqv);
      return MayAlias, Deferred;
    }
    if q.g1.base == q.v2.base {
      r := DecideByFields(q);
      if r != MayAlias {
        FromFields(q, mz, eqv);
        return NoAlias, Fields;
      }
    }
    if reached2 || reached1 {
      GivingUp(q, mz, eqv);
      return MayAlias, Deferred;
    }
    r, why := DecideByOffsets(q, Collected(offs1, vars1), Collected(offs2, vars2), mz, eqv);
    FromOffsets(q, r, why, mz, eqv);
  }

  /** A GEP and a pointer that must alias its base: the offsets. */
  method DecideFromPointer(q: Question, mz: MaskOracle, eqv: EqualityOracle) returns (r: AliasResult, ghost why: Reason)
    requires q.Valid() && AcceptsOnlyIdentical(eqv) && !q.v2.Gep? && q.directAlias == MustAlias
    ensures Outcome(q, r, why, mz, eqv)
  {
    var base1, offs1, vars1, reached1 := DecomposeGEPExpression(q.g1, POINTER_BITS, mz);
    if base1 != q.u1 || reached1 {
      GivingUp(q, mz, eqv);
      return MayAlias, Deferred;
    }
    r, why := DecideByOffsets(q, Collected(offs1, vars1), NOTHING, mz, eqv);
    FromOffsets(q, r, why, mz, eqv);
  }

  /** A question that must be decided and whose walks differ by a constant, not about two fields of one struct. */
  lemma ConstantOutcome(q: Question, r: AliasResult, why: Reason, mz: MaskOracle, eqv: EqualityOracle, env: Env)
    requires q.Valid() && Outcome(q, r, why, mz, eqv) && Decidable(q) && q.Exact(mz, env, env) && q.Vars(mz, eqv) == []
    requires !(EndInFields(q.g1, q.v2) && q.g1.base == q.v2.base)
    ensures r == MustAlias <==> q.Offs(mz) == 0
    ensures Plausible(q.s1) && Plausible(q.s2) ==>
              (r == NoAlias <==> SoundAnswer(NoAlias, q.Offs(mz), [], q.s1, q.s2) && !GivesUp(q.Offs(mz), [], q.s1, q.s2))
  {
    assert Agree(eqv, env, env);
    assert Justified(q, r, why, env, env);
  }

  // ----- From true answers about the bases -----

  /** The nested answers are true in one environment. An access of unknown size may touch anything from the pointer on. */
  ghost predicate NestedAnswersTrue(q: Question, env: Env)
    requires q.Valid()
  {
    if q.v2.Gep? then
      && Meaning(q.baseAlias, Address(q.u1, env), UnknownSize, Address(q.u2, env), UnknownSize)
      && Meaning(q.preciseBaseAlias, Address(q.u1, env), q.s1, Address(q.u2, env), q.s2)
    else
      Meaning(q.directAlias, Address(q.u1, env), UnknownSize, Address(q.v2, env), q.s2)
  }

  /** Every byte accessed at d from a base is one that an access of unknown size at the base may touch. */
  predicate Forward(d: int, s: Size) {
    s.Known? && d + s.bytes <= TWO63
  }

  /** Where the bases decide: the GEPs access nothing below their bases. */
  ghost predicate AccessForward(q: Question, env: Env)
    requires q.Valid()
  {
    && Forward(Gap(Address(q.g1, env), Address(q.u1, env)), q.s1)
    && (q.v2.Gep? ==> Forward(Gap(Address(q.v2, env), Address(q.u2, env)), q.s2))
  }

  lemma BasesDecide(q: Question, env: Env)
    requires q.Valid() && NestedAnswersTrue(q, env) && q.Nested() == NoAlias && AccessForward(q, env)
    ensures q.Says(NoAlias, env, env)
  {
    var a1, a2, b1, b2 := Address(q.g1, env), Address(q.v2, env), Address(q.u1, env), Address(q.u2, env);
    forall n1: nat, n2: nat | Accesses(n1, q.s1) && Accesses(n2, q.s2) ensures Disjoint(a1, n1, a2, n2) {
      if q.v2.Gep? {
        assert Accesses(TWO63, UnknownSize);
        PartDisjoint(a1, n1, b1, TWO63, b2, TWO63);
        PartDisjoint(a2, n2, b2, TWO63, a1, n1);
      } else {
        assert Accesses(TWO63, UnknownSize);
        PartDisjoint(a1, n1, b1, TWO63, a2, n2);
      }
    }
  }

  /**
   The condition is exact: NoAlias for the base holds for the GEP at distance d, whatever the
   addresses, if and only if the access ends within 2^63 bytes of the base.
   */
  lemma ForwardExact(d: int, n1: nat, n2: nat)
    requires 0 <= d < TWO64 && 0 < n1 <= TWO63 && 0 < n2 <= TWO63
    ensures (forall b1: int, b2: int | Meaning(NoAlias, b1, UnknownSize, b2, Known(n2)) ::
               Meaning(NoAlias, b1 + d, Known(n1), b2, Known(n2)))
            <==> Forward(d, Known(n1))
  {
    if Forward(d, Known(n1)) {
      forall b1: int, b2: int | Meaning(NoAlias, b1, UnknownSize, b2, Known(n2))
        ensures Meaning(NoAlias, b1 + d, Known(n1), b2, Known(n2)) {
        ForwardKeeps(d, n1, b1, b2, n2);
      }
    } else {
      BackwardMeets(d, n1, n2);
    }
  }

  lemma ForwardKeeps(d: int, n1: nat, b1: int, b2: int, n2: nat)
    requires 0 <= d < TWO64 && Forward(d, Known(n1)) && Meaning(NoAlias, b1, UnknownSize, b2, Known(n2))
    ensures Meaning(NoAlias, b1 + d, Known(n1), b2, Known(n2))
  {
    forall k1: nat, k2: nat | Accesses(k1, Known(n1)) && Accesses(k2, Known(n2)) ensures Disjoint(b1 + d, k1, b2, k2) {
      assert Accesses(TWO63, UnknownSize);
      PartDisjoint(b1 + d, k1, b1, TWO63, b2, k2);
    }
  }

  /** A byte further away, or below the base, may be the other pointer's. */
  lemma BackwardMeets(d: int, n1: nat, n2: nat)
    requires 0 <= d < TWO64 && 0 < n1 <= TWO63 && 0 < n2 <= TWO63 && d + n1 > TWO63
    ensures exists b2: int :: Meaning(NoAlias, 0, UnknownSize, b2, Known(n2)) && !Meaning(NoAlias, 0 + d, Known(n1), b2, Known(n2))
  {
    var x := if d >= TWO63 then d else d + n1 - 1;
    var b2 := if x + n2 <= TWO64 then x else TWO64 - n2;
    forall k1: nat, k2: nat | Accesses(k1, UnknownSize) && Accesses(k2, Known(n2)) ensures Disjoint(0, k1, b2, k2) {
      if k1 > 0 && k2 > 0 {
        DisjointIffGap(0, k1, b2, k2);
      }
    }
    assert Meaning(NoAlias, 0, UnknownSize, b2, Known(n2));
    assert ByteAt(d, x - d) == ByteAt(b2, x - b2);
    assert Accesses(n1, Known(n1)) && Accesses(n2, Known(n2));
    assert !Disjoint(d, n1, b2, n2);
  }

  /** End to end: from true nested answers, every answer is true for every value of the variables. */
  lemma EndToEnd(q: Question, r: AliasResult, why: Reason, env: Env)
    requires q.Valid() && Justified(q, r, why, env, env) && NestedAnswersTrue(q, env)
    requires why == Fields ==> FieldPremise(q, env, env)
    requires why == Deferred && r == NoAlias ==> AccessForward(q, env)
    ensures q.Says(r, env, env)
  {
    if why == Deferred && r == NoAlias {
      BasesDecide(q, env);
    } else if why.SameOffsets? {
      ShiftSays(q, env);
    }
  }

  /** When the GEPs could be told apart by their fields: one common address, and no access leaves the address space. */
  ghost predicate FieldsFit(q: Question, env: Env)
    requires q.Valid()
  {
    EndInFields(q.g1, q.v2) && q.g1.base == q.v2.base ==> FieldPremise(q, env, env)
  }

  /** The premises of the end-to-end property in one environment. */
  ghost predicate Supported(q: Question, mz: MaskOracle, env: Env)
    requires q.Valid()
  {
    q.Exact(mz, env, env) && NestedAnswersTrue(q, env) && FieldsFit(q, env) && (q.Nested() == NoAlias ==> AccessForward(q, env))
  }

  /**
   aliasGEP. Every answer is justified in every pair of environments that agree where the
   equality oracle says values are equal: one environment twice is the ordinary case, two
   different ones are two turns of a cycle. In one environment, from true answers about the
   bases, the answer is true for every value of the variables.
   */
  method AliasGEP(q: Question, mz: MaskOracle, eqv: EqualityOracle) returns (r: AliasResult, ghost why: Reason)
    requires q.Valid() && AcceptsOnlyIdentical(eqv)
    ensures forall env: Env {:trigger q.Says(r, env, env)} | Supported(q, mz, env) :: q.Says(r, env, env)
    ensures Outcome(q, r, why, mz, eqv)
  {
    r, why := Decide(q, mz, eqv);
    forall env: Env | Supported(q, mz, env) ensures q.Says(r, env, env) {
      assert Agree(eqv, env, env);
      assert Justified(q, r, why, env, env);
      EndToEnd(q, r, why, env);
    }
  }
}
