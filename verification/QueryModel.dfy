/**
 What the recursive alias query sees of the program: pointer expressions, how phis and selects
 are built from other values, and what it asks of analyses outside this model.
 */
module QueryModel {
  import opened AliasResults
  import opened Arith
  import opened GepModel
  import opened LinearExpression
  import opened Decomposition
  import opened OffsetRules
  import opened FieldRule

  type Value = Ptr
  type Block = nat
  type Cond = nat

  datatype Loc = Loc(ptr: Value, size: Size)
  datatype LocPair = LocPair(first: Loc, second: Loc)

  /** How a value is built, besides its pointer expression: phis list a value and a block per incoming edge. */
  datatype Node =
    | Other
    | Phi(block: Block, values: seq<Value>, blocks: seq<Block>)
    | Select(cond: Cond, ifTrue: Value, ifFalse: Value)

  datatype Early = Undecided | Decided(result: AliasResult)

  /** The values of a function and the helpers. position orders values as pointers are ordered. */
  datatype Model = Model(
    values: set<Value>, node: Value -> Node, position: Value -> int,
    isUndef: Value -> bool, isPointer: Value -> bool, isInstruction: Value -> bool,
    isNull: Value -> bool, isDefaultNull: Value -> bool, isConstant: Value -> bool, isArgument: Value -> bool,
    isIdentified: Value -> bool, isFunctionLocal: Value -> bool, isNonNull: Value -> bool,
    isEscapeSource: Value -> bool, isNonEscaping: Value -> bool,
    isSmallerThan: (Value, nat) -> bool, isWholeObject: (Value, nat) -> bool,
    blockReaches: (Block, Value) -> bool,
    isIndexInstruction: Expr -> bool, blockReachesIndex: (Block, Expr) -> bool,
    mask: MaskOracle,
    next: (Loc, Loc) -> AliasResult)                                // the next analysis of the chain

  const UNKNOWN_SIZE: Size := UnknownSize

  const MAX_NUM_PHI_BBS := 20

  // ----- Walks -----

  predicate AllZero(indices: seq<Expr>) {
    forall i | 0 <= i < |indices| :: indices[i].ConstInt? && indices[i].value == 0
  }

  /** Casts, aliases and GEPs without an offset. */
  predicate CanStrip(v: Value) {
    v.Cast? || (v.GlobalAlias? && !v.mayBeOverridden) || (v.Gep? && AllZero(v.indices))
  }

  /** stripPointerCasts. */
  function Strip(v: Value): Value {
    if CanStrip(v) then Strip(Beneath(v)) else v
  }

  function Under(v: Value): Value {
    GetUnderlyingObject(v, MAX_LOOKUP_SEARCH_DEPTH)
  }

  /** Stripping goes down to what is no cast, no alias that stays what it is, and no GEP with indices all 0. */
  lemma {:induction false} StripEnds(v: Value) returns (n: nat)
    ensures Down(v, n, Strip(v))
    ensures !Strip(v).Cast? && (Strip(v).GlobalAlias? ==> Strip(v).mayBeOverridden)
    ensures Strip(v).Gep? ==> exists i :: 0 <= i < |Strip(v).indices| && !(Strip(v).indices[i].ConstInt? && Strip(v).indices[i].value == 0)
  {
    if CanStrip(v) {
      n := StripEnds(Beneath(v));
      n := n + 1;
    } else {
      n := 0;
    }
  }

  /** The underlying object is six pointers down, or fewer and computed from no other. */
  lemma {:induction false} UnderEnds(v: Value, fuel: nat) returns (n: nat)
    ensures n <= fuel && Down(v, n, GetUnderlyingObject(v, fuel))
    ensures n < fuel ==> var o := GetUnderlyingObject(v, fuel); o.Root? || (o.GlobalAlias? && o.mayBeOverridden)
    decreases fuel
  {
    if fuel == 0 || v.Root? || (v.GlobalAlias? && v.mayBeOverridden) {
      n := 0;
    } else {
      n := UnderEnds(Beneath(v), fuel - 1);
      n := n + 1;
    }
  }

  /** Neither a GEP, a phi nor a select: no rule takes it apart. */
  predicate Plain(m: Model, v: Value) {
    !v.Gep? && !Strip(v).Gep? && m.node(Strip(v)).Other?
  }

  /** What a pointer is measured from: its underlying object, or itself. */
  function Anchor(w: Value): Value {
    if w.Gep? then Under(w) else w
  }

  /** The first incoming value for a block. */
  function IncomingFor(values: seq<Value>, blocks: seq<Block>, b: Block): (v: Value)
    requires |values| == |blocks| && b in blocks
    ensures v in values
  {
    if blocks[0] == b then values[0] else IncomingFor(values[1..], blocks[1..], b)
  }

  // ----- Programs -----

  /** Phis have an entry per incoming edge, the same edges throughout a block. */
  ghost predicate PhiGood(m: Model, v: Value) {
    m.node(v).Phi? ==>
      && |m.node(v).values| == |m.node(v).blocks| > 0
      && forall w | w in m.values && m.node(w).Phi? && m.node(w).block == m.node(v).block ::
           forall b | b in m.node(v).blocks :: b in m.node(w).blocks
  }

  /** Two phis of one block take their values over the same edges. */
  ghost predicate PhisTogether(m: Model, v: Value, w: Value) {
    && m.node(v).Phi? && m.node(w).Phi? && m.node(v).block == m.node(w).block
    && |m.node(v).values| == |m.node(v).blocks| && |m.node(w).values| == |m.node(w).blocks|
    && forall b | b in m.node(v).blocks :: b in m.node(w).blocks
  }

  /** The GEP ends in a field of a struct, as the field rule looks for it. */
  predicate EndsInField(v: Value) {
    v.Gep? && |v.indices| >= 2 && RuleStruct(v).StructTy?
  }

  ghost predicate ValueGood(m: Model, v: Value) {
    && WellFormed(v) && PhiGood(m, v)
    && (!m.node(v).Other? ==> v.Root? || v.Simplifiable?)
    && (EndsInField(v) ==> RuleStruct(v).size < TWO63)
  }

  /** The values have everything a query can get to from them. */
  ghost predicate Closed(m: Model) {
    forall v {:trigger LeadsInside(m, v)} | v in m.values :: LeadsInside(m, v)
  }

  ghost predicate LeadsInside(m: Model, v: Value) {
    && Strip(v) in m.values && Under(v) in m.values
    && (m.node(v).Phi? ==> forall w | w in m.node(v).values :: w in m.values)
    && (m.node(v).Select? ==> m.node(v).ifTrue in m.values && m.node(v).ifFalse in m.values)
  }

  ghost predicate ProgramGood(m: Model) {
    && (forall v {:trigger ValueGood(m, v)} | v in m.values :: ValueGood(m, v))
    && (forall v, w | v in m.values && w in m.values && m.position(v) == m.position(w) :: v == w)
    && Closed(m)
  }

  ghost predicate RankGood(m: Model, rank: Value -> nat, v: Value) {
    && rank(Strip(v)) <= rank(v)
    && (v.Gep? ==> rank(Under(v)) < rank(v))
    && (m.node(v).Phi? ==> forall w | w in m.node(v).values :: rank(w) < rank(v))
    && (m.node(v).Select? ==> rank(m.node(v).ifTrue) < rank(v) && rank(m.node(v).ifFalse) < rank(v))
  }

  /** Values are built from values of lower rank: there is no cycle. */
  ghost predicate Acyclic(m: Model, rank: Value -> nat) {
    forall v {:trigger RankGood(m, rank, v)} | v in m.values :: RankGood(m, rank, v)
  }

  /** The index is never negative. */
  predicate UpIndex(index: Expr) {
    (index.ConstInt? && index.width >= 1 && index.value < Pow2(index.width - 1)) || index.ZExt?
  }

  /** No GEP on the walk to the underlying object steps down. */
  predicate Upward(v: Value, fuel: nat) {
    fuel == 0 || v.Root? || (v.GlobalAlias? && v.mayBeOverridden) ||
    ((v.Gep? ==> forall i | 0 <= i < |v.indices| :: UpIndex(v.indices[i])) && Upward(Beneath(v), fuel - 1))
  }

  /** GEPs off a phi, a select or another GEP only step up. */
  ghost predicate NoDescent(m: Model) {
    forall v | v in m.values && v.Gep? && !Plain(m, Under(v)) :: Upward(v, MAX_LOOKUP_SEARCH_DEPTH)
  }

  // ----- Walks keep the address -----

  predicate Steps(v: Value) {
    !v.Root? && !(v.GlobalAlias? && v.mayBeOverridden)
  }

  lemma {:induction false} ZeroIndicesStay(container: Ty, indices: seq<Expr>, env: Env)
    requires ValidIndices(container, indices) && GoodLayout(container) && AllZero(indices)
    ensures IndicesOffset(container, indices, env) == 0
    decreases indices
  {
    if indices != [] {
      SignedSmall(0, Width(indices[0]));
      ZeroIndicesStay(Indexed(container, indices[0]), indices[1..], env);
    }
  }

  lemma StripStep(v: Value, env: Env)
    requires WellFormed(v) && CanStrip(v)
    ensures WellFormed(Beneath(v)) && Address(v, env) == Address(Beneath(v), env)
  {
    if v.Gep? {
      ZeroIndicesStay(GepContainer(v), v.indices, env);
    }
  }

  lemma {:induction false} UnderWellFormed(v: Value, fuel: nat)
    requires WellFormed(v)
    ensures WellFormed(GetUnderlyingObject(v, fuel))
    decreases fuel
  {
    if fuel != 0 && Steps(v) {
      UnderWellFormed(Beneath(v), fuel - 1);
    }
  }

  lemma UpIndexValue(index: Expr, env: Env)
    requires WellTyped(index) && UpIndex(index)
    ensures SignedValue(index, env) >= 0
  {
    var v, w := GepModel.Value(index, env), Width(index);
    if index.ZExt? {
      Pow2Monotone(Width(index.operand), w - 1);
    }
    ModSmall(v, Pow2(w));
  }

  lemma UpIndexMoves(container: Ty, index: Expr, env: Env)
    requires ValidIndex(container, index) && GoodLayout(container) && UpIndex(index)
    ensures IndexOffset(container, index, env) >= 0
  {
    if container.ArrayTy? {
      UpIndexValue(index, env);
      MulMonotone(0, SignedValue(index, env), AllocSize(container.elem));
    }
  }

  lemma {:induction false} UpIndicesMove(container: Ty, indices: seq<Expr>, env: Env)
    requires ValidIndices(container, indices) && GoodLayout(container) && forall i | 0 <= i < |indices| :: UpIndex(indices[i])
    ensures IndicesOffset(container, indices, env) >= 0
    decreases indices
  {
    if indices != [] {
      UpIndexMoves(container, indices[0], env);
      UpIndicesMove(Indexed(container, indices[0]), indices[1..], env);
    }
  }

  /** Stepping up only, a pointer is not below its underlying object. */
  lemma {:induction false} UpwardClimbs(v: Value, fuel: nat, env: Env)
    requires WellFormed(v) && Upward(v, fuel)
    ensures WellFormed(GetUnderlyingObject(v, fuel)) && Address(GetUnderlyingObject(v, fuel), env) <= Address(v, env)
    decreases fuel
  {
    if fuel != 0 && Steps(v) {
      UpwardClimbs(Beneath(v), fuel - 1, env);
      if v.Gep? {
        UpIndicesMove(GepContainer(v), v.indices, env);
      }
    }
  }

  // ----- Kinds of objects -----

  /** What the kinds of two different underlying objects rule out. */
  predicate KindsApart(m: Model, o: Value, p: Value) {
    || (m.isIdentified(o) && m.isIdentified(p))
    || (m.isConstant(o) && m.isIdentified(p) && !m.isConstant(p)) || (m.isConstant(p) && m.isIdentified(o) && !m.isConstant(o))
    || (m.isArgument(o) && m.isFunctionLocal(p)) || (m.isArgument(p) && m.isFunctionLocal(o))
    || (m.isNull(p) && m.isNonNull(o)) || (m.isNull(o) && m.isNonNull(p))
    || (m.isEscapeSource(o) && m.isNonEscaping(p)) || (m.isEscapeSource(p) && m.isNonEscaping(o))
  }

  /** The early tests of aliasCheck on the underlying objects. */
  predicate ObjectsApart(m: Model, v: Value, s: Size, w: Value, t: Size) {
    var o, p := Under(v), Under(w);
    || m.isDefaultNull(o) || m.isDefaultNull(p)
    || (o != p && KindsApart(m, o, p))
    || (s.Known? && m.isSmallerThan(p, s.bytes)) || (t.Known? && m.isSmallerThan(o, t.bytes))
  }

  // ----- Merging -----

  /** MergeAliasResults. */
  function Merge(a: AliasResult, b: AliasResult): AliasResult {
    if a == b then a
    else if (a == PartialAlias && b == MustAlias) || (b == PartialAlias && a == MustAlias) then PartialAlias
    else MayAlias
  }

  /** The accesses overlap. */
  predicate SaysOverlap(r: AliasResult) {
    r == PartialAlias || r == MustAlias
  }

  /** A merged answer says exactly what both parts say. */
  lemma MergeSaysBoth(a: AliasResult, b: AliasResult)
    ensures Merge(a, b) == NoAlias <==> a == b == NoAlias
    ensures Merge(a, b) == MustAlias <==> a == b == MustAlias
    ensures SaysOverlap(Merge(a, b)) <==> SaysOverlap(a) && SaysOverlap(b)
  {
  }

  /** MayAlias absorbs: stopping at it loses nothing. */
  lemma MergeAbsorbs(a: AliasResult, b: AliasResult, c: AliasResult)
    ensures Merge(MayAlias, a) == MayAlias && Merge(a, a) == a && Merge(a, b) == Merge(b, a)
    ensures Merge(Merge(a, b), c) == Merge(a, Merge(b, c))
  {
  }
}
