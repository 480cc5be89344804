/**
 Integer values, types and pointer expressions as the GEP analysis sees them, with
 the value each denotes. Everything the analysis cannot look into is a leaf whose
 value comes from an environment.
 */
module GepModel {
  import opened Arith

  // ----- Integer values -----

  datatype BinOp = Add | Mul | Shl | Or | OtherOp(code: nat)

  datatype Expr =
    | ConstInt(value: nat, width: nat)
    | Opaque(id: nat, width: nat)
    | Binary(op: BinOp, lhs: Expr, rhs: Expr)
    | SExt(operand: Expr, width: nat)
    | ZExt(operand: Expr, width: nat)

  /** The widest integer type. */
  const MAX_INT_BITS: nat := 0x7F_FFFF

  function Width(e: Expr): nat {
    match e
    case ConstInt(_, w) => w
    case Opaque(_, w) => w
    case Binary(_, lhs, _) => Width(lhs)
    case SExt(_, w) => w
    case ZExt(_, w) => w
  }

  ghost predicate WellTyped(e: Expr) {
    && 1 <= Width(e) <= MAX_INT_BITS
    && match e
       case ConstInt(v, w) => v < Pow2(w)
       case Opaque(_, _) => true
       case Binary(_, lhs, rhs) => WellTyped(lhs) && WellTyped(rhs) && Width(lhs) == Width(rhs)
       case SExt(x, w) => WellTyped(x) && Width(x) < w
       case ZExt(x, w) => WellTyped(x) && Width(x) < w
  }

  /** Values of the leaves: integers by expression, pointers by expression. */
  datatype Env = Env(ints: map<Expr, nat>, ptrs: map<Ptr, int>)

  function LeafValue(e: Expr, env: Env): nat {
    if e in env.ints then env.ints[e] else 0
  }

  /** The unsigned value of e; out-of-range shifts and unknown operations may be anything. */
  ghost function Value(e: Expr, env: Env): (v: nat)
    requires WellTyped(e)
    ensures v < Pow2(Width(e))
  {
    var m := Pow2(Width(e));
    match e
    case ConstInt(v, _) => v
    case Opaque(_, _) => LeafValue(e, env) % m
    case Binary(Add, x, y) => (Value(x, env) + Value(y, env)) % m
    case Binary(Mul, x, y) => (Value(x, env) * Value(y, env)) % m
    case Binary(Shl, x, y) =>
      if Value(y, env) < Width(e) then (Value(x, env) * Pow2(Value(y, env))) % m
      else LeafValue(e, env) % m
    case Binary(Or, x, y) =>
      OrBound(Value(x, env), Value(y, env), Width(e));
      BitOr(Value(x, env), Value(y, env))
    case Binary(OtherOp(_), _, _) => LeafValue(e, env) % m
    case SExt(x, _) => Signed(Value(x, env), Width(x)) % m
    case ZExt(x, _) => Pow2Monotone(Width(x), Width(e)); Value(x, env)
  }

  /** The value read as a two's complement number. */
  ghost function SignedValue(e: Expr, env: Env): int
    requires WellTyped(e)
  {
    Signed(Value(e, env), Width(e))
  }

  /** MaskedValueIsZero: answers true only if no bit of the mask can be set in the value. */
  type MaskOracle = (Expr, nat) -> bool

  ghost predicate SoundMask(mz: MaskOracle) {
    forall x: Expr, c: nat, env: Env | WellTyped(x) && mz(x, c) :: BitAnd(Value(x, env), c) == 0
  }

  // ----- Types -----

  datatype Ty =
    | Scalar(size: nat)
    | ArrayTy(elem: Ty, count: nat)
    | StructTy(fields: seq<Ty>, offsets: seq<nat>, size: nat)
    | Unsized

  function AllocSize(t: Ty): nat {
    match t
    case Scalar(size) => size
    case ArrayTy(elem, count) => count * AllocSize(elem)
    case StructTy(_, _, size) => size
    case Unsized => 0
  }

  predicate Sized(t: Ty) {
    match t
    case Scalar(_) => true
    case ArrayTy(elem, _) => Sized(elem)
    case StructTy(fields, _, _) => forall f | f in fields :: Sized(f)
    case Unsized => false
  }

  /** A struct layout puts field 0 at offset 0 and every field inside the struct. */
  ghost predicate GoodLayout(t: Ty) {
    match t
    case Scalar(_) => true
    case ArrayTy(elem, _) => GoodLayout(elem)
    case StructTy(fields, offsets, size) =>
      && |offsets| == |fields|
      && (|offsets| > 0 ==> offsets[0] == 0)
      && (forall o | o in offsets :: o <= size)
      && (forall f | f in fields :: GoodLayout(f))
    case Unsized => true
  }

  // ----- Indexing -----

  /** The type selected by one index into a container. */
  ghost predicate ValidIndex(container: Ty, index: Expr) {
    && WellTyped(index)
    && Width(index) <= 64
    && (container.ArrayTy? || (container.StructTy? && index.ConstInt? && index.value < |container.fields|))
  }

  function Indexed(container: Ty, index: Expr): Ty
    requires container.ArrayTy? || (container.StructTy? && index.ConstInt? && index.value < |container.fields|)
  {
    if container.ArrayTy? then container.elem else container.fields[index.value]
  }

  ghost predicate ValidIndices(container: Ty, indices: seq<Expr>) {
    indices != [] ==>
      ValidIndex(container, indices[0]) && ValidIndices(Indexed(container, indices[0]), indices[1..])
  }

  function LastIndexed(container: Ty, indices: seq<Expr>): Ty {
    if indices == [] then container
    else if container.ArrayTy? then LastIndexed(container.elem, indices[1..])
    else if container.StructTy? && indices[0].ConstInt? && indices[0].value < |container.fields| then
      LastIndexed(container.fields[indices[0].value], indices[1..])
    else Unsized
  }

  /** Bytes that one index moves the pointer. */
  ghost function IndexOffset(container: Ty, index: Expr, env: Env): int
    requires ValidIndex(container, index) && GoodLayout(container)
  {
    if container.ArrayTy? then AllocSize(container.elem) * SignedValue(index, env)
    else container.offsets[index.value]
  }

  ghost function IndicesOffset(container: Ty, indices: seq<Expr>, env: Env): int
    requires ValidIndices(container, indices) && GoodLayout(container)
  {
    if indices == [] then 0
    else IndexOffset(container, indices[0], env) + IndicesOffset(Indexed(container, indices[0]), indices[1..], env)
  }

  // ----- Pointers -----

  datatype Ptr =
    | Root(id: nat, pointee: Ty)
    | Cast(operand: Ptr, pointee: Ty)
    | GlobalAlias(aliasee: Ptr, mayBeOverridden: bool)
    | Simplifiable(id: nat, simplified: Ptr)
    | Gep(base: Ptr, indices: seq<Expr>)

  function Pointee(p: Ptr): Ty {
    match p
    case Root(_, t) => t
    case Cast(_, t) => t
    case GlobalAlias(q, _) => Pointee(q)
    case Simplifiable(_, q) => Pointee(q)
    case Gep(b, indices) => LastIndexed(ArrayTy(Pointee(b), 0), indices)
  }

  /** The first index steps over whole pointees, as if the base pointed into an array of them. */
  function GepContainer(p: Ptr): Ty
    requires p.Gep?
  {
    ArrayTy(Pointee(p.base), 0)
  }

  ghost predicate WellFormed(p: Ptr) {
    && GoodLayout(Pointee(p))
    && match p
       case Root(_, _) => true
       case Cast(q, _) => WellFormed(q)
       case GlobalAlias(q, _) => WellFormed(q)
       case Simplifiable(_, q) => WellFormed(q)
       case Gep(b, indices) => WellFormed(b) && GoodLayout(Pointee(b)) && ValidIndices(GepContainer(p), indices)
  }

  function RootAddress(p: Ptr, env: Env): int {
    if p in env.ptrs then env.ptrs[p] else 0
  }

  /** The address as an unbounded integer; the machine address is its residue. */
  ghost function Address(p: Ptr, env: Env): int
    requires WellFormed(p)
  {
    match p
    case Root(_, _) => RootAddress(p, env)
    case Cast(q, _) => Address(q, env)
    case GlobalAlias(q, overridden) => if overridden then RootAddress(p, env) else Address(q, env)
    case Simplifiable(_, q) => Address(q, env)
    case Gep(b, indices) => Address(b, env) + IndicesOffset(GepContainer(p), indices, env)
  }
}
