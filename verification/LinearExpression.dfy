/** GetLinearExpression: reading an integer value as Scale * R + Offset. */
module LinearExpression {
  import opened Arith
  import opened GepModel

  datatype ExtensionKind = NotExtended | SignExtended | ZeroExtended

  const MAX_DEPTH: nat := 6

  /** Whether the analysis can step from e into its first operand, and the extension kind it then carries. */
  predicate CanStep(e: Expr, ext: ExtensionKind, mz: MaskOracle) {
    match e
    case Binary(op, lhs, rhs) =>
      rhs.ConstInt? && (op == Add || op == Mul || op == Shl || (op == Or && mz(lhs, rhs.value)))
    case SExt(_, _) => ext != ZeroExtended
    case ZExt(_, _) => ext != SignExtended
    case _ => false
  }

  function StepInto(e: Expr): Expr
    requires e.Binary? || e.SExt? || e.ZExt?
  {
    if e.Binary? then e.lhs else e.operand
  }

  function StepExtension(e: Expr, ext: ExtensionKind): ExtensionKind {
    if e.SExt? then SignExtended else if e.ZExt? then ZeroExtended else ext
  }

  /** The value reached after at most fuel steps. */
  function Residue(e: Expr, ext: ExtensionKind, fuel: nat, mz: MaskOracle): (Expr, ExtensionKind)
  {
    if fuel == 0 || !CanStep(e, ext, mz) then (e, ext)
    else Residue(StepInto(e), StepExtension(e, ext), fuel - 1, mz)
  }

  /** The expression n first operands down. */
  function Inner(e: Expr, n: nat): Expr {
    if n == 0 then e
    else match e
         case Binary(_, lhs, _) => Inner(lhs, n - 1)
         case SExt(x, _) => Inner(x, n - 1)
         case ZExt(x, _) => Inner(x, n - 1)
         case _ => e
  }

  /** No sum, product or shift with a constant, no or of disjoint bits, and a cast only below one of the other kind. */
  predicate Final(e: Expr, ext: ExtensionKind, mz: MaskOracle) {
    match e
    case Binary(op, lhs, ConstInt(c, _)) => op.OtherOp? || (op == Or && !mz(lhs, c))
    case SExt(_, _) => ext == ZeroExtended
    case ZExt(_, _) => ext == SignExtended
    case _ => true
  }

  /** r is at most this many first operands down, and final if it is less. */
  ghost predicate EndsAt(e: Expr, steps: nat, r: Expr, ext: ExtensionKind, mz: MaskOracle) {
    exists n {:trigger Inner(e, n)} :: 0 <= n <= steps && r == Inner(e, n) && (n < steps ==> Final(r, ext, mz))
  }

  /** The walk stops only where it must. */
  lemma {:induction false} ResidueEnds(e: Expr, ext: ExtensionKind, fuel: nat, mz: MaskOracle)
    ensures var (r, x) := Residue(e, ext, fuel, mz); EndsAt(e, fuel, r, x, mz)
    decreases fuel
  {
    if fuel == 0 || !CanStep(e, ext, mz) {
      assert Inner(e, 0) == e;
    } else {
      ResidueEnds(StepInto(e), StepExtension(e, ext), fuel - 1, mz);
      var (r, x) := Residue(e, ext, fuel, mz);
      var n :| 0 <= n <= fuel - 1 && r == Inner(StepInto(e), n) && (n < fuel - 1 ==> Final(r, x, mz));
      assert Inner(e, n + 1) == r;
    }
  }

  /** Constant shifts stay below the width; a larger one has no defined value. */
  predicate ShiftsInRange(e: Expr) {
    match e
    case Binary(op, lhs, rhs) => ShiftsInRange(lhs) && (op == Shl && rhs.ConstInt? ==> rhs.value < Width(e))
    case SExt(x, _) => ShiftsInRange(x)
    case ZExt(x, _) => ShiftsInRange(x)
    case _ => true
  }

  /** APInt::shl by an amount that went through getLimitedValue and an unsigned parameter. */
  function ShiftLeft(x: nat, amount: nat, w: nat): (r: nat)
    ensures r < Pow2(w)
  {
    var limited := if amount < TWO64 then amount else TWO64 - 1;
    var a := limited % 0x1_0000_0000;
    if a >= w then 0 else (x * Pow2(a)) % Pow2(w)
  }

  /** What the linear form promises under one environment. */
  ghost predicate Represents(e: Expr, r: Expr, scale: nat, offset: nat, env: Env)
    requires WellTyped(e) && WellTyped(r)
  {
    Cong(Value(e, env), scale * Value(r, env) + offset, Pow2(Width(r)))
  }

  lemma AddStep(x: int, c: nat, s: nat, o: nat, r: int, w: nat, n: nat)
    requires n <= w && Cong(x, s * r + o, Pow2(n))
    ensures Cong((x + c) % Pow2(w), s * r + (o + c) % Pow2(w), Pow2(n))
  {
    var k, sr := Pow2(n), s * r;
    CongTrunc(x + c, w, n);
    CongTrunc(o + c, w, n);
    CongRefl(c, k);
    CongAdd(x, sr + o, c, c, k);
    CongRefl(sr, k);
    CongAdd(sr, sr, o + c, (o + c) % Pow2(w), k);
    CongTrans((x + c) % Pow2(w), x + c, sr + (o + c), k);
    CongTrans((x + c) % Pow2(w), sr + (o + c), sr + (o + c) % Pow2(w), k);
  }

  lemma Distribute(c: int, s: int, r: int, o: int)
    ensures c * (s * r + o) == (s * c) * r + o * c
  {
    assert c * (s * r) == (s * c) * r;
  }

  lemma ScaleTrunc(a: int, r: int, w: nat, n: nat)
    requires n <= w
    ensures Cong(a * r, a % Pow2(w) * r, Pow2(n))
  {
    CongTrunc(a, w, n);
    CongRefl(r, Pow2(n));
    CongMul(a, a % Pow2(w), r, r, Pow2(n));
  }

  lemma MulStep(x: int, c: nat, s: nat, o: nat, r: int, w: nat, n: nat)
    requires n <= w && Cong(x, s * r + o, Pow2(n))
    ensures Cong((x * c) % Pow2(w), (s * c) % Pow2(w) * r + (o * c) % Pow2(w), Pow2(n))
  {
    var k := Pow2(n);
    var p, q := s * c, o * c;
    CongTrunc(x * c, w, n);
    CongScale(x, s * r + o, c, k);
    Distribute(c, s, r, o);
    assert c * x == x * c;
    CongTrans((x * c) % Pow2(w), x * c, p * r + q, k);
    ScaleTrunc(p, r, w, n);
    CongTrunc(q, w, n);
    CongAdd(p * r, p % Pow2(w) * r, q, q % Pow2(w), k);
    CongTrans((x * c) % Pow2(w), p * r + q, p % Pow2(w) * r + q % Pow2(w), k);
  }

  /** An extension keeps the value modulo the narrower width. */
  lemma ExtensionStep(e: Expr, env: Env)
    requires WellTyped(e) && (e.SExt? || e.ZExt?)
    ensures Cong(Value(e, env), Value(e.operand, env), Pow2(Width(e.operand)))
  {
    var x := e.operand;
    var v := Value(x, env);
    if e.SExt? {
      SignedCong(v, Width(x));
      CongMod(Signed(v, Width(x)), Pow2(Width(e)));
      CongNarrow(Value(e, env), Signed(v, Width(x)), Width(e), Width(x));
      CongTrans(Value(e, env), Signed(v, Width(x)), v, Pow2(Width(x)));
    } else {
      CongRefl(v, Pow2(Width(x)));
    }
  }

  /** An or with a mask of known-zero bits has the value of the sum. */
  lemma SumValue(e: Expr, mz: MaskOracle, env: Env)
    requires SoundMask(mz) && WellTyped(e) && e.Binary? && e.rhs.ConstInt?
    requires e.op == Add || (e.op == Or && mz(e.lhs, e.rhs.value))
    ensures Value(e, env) == (Value(e.lhs, env) + e.rhs.value) % Pow2(Width(e))
  {
    if e.op == Or {
      var x, c := Value(e.lhs, env), e.rhs.value;
      assert BitAnd(x, c) == 0;
      OrOfDisjointIsSum(x, c);
      OrBound(x, c, Width(e));
      ModSmall(x + c, Pow2(Width(e)));
    }
  }

  lemma RepresentsItself(e: Expr, env: Env)
    requires WellTyped(e)
    ensures Represents(e, e, 1, 0, env)
  {
    CongRefl(Value(e, env), Pow2(Width(e)));
  }

  function StepScale(e: Expr, s: nat): nat
    requires e.Binary? && e.rhs.ConstInt?
  {
    if e.op == Mul then (s * e.rhs.value) % Pow2(Width(e))
    else if e.op == Shl then ShiftLeft(s, e.rhs.value, Width(e))
    else s
  }

  function StepOffset(e: Expr, o: nat): nat
    requires e.Binary? && e.rhs.ConstInt?
  {
    if e.op == Mul then (o * e.rhs.value) % Pow2(Width(e))
    else if e.op == Shl then ShiftLeft(o, e.rhs.value, Width(e))
    else (o + e.rhs.value) % Pow2(Width(e))
  }

  lemma ShiftIsProduct(x: nat, c: nat, w: nat)
    requires c < w <= MAX_INT_BITS
    ensures ShiftLeft(x, c, w) == (x * Pow2(c)) % Pow2(w)
  {
  }

  /** The linear form of an operation with a constant, from that of its first operand. */
  lemma BinaryStep(e: Expr, ext: ExtensionKind, r: Expr, s: nat, o: nat, mz: MaskOracle, env: Env)
    requires WellTyped(e) && WellTyped(r) && e.Binary? && CanStep(e, ext, mz) && SoundMask(mz)
    requires e.op == Shl ==> e.rhs.value < Width(e)
    requires Width(r) <= Width(e) && Represents(e.lhs, r, s, o, env)
    ensures Represents(e, r, StepScale(e, s), StepOffset(e, o), env)
  {
    var c, w, n := e.rhs.value, Width(e), Width(r);
    var x, rv := Value(e.lhs, env), Value(r, env);
    if e.op == Mul {
      MulStep(x, c, s, o, rv, w, n);
    } else if e.op == Shl {
      ShiftIsProduct(s, c, w);
      ShiftIsProduct(o, c, w);
      MulStep(x, Pow2(c), s, o, rv, w, n);
    } else {
      SumValue(e, mz, env);
      AddStep(x, c, s, o, rv, w, n);
    }
  }

  ghost predicate RepresentsAlways(e: Expr, r: Expr, scale: nat, offset: nat, mz: MaskOracle)
    requires WellTyped(e) && WellTyped(r)
  {
    SoundMask(mz) && ShiftsInRange(e) ==> forall env: Env :: Represents(e, r, scale, offset, env)
  }

  lemma ExtensionForm(e: Expr, r: Expr, s: nat, o: nat, env: Env)
    requires WellTyped(e) && WellTyped(r) && (e.SExt? || e.ZExt?)
    requires Width(r) <= Width(e.operand) && Represents(e.operand, r, s, o, env)
    ensures Represents(e, r, s, o, env)
  {
    var x := Value(e.operand, env);
    ExtensionStep(e, env);
    CongNarrow(Value(e, env), x, Width(e.operand), Width(r));
    CongTrans(Value(e, env), x, s * Value(r, env) + o, Pow2(Width(r)));
  }

  /** Scale and offset as the walk computes them, wrapped at every width on the way. */
  function WrappedForm(e: Expr, ext: ExtensionKind, fuel: nat, mz: MaskOracle): (nat, nat) {
    if fuel == 0 || !CanStep(e, ext, mz) then (1, 0)
    else
      var (s, o) := WrappedForm(StepInto(e), StepExtension(e, ext), fuel - 1, mz);
      if e.Binary? then (StepScale(e, s), StepOffset(e, o)) else (s, o)
  }

  /** Without a cast the form is exact: the residue is as wide as the value. */
  lemma {:induction false} NoCastKeepsWidth(e: Expr, ext: ExtensionKind, fuel: nat, mz: MaskOracle)
    requires WellTyped(e)
    ensures var (r, x) := Residue(e, ext, fuel, mz);
            && WellTyped(r) && Width(r) <= Width(e)
            && (Width(r) == Width(e) ==> x == ext)
            && (Width(r) < Width(e) ==> x != NotExtended)
            && (ext != NotExtended ==> x == ext)
    decreases fuel
  {
    if fuel > 0 && CanStep(e, ext, mz) {
      NoCastKeepsWidth(StepInto(e), StepExtension(e, ext), fuel - 1, mz);
    }
  }

  /** The wrapped scale and offset make a linear form of the value. */
  lemma {:induction false} FormRepresents(e: Expr, ext: ExtensionKind, fuel: nat, mz: MaskOracle, env: Env)
    requires WellTyped(e) && SoundMask(mz) && ShiftsInRange(e)
    ensures var (r, x) := Residue(e, ext, fuel, mz);
            var (s, o) := WrappedForm(e, ext, fuel, mz);
            WellTyped(r) && Width(r) <= Width(e) && Represents(e, r, s, o, env)
    decreases fuel
  {
    if fuel == 0 || !CanStep(e, ext, mz) {
      RepresentsItself(e, env);
    } else {
      var e', ext' := StepInto(e), StepExtension(e, ext);
      NoCastKeepsWidth(e', ext', fuel - 1, mz);
      FormRepresents(e', ext', fuel - 1, mz, env);
      var (s, o) := WrappedForm(e', ext', fuel - 1, mz);
      if e.Binary? {
        BinaryStep(e, ext, Residue(e', ext', fuel - 1, mz).0, s, o, mz, env);
      } else {
        ExtensionForm(e, Residue(e', ext', fuel - 1, mz).0, s, o, env);
      }
    }
  }

  lemma FormRepresentsAlways(e: Expr, ext: ExtensionKind, fuel: nat, mz: MaskOracle)
    requires WellTyped(e)
    ensures var (r, x) := Residue(e, ext, fuel, mz);
            var (s, o) := WrappedForm(e, ext, fuel, mz);
            WellTyped(r) && Width(r) <= Width(e) && RepresentsAlways(e, r, s, o, mz)
  {
    NoCastKeepsWidth(e, ext, fuel, mz);
    if SoundMask(mz) && ShiftsInRange(e) {
      var r := Residue(e, ext, fuel, mz).0;
      var (s, o) := WrappedForm(e, ext, fuel, mz);
      forall env: Env ensures Represents(e, r, s, o, env) {
        FormRepresents(e, ext, fuel, mz, env);
      }
    }
  }

  /** The walk: scale and offset wrap at every width on the way. */
  method LinearForm(e: Expr, ext: ExtensionKind, depth: nat, mz: MaskOracle)
    returns (r: Expr, scale: nat, offset: nat, extension: ExtensionKind)
    requires WellTyped(e) && depth <= MAX_DEPTH
    ensures (r, extension) == Residue(e, ext, MAX_DEPTH - depth, mz)
    ensures WellTyped(r) && Width(r) <= Width(e)
    ensures scale < Pow2(Width(e)) && offset < Pow2(Width(e))
    ensures (scale, offset) == WrappedForm(e, ext, MAX_DEPTH - depth, mz)
    decreases e
  {
    if depth != MAX_DEPTH {
      if e.Binary? && e.rhs.ConstInt? {
        var c, m := e.rhs.value, Pow2(Width(e));
        if (e.op == Or && mz(e.lhs, c)) || e.op == Add {
          var s, o;
          r, s, o, extension := LinearForm(e.lhs, ext, depth + 1, mz);
          scale, offset := s, (o + c) % m;
          return;
        } else if e.op == Mul {
          var s, o;
          r, s, o, extension := LinearForm(e.lhs, ext, depth + 1, mz);
          scale, offset := (s * c) % m, (o * c) % m;
          return;
        } else if e.op == Shl {
          var s, o;
          r, s, o, extension := LinearForm(e.lhs, ext, depth + 1, mz);
          scale, offset := ShiftLeft(s, c, Width(e)), ShiftLeft(o, c, Width(e));
          return;
        }
      }
      if (e.SExt? && ext != ZeroExtended) || (e.ZExt? && ext != SignExtended) {
        // Scale and Offset have the narrow width inside the call and are zero extended after it.
        var narrow := if e.SExt? then SignExtended else ZeroExtended;
        r, scale, offset, extension := LinearForm(e.operand, narrow, depth + 1, mz);
        Pow2Monotone(Width(e.operand), Width(e));
        return;
      }
    }
    r, scale, offset, extension := e, 1, 0, ext;
    Pow2Monotone(1, Width(e));
  }

  /**
   The residue reached within the remaining depth, with the scale and offset that make
   the value congruent to scale * residue + offset modulo the residue's width. The walk stops
   only where it must.
   */
  method GetLinearExpression(e: Expr, ext: ExtensionKind, depth: nat, mz: MaskOracle)
    returns (r: Expr, scale: nat, offset: nat, extension: ExtensionKind)
    requires WellTyped(e) && depth <= MAX_DEPTH
    ensures (r, extension) == Residue(e, ext, MAX_DEPTH - depth, mz)
    ensures WellTyped(r) && Width(r) <= Width(e)
    ensures scale < Pow2(Width(e)) && offset < Pow2(Width(e))
    ensures (scale, offset) == WrappedForm(e, ext, MAX_DEPTH - depth, mz)
    ensures RepresentsAlways(e, r, scale, offset, mz) && EndsAt(e, MAX_DEPTH - depth, r, extension, mz)
  {
    r, scale, offset, extension := LinearForm(e, ext, depth, mz);
    ResidueEnds(e, ext, MAX_DEPTH - depth, mz);
    FormRepresentsAlways(e, ext, MAX_DEPTH - depth, mz);
  }

  // ----- Through casts -----

  /** The value as the integer it stands for under an extension. */
  ghost function Reading(e: Expr, ext: ExtensionKind, env: Env): int
    requires WellTyped(e)
  {
    if ext == SignExtended then SignedValue(e, env) else Value(e, env)
  }

  /** The result of the operation over the integers, for an operation the walk can step into. */
  function Operated(op: BinOp, x: int, c: int, amount: nat): int {
    match op
    case Mul => x * c
    case Shl => x * Pow2(amount)
    case _ => x + c
  }

  /** The constant operand as the integer it stands for under an extension. */
  function Constant(e: Expr, ext: ExtensionKind): int
    requires e.Binary? && e.rhs.ConstInt? && Width(e.rhs) >= 1
  {
    if ext == SignExtended then Signed(e.rhs.value, Width(e.rhs)) else e.rhs.value
  }

  predicate InRange(x: int, ext: ExtensionKind, w: nat)
    requires w >= 1
  {
    if ext == SignExtended then -Pow2(w - 1) <= x < Pow2(w - 1) else 0 <= x < Pow2(w)
  }

  /** Shifts stay below the width, and below an extension no operation of the walk overflows. */
  ghost predicate StaysInRange(e: Expr, ext: ExtensionKind, fuel: nat, mz: MaskOracle, env: Env)
    requires WellTyped(e)
    decreases fuel
  {
    fuel == 0 || !CanStep(e, ext, mz) ||
    (&& StaysInRange(StepInto(e), StepExtension(e, ext), fuel - 1, mz, env)
     && (e.Binary? && e.op == Shl ==> e.rhs.value < Width(e))
     && (e.Binary? && ext != NotExtended ==>
           InRange(Operated(e.op, Reading(e.lhs, ext, env), Constant(e, ext), e.rhs.value), ext, Width(e))))
  }

  /** Scale and offset over the integers. */
  function IntegerForm(e: Expr, ext: ExtensionKind, fuel: nat, mz: MaskOracle): (int, int) {
    if fuel == 0 || !CanStep(e, ext, mz) then (1, 0)
    else
      var (s, o) := IntegerForm(StepInto(e), StepExtension(e, ext), fuel - 1, mz);
      if e.Binary? && Width(e.rhs) >= 1 then
        (if e.op == Mul || e.op == Shl then Operated(e.op, s, Constant(e, ext), e.rhs.value) else s,
         Operated(e.op, o, Constant(e, ext), e.rhs.value))
      else (s, o)
  }

  /** Below an extension the form is exact; elsewhere it holds modulo the width. A congruence modulo 0 is an equation. */
  function Modulus(e: Expr, ext: ExtensionKind): nat {
    if ext == NotExtended then Pow2(Width(e)) else 0
  }

  lemma SignedInRange(x: int, w: nat)
    requires w >= 1 && InRange(x, SignExtended, w)
    ensures Signed(x % Pow2(w), w) == x
  {
    if x >= 0 {
      ModSmall(x, Pow2(w));
    } else {
      ModNegative(x, Pow2(w));
    }
    ModSmall(x % Pow2(w), Pow2(w));
  }

  /** A product with a number read signed or unsigned is the same modulo the width. */
  lemma SignedProduct(x: int, c: int, w: nat)
    requires w >= 1
    ensures Cong(x * c, Signed(x, w) * Signed(c, w), Pow2(w))
    ensures Cong(x + c, Signed(x, w) + Signed(c, w), Pow2(w))
  {
    SignedCong(x, w);
    SignedCong(c, w);
    CongSym(Signed(x, w), x, Pow2(w));
    CongSym(Signed(c, w), c, Pow2(w));
    CongMul(x, Signed(x, w), c, Signed(c, w), Pow2(w));
    CongAdd(x, Signed(x, w), c, Signed(c, w), Pow2(w));
  }

  /** The operation on unsigned values wraps. */
  lemma OperationWraps(e: Expr, ext: ExtensionKind, mz: MaskOracle, env: Env)
    requires WellTyped(e) && e.Binary? && CanStep(e, ext, mz) && SoundMask(mz) && (e.op == Shl ==> e.rhs.value < Width(e))
    ensures Value(e, env) == Operated(e.op, Value(e.lhs, env), e.rhs.value, e.rhs.value) % Pow2(Width(e))
  {
    if e.op == Add || e.op == Or {
      SumValue(e, mz, env);
    }
  }

  /** On signed numbers the result is the same modulo the width. */
  lemma SignedOperands(op: BinOp, x: int, c: nat, w: nat)
    requires w >= 1
    ensures Cong(Operated(op, x, c, c), Operated(op, Signed(x, w), Signed(c, w), c), Pow2(w))
  {
    SignedProduct(x, c, w);
    SignedCong(x, w);
    CongSym(Signed(x, w), x, Pow2(w));
    CongRefl(Pow2(c), Pow2(w));
    CongMul(x, Signed(x, w), Pow2(c), Pow2(c), Pow2(w));
  }

  lemma OperationExact(e: Expr, ext: ExtensionKind, mz: MaskOracle, env: Env)
    requires WellTyped(e) && e.Binary? && CanStep(e, ext, mz) && SoundMask(mz) && (e.op == Shl ==> e.rhs.value < Width(e))
    requires ext != NotExtended ==>
               InRange(Operated(e.op, Reading(e.lhs, ext, env), Constant(e, ext), e.rhs.value), ext, Width(e))
    ensures Cong(Reading(e, ext, env), Operated(e.op, Reading(e.lhs, ext, env), Constant(e, ext), e.rhs.value), Modulus(e, ext))
  {
    var y := Operated(e.op, Reading(e.lhs, ext, env), Constant(e, ext), e.rhs.value);
    var x, c, m := Value(e.lhs, env), e.rhs.value, Pow2(Width(e));
    OperationWraps(e, ext, mz, env);
    CongMod(Operated(e.op, x, c, c), m);
    if ext == SignExtended {
      SignedOperands(e.op, x, c, Width(e));
      CongTrans(Value(e, env), Operated(e.op, x, c, c), y, m);
    }
    if ext != NotExtended {
      CongModEq(Value(e, env), y, m);
      ModSmall(Value(e, env), m);
      if ext == SignExtended {
        SignedInRange(y, Width(e));
      } else {
        ModSmall(y, m);
      }
      CongRefl(y, 0);
    }
  }

  lemma OperatedForm(op: BinOp, s: int, r: int, o: int, c: int, amount: nat)
    ensures Operated(op, s * r + o, c, amount) ==
              (if op == Mul || op == Shl then Operated(op, s, c, amount) else s) * r + Operated(op, o, c, amount)
  {
    if op == Mul {
      Distribute(c, s, r, o);
    } else if op == Shl {
      Distribute(Pow2(amount), s, r, o);
    }
  }

  lemma OperatedCong(op: BinOp, x: int, y: int, c: int, amount: nat, m: int)
    requires Cong(x, y, m)
    ensures Cong(Operated(op, x, c, amount), Operated(op, y, c, amount), m)
  {
    CongRefl(c, m);
    CongRefl(Pow2(amount), m);
    CongMul(x, y, c, c, m);
    CongMul(x, y, Pow2(amount), Pow2(amount), m);
    CongAdd(x, y, c, c, m);
  }

  /** A cast has the reading of its operand. */
  lemma CastReading(e: Expr, ext: ExtensionKind, env: Env)
    requires WellTyped(e) && ((e.SExt? && ext != ZeroExtended) || (e.ZExt? && ext != SignExtended))
    ensures Cong(Reading(e, ext, env), Reading(StepInto(e), StepExtension(e, ext), env), Modulus(e, ext))
  {
    var x, n, w := Value(e.operand, env), Width(e.operand), Width(e);
    if e.SExt? {
      var y := Signed(x, n);
      Pow2Monotone(n - 1, w - 1);
      SignedInRange(y, w);
      CongMod(y, Pow2(w));
      CongRefl(y, 0);
    } else {
      CongRefl(x, Modulus(e, ext));
    }
  }

  lemma EquationMod(a: int, b: int, m: int)
    requires Cong(a, b, 0)
    ensures Cong(a, b, m)
  {
    var k := CongElim(a, b, 0);
    CongRefl(a, m);
  }

  /**
   Where nothing below an extension overflows, the value is the linear form over the integers:
   exactly under an extension, modulo the width otherwise, through casts too.
   */
  lemma {:induction false} IntegerFormHolds(e: Expr, ext: ExtensionKind, fuel: nat, mz: MaskOracle, env: Env)
    requires WellTyped(e) && SoundMask(mz) && StaysInRange(e, ext, fuel, mz, env)
    ensures var (r, x) := Residue(e, ext, fuel, mz);
            var (s, o) := IntegerForm(e, ext, fuel, mz);
            WellTyped(r) && Cong(Reading(e, ext, env), s * Reading(r, x, env) + o, Modulus(e, ext))
    decreases fuel
  {
    if fuel == 0 || !CanStep(e, ext, mz) {
      CongRefl(Reading(e, ext, env), Modulus(e, ext));
    } else {
      var e', ext' := StepInto(e), StepExtension(e, ext);
      IntegerFormHolds(e', ext', fuel - 1, mz, env);
      var (r, x) := Residue(e', ext', fuel - 1, mz);
      var (s, o) := IntegerForm(e', ext', fuel - 1, mz);
      var y, form := Reading(r, x, env), s * Reading(r, x, env) + o;
      if e.Binary? {
        var c, amount := Constant(e, ext), e.rhs.value;
        OperationExact(e, ext, mz, env);
        OperatedCong(e.op, Reading(e', ext, env), form, c, amount, Modulus(e, ext));
        OperatedForm(e.op, s, y, o, c, amount);
        CongTrans(Reading(e, ext, env), Operated(e.op, Reading(e', ext, env), c, amount), Operated(e.op, form, c, amount), Modulus(e, ext));
      } else {
        CastReading(e, ext, env);
        EquationMod(Reading(e', ext', env), form, Modulus(e, ext));
        CongTrans(Reading(e, ext, env), Reading(e', ext', env), form, Modulus(e, ext));
      }
    }
  }

  /** Without a cast the wrapped form is the integer form modulo the width. */
  lemma {:induction false} WrappedIsInteger(e: Expr, ext: ExtensionKind, fuel: nat, mz: MaskOracle)
    requires WellTyped(e) && Width(Residue(e, ext, fuel, mz).0) == Width(e) && ShiftsInRange(e)
    ensures var (s, o) := WrappedForm(e, ext, fuel, mz);
            var (s', o') := IntegerForm(e, ext, fuel, mz);
            Cong(s, s', Pow2(Width(e))) && Cong(o, o', Pow2(Width(e)))
    decreases fuel
  {
    var m := Pow2(Width(e));
    if fuel == 0 || !CanStep(e, ext, mz) {
      CongRefl(1, m);
      CongRefl(0, m);
    } else {
      NoCastKeepsWidth(StepInto(e), StepExtension(e, ext), fuel - 1, mz);
      WrappedIsInteger(e.lhs, ext, fuel - 1, mz);
      var (s, o) := WrappedForm(e.lhs, ext, fuel - 1, mz);
      var (s', o') := IntegerForm(e.lhs, ext, fuel - 1, mz);
      WrappedStep(e, ext, s, s');
      WrappedStep(e, ext, o, o');
    }
  }

  /** One operation on a scale or an offset. */
  lemma WrappedStep(e: Expr, ext: ExtensionKind, a: nat, b: int)
    requires WellTyped(e) && e.Binary? && e.rhs.ConstInt? && Cong(a, b, Pow2(Width(e)))
    requires e.op == Shl ==> e.rhs.value < Width(e)
    ensures e.op == Mul || e.op == Shl ==> Cong(StepScale(e, a), Operated(e.op, b, Constant(e, ext), e.rhs.value), Pow2(Width(e)))
    ensures Cong(StepOffset(e, a), Operated(e.op, b, Constant(e, ext), e.rhs.value), Pow2(Width(e)))
  {
    var w, c := Width(e), e.rhs.value;
    var m, k := Pow2(w), Constant(e, ext);
    SignedCong(c, w);
    CongRefl(c, m);
    CongSym(k, c, m);
    CongRefl(Pow2(c), m);
    CongMul(a, b, c, k, m);
    CongMul(a, b, Pow2(c), Pow2(c), m);
    CongAdd(a, b, c, k, m);
    CongMod(a * c, m);
    CongMod(a * Pow2(c), m);
    CongMod(a + c, m);
    if e.op == Mul {
      CongTrans((a * c) % m, a * c, b * k, m);
    } else if e.op == Shl {
      ShiftIsProduct(a, c, w);
      CongTrans((a * Pow2(c)) % m, a * Pow2(c), b * Pow2(c), m);
    } else {
      CongTrans((a + c) % m, a + c, b + k, m);
    }
  }

  // ----- Where something overflows below a cast -----

  /** Every operation of the walk is below every cast, at the width of the residue. */
  predicate OneWidth(e: Expr, ext: ExtensionKind, fuel: nat, mz: MaskOracle) {
    fuel == 0 || !CanStep(e, ext, mz) ||
    (if e.Binary? then Width(Residue(e, ext, fuel, mz).0) == Width(e) else OneWidth(StepInto(e), StepExtension(e, ext), fuel - 1, mz))
  }

  /** Then scale and offset have wrapped at that width. */
  lemma {:induction false} FormBounds(e: Expr, ext: ExtensionKind, fuel: nat, mz: MaskOracle)
    requires WellTyped(e) && OneWidth(e, ext, fuel, mz)
    ensures var (r, x) := Residue(e, ext, fuel, mz);
            var (s, o) := WrappedForm(e, ext, fuel, mz);
            WellTyped(r) && 0 <= o < Pow2(Width(r))
    decreases fuel
  {
    NoCastKeepsWidth(e, ext, fuel, mz);
    if fuel > 0 && CanStep(e, ext, mz) && !e.Binary? {
      FormBounds(StepInto(e), StepExtension(e, ext), fuel - 1, mz);
    }
  }

  /** What the walk takes the value for: the wrapped scale and offset, read signed, at the residue as its extension reads it. */
  ghost function FormValue(e: Expr, ext: ExtensionKind, mz: MaskOracle, env: Env): int
    requires WellTyped(e)
  {
    NoCastKeepsWidth(e, ext, MAX_DEPTH, mz);
    var (r, x) := Residue(e, ext, MAX_DEPTH, mz);
    var (s, o) := WrappedForm(e, ext, MAX_DEPTH, mz);
    Signed(s, Width(e)) * Reading(r, x, env) + Signed(o, Width(e))
  }

  /** The number in range that is the same modulo 2^w. */
  function Folded(x: int, ext: ExtensionKind, w: nat): (y: int)
    requires w >= 1
    ensures InRange(y, ext, w)
  {
    if ext == SignExtended then Signed(x, w) else x % Pow2(w)
  }

  lemma FoldedIs(x: int, y: int, ext: ExtensionKind, w: nat)
    requires w >= 1 && Cong(x, y, Pow2(w)) && InRange(y, ext, w)
    ensures Folded(x, ext, w) == y
  {
    CongModEq(x, y, Pow2(w));
    if ext == SignExtended {
      SignedInRange(y, w);
      ModSmall(y % Pow2(w), Pow2(w));
    } else {
      ModSmall(y, Pow2(w));
    }
  }

  lemma ReadingCong(e: Expr, ext: ExtensionKind, env: Env)
    requires WellTyped(e)
    ensures Cong(Reading(e, ext, env), Value(e, env), Pow2(Width(e)))
    ensures InRange(Reading(e, ext, env), ext, Width(e))
  {
    SignedCong(Value(e, env), Width(e));
    CongRefl(Value(e, env), Pow2(Width(e)));
  }

  /** Above the operations there are only casts, which keep the reading. */
  lemma {:induction false} CastsKeepReading(e: Expr, ext: ExtensionKind, fuel: nat, mz: MaskOracle, env: Env)
    requires WellTyped(e) && OneWidth(e, ext, fuel, mz)
    ensures var (r, x) := Residue(e, ext, fuel, mz);
            WellTyped(r) && (x != NotExtended ==> InRange(Reading(e, x, env), x, Width(r)))
    decreases fuel
  {
    NoCastKeepsWidth(e, ext, fuel, mz);
    var x := Residue(e, ext, fuel, mz).1;
    if fuel == 0 || !CanStep(e, ext, mz) || e.Binary? {
      ReadingCong(e, x, env);
    } else {
      var e', ext' := StepInto(e), StepExtension(e, ext);
      CastsKeepReading(e', ext', fuel - 1, mz, env);
      NoCastKeepsWidth(e', ext', fuel - 1, mz);
      CastReading(e, ext', env);
      var k := CongElim(Reading(e, ext', env), Reading(e', ext', env), 0);
    }
  }

  /** A zero extension is not negative, so reading it signed changes nothing. */
  lemma SignedIsReading(e: Expr, ext: ExtensionKind, fuel: nat, mz: MaskOracle, env: Env)
    requires WellTyped(e) && OneWidth(e, ext, fuel, mz) && ext != ZeroExtended
    ensures var x := Residue(e, ext, fuel, mz).1; x != NotExtended ==> SignedValue(e, env) == Reading(e, x, env)
  {
    NoCastKeepsWidth(e, ext, fuel, mz);
    if Residue(e, ext, fuel, mz).1 == ZeroExtended {
      NoCastKeepsWidth(StepInto(e), StepExtension(e, ext), fuel - 1, mz);
      assert e.ZExt?;
      Pow2Monotone(Width(e.operand), Width(e) - 1);
      SignedSmall(Value(e, env), Width(e));
    }
  }

  /** The form is the value modulo the width of the residue. */
  lemma FormCong(e: Expr, ext: ExtensionKind, mz: MaskOracle, env: Env)
    requires WellTyped(e) && SoundMask(mz) && ShiftsInRange(e)
    ensures var r := Residue(e, ext, MAX_DEPTH, mz).0;
            WellTyped(r) && Cong(FormValue(e, ext, mz, env), Value(e, env), Pow2(Width(r)))
  {
    FormRepresents(e, ext, MAX_DEPTH, mz, env);
    var (r, x) := Residue(e, ext, MAX_DEPTH, mz);
    var (s, o) := WrappedForm(e, ext, MAX_DEPTH, mz);
    var w, n := Width(e), Width(r);
    SignedCong(s, w);
    SignedCong(o, w);
    CongNarrow(Signed(s, w), s, w, n);
    CongNarrow(Signed(o, w), o, w, n);
    ReadingCong(r, x, env);
    CongMul(Signed(s, w), s, Reading(r, x, env), Value(r, env), Pow2(n));
    CongAdd(Signed(s, w) * Reading(r, x, env), s * Value(r, env), Signed(o, w), o, Pow2(n));
    CongSym(Value(e, env), s * Value(r, env) + o, Pow2(n));
    CongTrans(FormValue(e, ext, mz, env), s * Value(r, env) + o, Value(e, env), Pow2(n));
  }

  /**
   With every operation below the casts, the value is the form folded into the range of the
   residue's width. So it is the form itself exactly when the form is in that range.
   */
  lemma ValueIsFolded(e: Expr, ext: ExtensionKind, mz: MaskOracle, env: Env)
    requires WellTyped(e) && SoundMask(mz) && ShiftsInRange(e) && ext != ZeroExtended
    requires OneWidth(e, ext, MAX_DEPTH, mz) && Residue(e, ext, MAX_DEPTH, mz).1 != NotExtended
    ensures var (r, x) := Residue(e, ext, MAX_DEPTH, mz);
            var form := FormValue(e, ext, mz, env);
            && WellTyped(r) && SignedValue(e, env) == Folded(form, x, Width(r))
            && (SignedValue(e, env) == form <==> InRange(form, x, Width(r)))
  {
    var (r, x) := Residue(e, ext, MAX_DEPTH, mz);
    var form, v := FormValue(e, ext, mz, env), SignedValue(e, env);
    CastsKeepReading(e, ext, MAX_DEPTH, mz, env);
    SignedIsReading(e, ext, MAX_DEPTH, mz, env);
    FormCong(e, ext, mz, env);
    NoCastKeepsWidth(e, ext, MAX_DEPTH, mz);
    ReadingCong(e, x, env);
    CongNarrow(Reading(e, x, env), Value(e, env), Width(e), Width(r));
    CongSym(Reading(e, x, env), Value(e, env), Pow2(Width(r)));
    CongTrans(form, Value(e, env), v, Pow2(Width(r)));
    FoldedIs(form, v, x, Width(r));
    if InRange(form, x, Width(r)) {
      CongRefl(form, Pow2(Width(r)));
      FoldedIs(form, form, x, Width(r));
    }
  }
}
