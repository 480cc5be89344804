/**
 Sums, products and shifts with constants, nested over a leaf: the linear form is the polynomial
 they compute. Its coefficients are known from its values at 0 and 1.
 */
module LinearChains {
  import opened Arith
  import opened GepModel
  import opened LinearExpression
  import opened IndexValues
  import opened Decomposition

  /** n operations with constants, one above the other. */
  predicate Chain(e: Expr, n: nat, mz: MaskOracle) {
    n == 0 ||
    (&& e.Binary? && e.rhs.ConstInt? && Chain(e.lhs, n - 1, mz)
     && (e.op == Add || e.op == Mul || e.op == Shl || (e.op == Or && mz(e.lhs, e.rhs.value))))
  }

  /** What they make of a number, over the integers. */
  function Computed(e: Expr, n: nat, mz: MaskOracle, x: int): int
    requires Chain(e, n, mz)
  {
    if n == 0 then x
    else
      var y, c := Computed(e.lhs, n - 1, mz, x), e.rhs.value;
      match e.op
      case Mul => y * c
      case Shl => y * Pow2(c)
      case _ => y + c
  }

  /** What the number is multiplied by. */
  function Slope(e: Expr, n: nat, mz: MaskOracle): int
    requires Chain(e, n, mz)
  {
    Computed(e, n, mz, 1) - Computed(e, n, mz, 0)
  }

  lemma Scaled(y: int, a: int, x: int, b: int, c: int)
    requires y == a * x + b
    ensures y * c == (a * c) * x + b * c
  {
    Distribute(c, a, x, b);
    assert y * c == c * y;
  }

  /** So they compute a polynomial of the first degree. */
  lemma {:induction false} ChainIsLinear(e: Expr, n: nat, mz: MaskOracle, x: int)
    requires Chain(e, n, mz)
    ensures Computed(e, n, mz, x) == Slope(e, n, mz) * x + Computed(e, n, mz, 0)
    decreases n
  {
    if n > 0 {
      ChainIsLinear(e.lhs, n - 1, mz, x);
      var a, b, y, c := Slope(e.lhs, n - 1, mz), Computed(e.lhs, n - 1, mz, 0), Computed(e.lhs, n - 1, mz, x), e.rhs.value;
      if e.op == Mul {
        Scaled(y, a, x, b, c);
        Scaled(a + b, a, 1, b, c);
        assert Slope(e, n, mz) == a * c;
      } else if e.op == Shl {
        Scaled(y, a, x, b, Pow2(c));
        Scaled(a + b, a, 1, b, Pow2(c));
        assert Slope(e, n, mz) == a * Pow2(c);
      }
    }
  }

  lemma ProductMod(x: int, c: int, m: int)
    requires m > 0
    ensures ((x % m) * c) % m == (x * c) % m
  {
    CongMod(x, m);
    CongRefl(c, m);
    CongMul(x % m, x, c, c, m);
    CongModEq((x % m) * c, x * c, m);
  }

  lemma SumMod(x: int, c: int, m: int)
    requires m > 0
    ensures ((x % m) + c) % m == (x + c) % m
  {
    CongMod(x, m);
    CongRefl(c, m);
    CongAdd(x % m, x, c, c, m);
    CongModEq((x % m) + c, x + c, m);
  }

  /**
   The walk goes down to the leaf, within its depth, and scale and offset are the coefficients of
   the polynomial modulo the width. A leaf at the full depth may be anything.
   */
  lemma {:induction false} ChainForm(e: Expr, ext: ExtensionKind, n: nat, fuel: nat, mz: MaskOracle)
    requires WellTyped(e) && Chain(e, n, mz) && n <= fuel && ShiftsInRange(e) && (n < fuel ==> Final(Inner(e, n), ext, mz))
    ensures Residue(e, ext, fuel, mz) == (Inner(e, n), ext)
    ensures WrappedForm(e, ext, fuel, mz) == (Slope(e, n, mz) % Pow2(Width(e)), Computed(e, n, mz, 0) % Pow2(Width(e)))
    decreases n
  {
    var m := Pow2(Width(e));
    if n == 0 {
      Pow2Monotone(1, Width(e));
      ModSmall(1, m);
      ModSmall(0, m);
    } else {
      var c, a, b := e.rhs.value, Slope(e.lhs, n - 1, mz), Computed(e.lhs, n - 1, mz, 0);
      ChainForm(e.lhs, ext, n - 1, fuel - 1, mz);
      if e.op == Mul {
        ProductMod(a, c, m);
        ProductMod(b, c, m);
        assert Slope(e, n, mz) == a * c by { Scaled(a + b, a, 1, b, c); }
      } else if e.op == Shl {
        ShiftIsProduct(a % m, c, Width(e));
        ShiftIsProduct(b % m, c, Width(e));
        ProductMod(a, Pow2(c), m);
        ProductMod(b, Pow2(c), m);
        assert Slope(e, n, mz) == a * Pow2(c) by { Scaled(a + b, a, 1, b, Pow2(c)); }
      } else {
        SumMod(b, c, m);
      }
    }
  }

  /** A product of a 64-bit number read signed is the product, modulo 2^64. */
  lemma SignedScale(x: int, size: int)
    ensures Int64(size * Signed(x % TWO64, 64)) == Int64(size * x)
  {
    Pow2Of64();
    SignedCong(x % TWO64, 64);
    CongMod(x, TWO64);
    CongTrans(Signed(x % TWO64, 64), x % TWO64, x, TWO64);
    CongRefl(size, TWO64);
    CongMul(size, size, Signed(x % TWO64, 64), x, TWO64);
    CongModEq(size * Signed(x % TWO64, 64), size * x, TWO64);
  }

  /** The first entry collected. */
  lemma FirstCollected(size: nat, e: Expr, r: Expr, s: nat, o: nat, mz: MaskOracle)
    requires WellTyped(e) && WellTyped(r) && Width(e) == 64
    requires Residue(e, NotExtended, MAX_DEPTH, mz) == (r, NotExtended) && WrappedForm(e, NotExtended, MAX_DEPTH, mz) == (s, o)
    ensures var scale := Int64(size * Signed(s, 64));
            AfterVariable(size, e, 64, mz, NOTHING) ==
              Collected(Int64(Signed(o, 64) * size), if scale == 0 then [] else [VariableIndex(r, NotExtended, scale)])
  {
    Pow2Of64();
    SignedFits(64);
    var step := size * Signed(s, 64);
    assert Taken([], r, NotExtended) == ([], 0) && Signed(step + 0, 64) == Int64(step);
    assert AfterVariable(size, e, 64, mz, NOTHING) == WithResidue(NOTHING, r, NotExtended, step, Signed(o, 64) * size, 64);
  }

  /** As an index of 64 bits: one entry, for the leaf, at the element size times the coefficients. */
  lemma ChainCollected(size: nat, e: Expr, n: nat, mz: MaskOracle)
    requires WellTyped(e) && Width(e) == 64 && Chain(e, n, mz) && n <= MAX_DEPTH && ShiftsInRange(e)
    requires n < MAX_DEPTH ==> Final(Inner(e, n), NotExtended, mz)
    ensures var scale := Int64(size * Slope(e, n, mz));
            AfterVariable(size, e, 64, mz, NOTHING) ==
              Collected(Int64(size * Computed(e, n, mz, 0)), if scale == 0 then [] else [VariableIndex(Inner(e, n), NotExtended, scale)])
  {
    var a, b := Slope(e, n, mz), Computed(e, n, mz, 0);
    Pow2Of64();
    ChainForm(e, NotExtended, n, MAX_DEPTH, mz);
    NoCastKeepsWidth(e, NotExtended, MAX_DEPTH, mz);
    FirstCollected(size, e, Inner(e, n), a % TWO64, b % TWO64, mz);
    SignedScale(a, size);
    SignedScale(b, size);
  }
}
