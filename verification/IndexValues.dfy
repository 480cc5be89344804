/** What a GEP index is taken for when it is read as a linear form, and when that is its value. */
module IndexValues {
  import opened Arith
  import opened GepModel
  import opened LinearExpression

  /** An index narrower than a pointer is implicitly sign extended. */
  function IndexExtension(index: Expr, p: nat): ExtensionKind {
    if p > Width(index) then SignExtended else NotExtended
  }

  /** What the walk takes an index for. */
  ghost function TakenIndex(index: Expr, p: nat, mz: MaskOracle, env: Env): int
    requires WellTyped(index)
  {
    if index.ConstInt? then SignedValue(index, env) else FormValue(index, IndexExtension(index, p), mz, env)
  }

  /** Times the element size, what the walk takes the index for is its value as far as a pointer can tell. */
  ghost predicate ExactIndex(size: nat, index: Expr, p: nat, mz: MaskOracle, env: Env)
    requires WellTyped(index)
  {
    Cong(size * TakenIndex(index, p, mz, env), size * SignedValue(index, env), Pow2(p))
  }

  /** An index taken for its value modulo the pointer width is exact for elements of every size. */
  lemma TakenForValue(size: nat, index: Expr, p: nat, mz: MaskOracle, env: Env)
    requires WellTyped(index) && Cong(TakenIndex(index, p, mz, env), SignedValue(index, env), Pow2(p))
    ensures ExactIndex(size, index, p, mz, env)
  {
    CongScale(TakenIndex(index, p, mz, env), SignedValue(index, env), size, Pow2(p));
  }

  // ----- When that is so -----

  /** An index as wide as a pointer and read through no cast is exact whatever the values. */
  lemma CastFreeIndex(size: nat, index: Expr, p: nat, mz: MaskOracle, env: Env)
    requires WellTyped(index) && p <= Width(index) && SoundMask(mz) && ShiftsInRange(index) && !index.ConstInt?
    requires Width(Residue(index, NotExtended, MAX_DEPTH, mz).0) == Width(index)
    ensures ExactIndex(size, index, p, mz, env)
  {
    var w, v, form := Width(index), Value(index, env), FormValue(index, NotExtended, mz, env);
    FormCong(index, NotExtended, mz, env);
    SignedCong(v, w);
    CongSym(Signed(v, w), v, Pow2(w));
    CongTrans(form, v, Signed(v, w), Pow2(w));
    CongNarrow(form, Signed(v, w), w, p);
    TakenForValue(size, index, p, mz, env);
  }

  /** Below an extension, with every operation below the casts. */
  ghost predicate FoldsOnce(index: Expr, p: nat, mz: MaskOracle)
    requires WellTyped(index)
  {
    var ext := IndexExtension(index, p);
    !index.ConstInt? && ShiftsInRange(index) && OneWidth(index, ext, MAX_DEPTH, mz) && Residue(index, ext, MAX_DEPTH, mz).1 != NotExtended
  }

  /** The residue's width and extension. */
  ghost function ReadAs(index: Expr, p: nat, mz: MaskOracle): (r: (ExtensionKind, nat))
    requires WellTyped(index)
    ensures r.1 >= 1
  {
    var (r, x) := Residue(index, IndexExtension(index, p), MAX_DEPTH, mz);
    NoCastKeepsWidth(index, IndexExtension(index, p), MAX_DEPTH, mz);
    (x, Width(r))
  }

  /** What the index is taken for is in the range of the residue's width, read as the residue is. */
  ghost predicate TakenInRange(index: Expr, p: nat, mz: MaskOracle, env: Env)
    requires WellTyped(index)
  {
    var (x, n) := ReadAs(index, p, mz);
    InRange(TakenIndex(index, p, mz, env), x, n)
  }

  /** How far out of that range it is, in whole turns. */
  ghost function Excess(index: Expr, p: nat, mz: MaskOracle, env: Env): int
    requires WellTyped(index)
  {
    var (x, n) := ReadAs(index, p, mz);
    TakenIndex(index, p, mz, env) - Folded(TakenIndex(index, p, mz, env), x, n)
  }

  /** It is taken for its value exactly when it is in range, and is exact exactly when the excess times the element size goes round. */
  lemma FoldedIndex(size: nat, index: Expr, p: nat, mz: MaskOracle, env: Env)
    requires WellTyped(index) && SoundMask(mz) && FoldsOnce(index, p, mz)
    ensures TakenIndex(index, p, mz, env) == SignedValue(index, env) <==> TakenInRange(index, p, mz, env)
    ensures SignedValue(index, env) == TakenIndex(index, p, mz, env) - Excess(index, p, mz, env)
    ensures ExactIndex(size, index, p, mz, env) <==> Cong(size * Excess(index, p, mz, env), 0, Pow2(p))
  {
    ValueIsFolded(index, IndexExtension(index, p), mz, env);
    ScaledShift(size, TakenIndex(index, p, mz, env), SignedValue(index, env), Excess(index, p, mz, env), Pow2(p));
  }

  lemma ScaledShift(size: int, taken: int, v: int, excess: int, m: int)
    requires v == taken - excess
    ensures Cong(size * taken, size * v, m) <==> Cong(size * excess, 0, m)
  {
    assert size * taken - size * v == size * excess;
    CongShift(size * taken, size * v, m);
  }

  lemma CongShift(a: int, b: int, m: int)
    ensures Cong(a, b, m) <==> Cong(a - b, 0, m)
  {
    CongRefl(b, m);
    if Cong(a, b, m) {
      CongSub(a, b, b, b, m);
    }
    if Cong(a - b, 0, m) {
      CongAdd(a - b, 0, b, b, m);
    }
  }

  /** Less than one turn out of range, the fold is one turn. */
  lemma OneTurn(x: int, ext: ExtensionKind, n: nat)
    requires n >= 1 && (InRange(x, ext, n) || InRange(x - Pow2(n), ext, n) || InRange(x + Pow2(n), ext, n))
    ensures if InRange(x, ext, n) then Folded(x, ext, n) == x
            else Folded(x, ext, n) == x - Pow2(n) || Folded(x, ext, n) == x + Pow2(n)
  {
    if InRange(x, ext, n) {
      CongRefl(x, Pow2(n));
      FoldedIs(x, x, ext, n);
    } else if InRange(x - Pow2(n), ext, n) {
      CongIntro(x, x - Pow2(n), 1, Pow2(n));
      FoldedIs(x, x - Pow2(n), ext, n);
    } else {
      CongIntro(x, x + Pow2(n), -1, Pow2(n));
      FoldedIs(x, x + Pow2(n), ext, n);
    }
  }

  lemma SignedOne(w: nat)
    requires w >= 1
    ensures Signed(1, w) == (if w == 1 then -1 else 1) && Signed(0, w) == 0
  {
    if w == 1 {
      assert Pow2(0) == 1 && Pow2(1) == 2;
    } else {
      Pow2Monotone(1, w - 1);
      SignedSmall(1, w);
    }
    SignedSmall(0, w);
  }

  /** A sum is taken for its residue and its constant part. */
  lemma SumTaken(index: Expr, p: nat, mz: MaskOracle, env: Env)
    requires WellTyped(index) && FoldsOnce(index, p, mz) && Width(index) >= 2
    requires WrappedForm(index, IndexExtension(index, p), MAX_DEPTH, mz).0 == 1
    ensures var (r, x) := Residue(index, IndexExtension(index, p), MAX_DEPTH, mz);
            var o := WrappedForm(index, IndexExtension(index, p), MAX_DEPTH, mz).1;
            WellTyped(r) && TakenIndex(index, p, mz, env) == Reading(r, x, env) + Signed(o, Width(index))
  {
    NoCastKeepsWidth(index, IndexExtension(index, p), MAX_DEPTH, mz);
    SignedOne(Width(index));
  }

  /** The constant part is read at the index's width, so the sum is at most one turn of the residue's out of range. */
  lemma SumTakenNear(index: Expr, p: nat, mz: MaskOracle, env: Env)
    requires WellTyped(index) && FoldsOnce(index, p, mz) && Width(index) >= 2
    requires WrappedForm(index, IndexExtension(index, p), MAX_DEPTH, mz).0 == 1
    ensures var (x, n) := ReadAs(index, p, mz);
            var taken := TakenIndex(index, p, mz, env);
            InRange(taken, x, n) || InRange(taken - Pow2(n), x, n) || InRange(taken + Pow2(n), x, n)
  {
    var ext, w := IndexExtension(index, p), Width(index);
    var (r, x) := Residue(index, ext, MAX_DEPTH, mz);
    var o := WrappedForm(index, ext, MAX_DEPTH, mz).1;
    NoCastKeepsWidth(index, ext, MAX_DEPTH, mz);
    FormBounds(index, ext, MAX_DEPTH, mz);
    SumTaken(index, p, mz, env);
    ReadingCong(r, x, env);
    OffsetRead(o, Width(r), w);
    NearRange(Reading(r, x, env), Signed(o, w), x, Width(r), w);
  }

  lemma OffsetRead(o: nat, n: nat, w: nat)
    requires 1 <= n <= w && o < Pow2(n)
    ensures n < w ==> Signed(o, w) == o
    ensures n == w ==> InRange(Signed(o, w), SignExtended, n)
  {
    if n < w {
      Pow2Monotone(n, w - 1);
      SignedSmall(o, w);
    }
  }

  lemma NearRange(y: int, d: int, x: ExtensionKind, n: nat, w: nat)
    requires 1 <= n <= w && InRange(y, x, n)
    requires if n < w then 0 <= d < Pow2(n) else x == SignExtended && InRange(d, SignExtended, n)
    ensures InRange(y + d, x, n) || InRange(y + d - Pow2(n), x, n) || InRange(y + d + Pow2(n), x, n)
  {
  }

  /**
   An index of additions below an extension is exact if and only if what it is taken for does
   not leave the range of the residue's width, or the element size makes up for a whole turn.
   */
  lemma SumIndex(size: nat, index: Expr, p: nat, mz: MaskOracle, env: Env)
    requires WellTyped(index) && SoundMask(mz) && FoldsOnce(index, p, mz) && Width(index) >= 2
    requires WrappedForm(index, IndexExtension(index, p), MAX_DEPTH, mz).0 == 1
    ensures ExactIndex(size, index, p, mz, env) <==>
              TakenInRange(index, p, mz, env) || Cong(size * Pow2(ReadAs(index, p, mz).1), 0, Pow2(p))
  {
    var (x, n) := ReadAs(index, p, mz);
    FoldedIndex(size, index, p, mz, env);
    SumTakenNear(index, p, mz, env);
    OneTurn(TakenIndex(index, p, mz, env), x, n);
    CongRefl(0, Pow2(p));
    NegatedTurn(size, Pow2(n), Pow2(p));
  }

  lemma NegatedTurn(size: int, turn: int, m: int)
    ensures Cong(size * turn, 0, m) <==> Cong(size * -turn, 0, m)
  {
    assert size * -turn == -(size * turn);
    if Cong(size * turn, 0, m) {
      CongScale(size * turn, 0, -1, m);
    }
    if Cong(size * -turn, 0, m) {
      CongScale(size * -turn, 0, -1, m);
    }
  }

  /** sext(x + c): exact if and only if the addition does not overflow as a signed one, or the element size makes up for it. */
  lemma SumBelowCast(size: nat, x: Expr, c: nat, w: nat, p: nat, mz: MaskOracle, env: Env)
    requires WellTyped(x) && c < Pow2(Width(x)) && Width(x) < w <= MAX_INT_BITS && p <= w
    requires !CanStep(x, SignExtended, mz) && ShiftsInRange(x) && SoundMask(mz)
    ensures var index := SExt(Binary(Add, x, ConstInt(c, Width(x))), w);
            && WellTyped(index) && TakenIndex(index, p, mz, env) == SignedValue(x, env) + c
            && SignedValue(index, env) == SignedValue(x, env) + c - (if SignedValue(x, env) + c < Pow2(Width(x) - 1) then 0 else Pow2(Width(x)))
            && (ExactIndex(size, index, p, mz, env) <==>
                  SignedValue(x, env) + c < Pow2(Width(x) - 1) || Cong(size * Pow2(Width(x)), 0, Pow2(p)))
  {
    var index := SExt(Binary(Add, x, ConstInt(c, Width(x))), w);
    SumBelowCastTaken(x, c, w, p, mz, env);
    FoldedIndex(size, index, p, mz, env);
    SumIndex(size, index, p, mz, env);
    SumFolded(SignedValue(x, env), c, Width(x));
  }

  /** The walk adds the constant as it stands. */
  lemma SumBelowCastTaken(x: Expr, c: nat, w: nat, p: nat, mz: MaskOracle, env: Env)
    requires WellTyped(x) && c < Pow2(Width(x)) && Width(x) < w <= MAX_INT_BITS && p <= w
    requires !CanStep(x, SignExtended, mz) && ShiftsInRange(x)
    ensures var index := SExt(Binary(Add, x, ConstInt(c, Width(x))), w);
            && WellTyped(index) && TakenIndex(index, p, mz, env) == SignedValue(x, env) + c
            && FoldsOnce(index, p, mz) && ReadAs(index, p, mz) == (SignExtended, Width(x))
            && WrappedForm(index, IndexExtension(index, p), MAX_DEPTH, mz).0 == 1
  {
    var sum := Binary(Add, x, ConstInt(c, Width(x)));
    var index := SExt(sum, w);
    assert WellTyped(sum.rhs) && WellTyped(sum) && WellTyped(index);
    SumSteps(x, c, SignExtended, 5, mz);
    assert Residue(index, NotExtended, 6, mz) == Residue(sum, SignExtended, 5, mz) == (x, SignExtended);
    assert WrappedForm(index, NotExtended, 6, mz) == WrappedForm(sum, SignExtended, 5, mz) == (1, c);
    SignedOne(w);
    Pow2Monotone(Width(x), w - 1);
    SignedSmall(c, w);
  }

  /** A signed value and an unsigned constant of one width. */
  lemma SumFolded(v: int, c: nat, n: nat)
    requires n >= 1 && InRange(v, SignExtended, n) && c < Pow2(n)
    ensures InRange(v + c, SignExtended, n) <==> v + c < Pow2(n - 1)
    ensures Folded(v + c, SignExtended, n) == v + c - if v + c < Pow2(n - 1) then 0 else Pow2(n)
  {
    OneTurn(v + c, SignExtended, n);
  }

  /** x + c narrower than a pointer: exact if and only if the signed addition does not overflow, or the element size makes up for it. */
  lemma SumOfNarrow(size: nat, x: Expr, c: nat, p: nat, mz: MaskOracle, env: Env)
    requires WellTyped(x) && c < Pow2(Width(x)) && 2 <= Width(x) < p
    requires !CanStep(x, SignExtended, mz) && ShiftsInRange(x) && SoundMask(mz)
    ensures var index := Binary(Add, x, ConstInt(c, Width(x)));
            var sum := SignedValue(x, env) + Signed(c, Width(x));
            && WellTyped(index) && TakenIndex(index, p, mz, env) == sum
            && (SignedValue(index, env) == sum <==> InRange(sum, SignExtended, Width(x)))
            && (ExactIndex(size, index, p, mz, env) <==>
                  InRange(sum, SignExtended, Width(x)) || Cong(size * Pow2(Width(x)), 0, Pow2(p)))
  {
    var index := Binary(Add, x, ConstInt(c, Width(x)));
    assert WellTyped(index.rhs) && WellTyped(index);
    SumSteps(x, c, SignExtended, 6, mz);
    SignedOne(Width(x));
    FoldedIndex(size, index, p, mz, env);
    SumIndex(size, index, p, mz, env);
  }

  lemma SumSteps(x: Expr, c: nat, ext: ExtensionKind, fuel: nat, mz: MaskOracle)
    requires WellTyped(x) && c < Pow2(Width(x)) && !CanStep(x, ext, mz) && fuel >= 2
    ensures var sum := Binary(Add, x, ConstInt(c, Width(x)));
            Residue(sum, ext, fuel, mz) == (x, ext) && WrappedForm(sum, ext, fuel, mz) == (1, c)
  {
    var sum := Binary(Add, x, ConstInt(c, Width(x)));
    assert Residue(x, ext, fuel - 1, mz) == (x, ext) && WrappedForm(x, ext, fuel - 1, mz) == (1, 0);
    ModSmall(c, Pow2(Width(x)));
    assert StepOffset(sum, 0) == c;
  }

  /**
   An index the walk cannot look into is exact if it has two bits or more. One of a single bit is
   taken for its negation.
   */
  lemma PlainIndex(size: nat, index: Expr, p: nat, mz: MaskOracle, env: Env)
    requires WellTyped(index) && !index.ConstInt? && !CanStep(index, IndexExtension(index, p), mz)
    ensures Width(index) >= 2 ==> ExactIndex(size, index, p, mz, env)
    ensures Width(index) == 1 && p > 1 ==> TakenIndex(index, p, mz, env) == -SignedValue(index, env)
    ensures Width(index) == 1 && p > 1 ==>
              (ExactIndex(size, index, p, mz, env) <==> Value(index, env) == 0 || Cong(2 * size, 0, Pow2(p)))
  {
    var w, ext, m := Width(index), IndexExtension(index, p), Pow2(p);
    assert Residue(index, ext, 6, mz) == (index, ext) && WrappedForm(index, ext, 6, mz) == (1, 0);
    SignedOne(w);
    ReadingCong(index, ext, env);
    var taken, v := TakenIndex(index, p, mz, env), SignedValue(index, env);
    if w >= 2 {
      PlainTaken(index, p, env);
      TakenForValue(size, index, p, mz, env);
    } else if p > 1 {
      assert taken == -v;
      assert Value(index, env) == 0 || Value(index, env) == 1;
      SignedOne(1);
      assert v == 0 - Value(index, env);
      CongShift(size * taken, size * v, m);
      CongRefl(0, m);
      assert Value(index, env) == 1 ==> size * taken - size * v == 2 * size;
    }
  }

  lemma PlainTaken(index: Expr, p: nat, env: Env)
    requires WellTyped(index)
    ensures Cong(Reading(index, IndexExtension(index, p), env), SignedValue(index, env), Pow2(p))
  {
    var w, v := Width(index), Value(index, env);
    SignedCong(v, w);
    CongSym(Signed(v, w), v, Pow2(w));
    CongRefl(Signed(v, w), Pow2(p));
    if p <= w {
      CongNarrow(v, Signed(v, w), w, p);
    }
  }

  /** For a leaf, two bits or more is the exact condition, but for element sizes that make up for it. */
  lemma LeafIndexExact(size: nat, id: nat, w: nat, p: nat, mz: MaskOracle)
    requires 1 <= w <= MAX_INT_BITS && p > 1
    ensures WellTyped(Opaque(id, w))
    ensures (forall env: Env :: ExactIndex(size, Opaque(id, w), p, mz, env)) <==> w >= 2 || Cong(2 * size, 0, Pow2(p))
  {
    var x := Opaque(id, w);
    forall env: Env
      ensures ExactIndex(size, x, p, mz, env) <==> w >= 2 || Value(x, env) == 0 || Cong(2 * size, 0, Pow2(p)) {
      PlainIndex(size, x, p, mz, env);
    }
    var one := Env(map[x := 1], map[]);
    assert w == 1 ==> Pow2(w) == 2;
    assert w == 1 ==> Value(x, one) == 1;
    assert ExactIndex(size, x, p, mz, one) <==> w >= 2 || Value(x, one) == 0 || Cong(2 * size, 0, Pow2(p));
  }

  // ----- Through casts above operations -----

  /** Wrapping scale and offset on the way to the pointer width loses nothing: a property of the expression alone. */
  ghost predicate ConstantsKept(index: Expr, p: nat, mz: MaskOracle)
    requires WellTyped(index)
  {
    var w, ext := Width(index), IndexExtension(index, p);
    var (s, o) := WrappedForm(index, ext, MAX_DEPTH, mz);
    var (s', o') := IntegerForm(index, ext, MAX_DEPTH, mz);
    Cong(Signed(s, w), s', Pow2(p)) && Cong(Signed(o, w), o', Pow2(p))
  }

  /** Whatever casts and operations it is read through, an index is exact where nothing overflows below an extension. */
  lemma InRangeIndex(size: nat, index: Expr, p: nat, mz: MaskOracle, env: Env)
    requires WellTyped(index) && SoundMask(mz) && !index.ConstInt?
    requires StaysInRange(index, IndexExtension(index, p), MAX_DEPTH, mz, env) && ConstantsKept(index, p, mz)
    ensures ExactIndex(size, index, p, mz, env)
  {
    var w, ext, m := Width(index), IndexExtension(index, p), Pow2(p);
    NoCastKeepsWidth(index, ext, MAX_DEPTH, mz);
    var (r, x) := Residue(index, ext, MAX_DEPTH, mz);
    var (s, o) := WrappedForm(index, ext, MAX_DEPTH, mz);
    var (s', o') := IntegerForm(index, ext, MAX_DEPTH, mz);
    var y := Reading(r, x, env);
    IntegerFormHolds(index, ext, MAX_DEPTH, mz, env);
    ReadingIsIndex(index, s' * y + o', p, env);
    CongSym(SignedValue(index, env), s' * y + o', m);
    CongRefl(y, m);
    CongMul(Signed(s, w), s', y, y, m);
    CongAdd(Signed(s, w) * y, s' * y, Signed(o, w), o', m);
    CongTrans(TakenIndex(index, p, mz, env), s' * y + o', SignedValue(index, env), m);
    TakenForValue(size, index, p, mz, env);
  }

  lemma ReadingIsIndex(index: Expr, form: int, p: nat, env: Env)
    requires WellTyped(index)
    requires var ext := IndexExtension(index, p); Cong(Reading(index, ext, env), form, Modulus(index, ext))
    ensures Cong(SignedValue(index, env), form, Pow2(p))
  {
    var w, v := Width(index), Value(index, env);
    if p > w {
      EquationMod(SignedValue(index, env), form, Pow2(p));
    } else {
      SignedCong(v, w);
      CongTrans(Signed(v, w), v, form, Pow2(w));
      CongNarrow(Signed(v, w), form, w, p);
    }
  }

  /** A narrow index read through no cast: its constants are kept if they fit its width. */
  lemma NarrowIndex(size: nat, index: Expr, p: nat, mz: MaskOracle, env: Env)
    requires WellTyped(index) && !index.ConstInt? && p > Width(index) && ShiftsInRange(index) && SoundMask(mz)
    requires Width(Residue(index, SignExtended, MAX_DEPTH, mz).0) == Width(index)
    requires StaysInRange(index, SignExtended, MAX_DEPTH, mz, env)
    requires var (s, o) := IntegerForm(index, SignExtended, MAX_DEPTH, mz);
             InRange(s, SignExtended, Width(index)) && InRange(o, SignExtended, Width(index))
    ensures ExactIndex(size, index, p, mz, env)
  {
    var w := Width(index);
    WrappedIsInteger(index, SignExtended, MAX_DEPTH, mz);
    var (s, o) := WrappedForm(index, SignExtended, MAX_DEPTH, mz);
    var (s', o') := IntegerForm(index, SignExtended, MAX_DEPTH, mz);
    FoldedIs(s, s', SignExtended, w);
    FoldedIs(o, o', SignExtended, w);
    CongRefl(s', Pow2(p));
    CongRefl(o', Pow2(p));
    InRangeIndex(size, index, p, mz, env);
  }
}
