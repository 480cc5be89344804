/** GEPs with one index of 64 bits over bytes. */
module ByteGeps {
  import opened Arith
  import opened GepModel
  import opened LinearExpression
  import opened IndexValues
  import opened Decomposition

  const BYTE: Ty := Scalar(1)
  const BYTES: Ty := ArrayTy(BYTE, 0)

  function Byte(b: Ptr, index: Expr): Ptr { Gep(b, [index]) }

  /** A constant distance. */
  function Fixed(d: int): Expr { ConstInt(d % TWO64, 64) }

  lemma ByteGood(b: Ptr, index: Expr)
    requires WellFormed(b) && Pointee(b) == BYTE && WellTyped(index) && Width(index) == 64
    ensures WellFormed(Byte(b, index)) && Pointee(Byte(b, index)) == BYTE
    ensures ValidIndex(BYTES, index) && ValidIndices(BYTES, [index]) && GoodLayout(BYTES) && GepContainer(Byte(b, index)) == BYTES
  {
    var g := Byte(b, index);
    assert g.indices[1..] == [] && GoodLayout(BYTE);
    assert ValidIndices(BYTE, []) && LastIndexed(BYTE, []) == BYTE;
    assert ValidIndices(BYTES, g.indices) && LastIndexed(BYTES, g.indices) == BYTE;
  }

  lemma ByteAddress(b: Ptr, index: Expr, env: Env)
    requires WellFormed(b) && Pointee(b) == BYTE && WellTyped(index) && Width(index) == 64
    ensures WellFormed(Byte(b, index)) && Address(Byte(b, index), env) == Address(b, env) + SignedValue(index, env)
  {
    ByteGood(b, index);
    assert [index][1..] == [] && IndicesOffset(BYTE, [], env) == 0;
    assert IndexOffset(BYTES, index, env) == SignedValue(index, env);
  }

  lemma FixedValue(d: int, env: Env)
    requires -TWO63 <= d < TWO63
    ensures WellTyped(Fixed(d)) && SignedValue(Fixed(d), env) == Signed(d % TWO64, 64) == d
  {
    Pow2Of64();
    SignedInRange(d, 64);
  }

  lemma OneIndexCollected(b: Ptr, index: Expr, mz: MaskOracle, c: Collected)
    requires WellFormed(b) && Pointee(b) == BYTE && WellTyped(index) && Width(index) == 64 && GoodCollected(c)
    ensures WellFormed(Byte(b, index)) && ValidIndex(BYTES, index) && GoodLayout(BYTES)
    ensures AfterWalk(Byte(b, index), 6, 64, mz, c) == AfterWalk(b, 5, 64, mz, AfterIndex(BYTES, index, 64, mz, c))
    ensures AfterWalk(Byte(b, index), 5, 64, mz, c) == AfterWalk(b, 4, 64, mz, AfterIndex(BYTES, index, 64, mz, c))
  {
    ByteGood(b, index);
    var c' := AfterIndex(BYTES, index, 64, mz, c);
    assert [index][1..] == [] && AfterIndices(BYTE, [], 64, mz, c') == c';
    assert AfterIndices(BYTES, [index], 64, mz, c) == c';
  }

  lemma FixedCollected(d: int, c: Collected, mz: MaskOracle)
    requires -TWO63 <= d < TWO63 && c.offs == 0 && GoodCollected(c) && WellTyped(Fixed(d)) && GoodLayout(BYTES)
    ensures AfterIndex(BYTES, Fixed(d), 64, mz, c) == Collected(d, c.vars)
  {
    FixedValue(d, Env(map[], map[]));
    Pow2Of64();
    SignedSmall(d, 64);
    if d % TWO64 == 0 {
      SignedSmall(0, 64);
    }
  }
}
