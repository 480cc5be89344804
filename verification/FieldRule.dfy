/** The rule for two GEPs off the same pointer that end in different fields of one struct. */
module FieldRule {
  import opened AliasResults
  import opened Arith
  import opened GepModel
  import opened OffsetRules

  /** The lambda EltsDontOverlap, in uint64_t arithmetic. */
  predicate EltsDontOverlap(structSize: nat, off1: nat, size1: nat, off2: nat, size2: nat) {
    && off1 < off2
    && (off1 + size1) % TWO64 <= off2
    && ((off2 + size2) % TWO64 <= structSize || ((off2 + size2) % TWO64 - structSize) % TWO64 <= off1)
  }

  predicate FieldRuleAnswersNo(structSize: nat, off1: nat, size1: nat, off2: nat, size2: nat) {
    EltsDontOverlap(structSize, off1, size1, off2, size2) || EltsDontOverlap(structSize, off2, size2, off1, size1)
  }

  /** Byte i of the field at the given offset in element k of an array of structs. */
  function FieldByte(k: int, structSize: nat, off: nat, i: nat): int {
    k * structSize + off + i
  }

  /** No byte is shared, whichever elements of an array of such structs the two fields are in. */
  ghost predicate FieldsApart(structSize: nat, off1: nat, size1: nat, off2: nat, size2: nat) {
    forall k1: int, k2: int, i: nat, j: nat
      | i < size1 && j < size2 :: FieldByte(k1, structSize, off1, i) != FieldByte(k2, structSize, off2, j)
  }

  predicate NoOverflow(off: nat, size: nat) {
    off + size < TWO64
  }

  lemma ApartSymmetric(ss: nat, off1: nat, size1: nat, off2: nat, size2: nat)
    requires FieldsApart(ss, off1, size1, off2, size2)
    ensures FieldsApart(ss, off2, size2, off1, size1)
  {
    forall k1: int, k2: int, i: nat, j: nat | i < size2 && j < size1
      ensures FieldByte(k1, ss, off2, i) != FieldByte(k2, ss, off1, j)
    {
      assert FieldByte(k2, ss, off1, j) != FieldByte(k1, ss, off2, i);
    }
  }

  /** Whole structs further apart only widens the distance. */
  lemma MultipleSteps(k: int, ss: int)
    requires ss >= 0
    ensures k >= 0 ==> k * ss >= 0
    ensures k <= -1 ==> k * ss <= -ss
  {
    MulMonotone(0, k, ss);
    MulMonotone(k, -1, ss);
  }

  lemma OrderedFieldsApart(ss: nat, off1: nat, size1: nat, off2: nat, size2: nat)
    requires off1 < off2 && off1 + size1 <= off2 && off2 + size2 - ss <= off1
    ensures FieldsApart(ss, off1, size1, off2, size2)
  {
    forall k1: int, k2: int, i: nat, j: nat | i < size1 && j < size2
      ensures FieldByte(k1, ss, off1, i) != FieldByte(k2, ss, off2, j)
    {
      MultipleSteps(k2 - k1, ss);
      assert (k2 - k1) * ss == k2 * ss - k1 * ss;
    }
  }

  lemma OrderedFieldsMeet(ss: nat, off1: nat, size1: nat, off2: nat, size2: nat)
    requires off1 < off2 <= ss && size1 > 0 && size2 > 0
    requires off1 + size1 > off2 || off2 + size2 - ss > off1
    ensures !FieldsApart(ss, off1, size1, off2, size2)
  {
    if off1 + size1 > off2 {
      assert FieldByte(0, ss, off1, off2 - off1) == FieldByte(0, ss, off2, 0);
    } else {
      var j := off1 + ss - off2;
      assert FieldByte(1, ss, off1, 0) == FieldByte(0, ss, off2, j);
    }
  }

  /** Without overflow the rule says no exactly when the two fields are apart in every pair of array elements. */
  lemma FieldRuleExact(ss: nat, off1: nat, size1: nat, off2: nat, size2: nat)
    requires off1 <= ss && off2 <= ss && size1 > 0 && size2 > 0
    requires NoOverflow(off1, size1) && NoOverflow(off2, size2) && ss < TWO64
    ensures FieldRuleAnswersNo(ss, off1, size1, off2, size2) <==> FieldsApart(ss, off1, size1, off2, size2)
  {
    if off1 < off2 {
      OrderedFieldRule(ss, off1, size1, off2, size2);
    } else if off2 < off1 {
      OrderedFieldRule(ss, off2, size2, off1, size1);
      if FieldsApart(ss, off1, size1, off2, size2) {
        ApartSymmetric(ss, off1, size1, off2, size2);
      } else if FieldsApart(ss, off2, size2, off1, size1) {
        ApartSymmetric(ss, off2, size2, off1, size1);
      }
    } else {
      assert FieldByte(0, ss, off1, 0) == FieldByte(0, ss, off2, 0);
    }
  }

  /** Without overflow the rule is the comparison of ends. */
  lemma RuleWithoutWrap(ss: nat, off1: nat, size1: nat, off2: nat, size2: nat)
    requires off1 < off2 <= ss < TWO64 && NoOverflow(off1, size1) && NoOverflow(off2, size2)
    ensures EltsDontOverlap(ss, off1, size1, off2, size2) <==> off1 + size1 <= off2 && off2 + size2 - ss <= off1
  {
  }

  lemma OrderedFieldRule(ss: nat, off1: nat, size1: nat, off2: nat, size2: nat)
    requires off1 < off2 <= ss < TWO64 && size1 > 0 && size2 > 0
    requires NoOverflow(off1, size1) && NoOverflow(off2, size2)
    ensures EltsDontOverlap(ss, off1, size1, off2, size2) <==> FieldsApart(ss, off1, size1, off2, size2)
  {
    RuleWithoutWrap(ss, off1, size1, off2, size2);
    if off1 + size1 <= off2 && off2 + size2 - ss <= off1 {
      OrderedFieldsApart(ss, off1, size1, off2, size2);
    } else {
      OrderedFieldsMeet(ss, off1, size1, off2, size2);
    }
  }

  /** Once the rule says no, it is right exactly when neither offset + size overflowed. */
  lemma FieldRuleOverflow(ss: nat, off1: nat, size1: nat, off2: nat, size2: nat)
    requires off1 <= ss && off2 <= ss <= TWO63 && 0 < size1 < TWO64 && 0 < size2 < TWO64
    requires EltsDontOverlap(ss, off1, size1, off2, size2)
    ensures FieldsApart(ss, off1, size1, off2, size2) <==> NoOverflow(off1, size1) && NoOverflow(off2, size2)
  {
    if NoOverflow(off1, size1) && NoOverflow(off2, size2) {
      OrderedFieldRule(ss, off1, size1, off2, size2);
    } else {
      OrderedFieldsMeet(ss, off1, size1, off2, size2);
    }
  }

  /** A size near 2^64 makes the sum wrap: the rule says no and the fields meet. */
  lemma FieldRuleOverflowExample()
    ensures FieldRuleAnswersNo(16, 4, TWO64 - 4, 8, 4) && !FieldsApart(16, 4, TWO64 - 4, 8, 4)
  {
    FieldRuleOverflow(16, 4, TWO64 - 4, 8, 4);
  }

  // ----- Types indexed through -----

  /** The struct reached through arrays only, by all indices but the last. */
  function StructThroughArrays(container: Ty, steps: nat): Ty {
    if steps == 0 then container
    else if container.ArrayTy? then StructThroughArrays(container.elem, steps - 1)
    else Unsized
  }

  lemma {:induction false} SizeOnTheWay(container: Ty, steps: nat)
    requires StructThroughArrays(container, steps).StructTy?
    ensures Divides(StructThroughArrays(container, steps).size, AllocSize(container))
    decreases steps
  {
    var s := StructThroughArrays(container, steps);
    if steps == 0 {
      DividesIntro(s.size, s.size, 1);
    } else {
      SizeOnTheWay(container.elem, steps - 1);
      var q :| AllocSize(container.elem) == Times(q, s.size);
      assert container.count * (q * s.size) == (container.count * q) * s.size;
      DividesIntro(s.size, AllocSize(container), container.count * q);
    }
  }

  /** Such a GEP moves by whole structs plus the offset of the field. */
  lemma {:induction false} FieldOffset(container: Ty, indices: seq<Expr>, env: Env) returns (k: int)
    requires indices != [] && ValidIndices(container, indices) && GoodLayout(container)
    requires StructThroughArrays(container, |indices| - 1).StructTy?
    ensures var s, last := StructThroughArrays(container, |indices| - 1), indices[|indices| - 1];
            && last.ConstInt? && last.value < |s.offsets| && s.offsets[last.value] <= s.size
            && IndicesOffset(container, indices, env) == k * s.size + s.offsets[last.value]
    decreases indices
  {
    var s := StructThroughArrays(container, |indices| - 1);
    if |indices| == 1 {
      k := 0;
      assert indices[1..] == [];
      assert s.offsets[indices[0].value] in s.offsets;
    } else {
      var h := FieldOffset(container.elem, indices[1..], env);
      SizeOnTheWay(container.elem, |indices| - 2);
      var q :| AllocSize(container.elem) == Times(q, s.size);
      var x := SignedValue(indices[0], env);
      k := q * x + h;
      assert indices[1..][|indices| - 2] == indices[|indices| - 1];
      RegroupStructs(AllocSize(container.elem), q, s.size, x, h);
    }
  }

  lemma RegroupStructs(d: int, q: int, size: int, x: int, h: int)
    requires d == q * size
    ensures d * x + h * size == (q * x + h) * size
  {
    assert (q * size) * x == (q * x) * size;
    assert (q * x + h) * size == (q * x) * size + h * size;
  }

  lemma FieldValid(container: Ty, indices: seq<Expr>)
    requires indices != [] && ValidIndices(container, indices) && GoodLayout(container)
    requires StructThroughArrays(container, |indices| - 1).StructTy?
    ensures var s, last := StructThroughArrays(container, |indices| - 1), indices[|indices| - 1];
            last.ConstInt? && last.value < |s.offsets| && s.offsets[last.value] <= s.size
  {
    var k := FieldOffset(container, indices, Env(map[], map[]));
  }

  /** The offsets and size the rule compares, when it applies to the two GEPs. */
  predicate EndInFields(g1: Ptr, g2: Ptr) {
    && g1.Gep? && g2.Gep? && |g1.indices| == |g2.indices| >= 2
    && var n := |g1.indices| - 1;
       && g1.indices[n].ConstInt? && g2.indices[n].ConstInt? && g1.indices[n] != g2.indices[n]
       && StructThroughArrays(GepContainer(g1), n).StructTy?
  }

  function RuleStruct(g: Ptr): Ty
    requires g.Gep? && g.indices != []
  {
    StructThroughArrays(GepContainer(g), |g.indices| - 1)
  }

  ghost function FieldAt(g: Ptr): nat
    requires WellFormed(g) && g.Gep? && |g.indices| >= 2 && RuleStruct(g).StructTy?
  {
    FieldValid(GepContainer(g), g.indices);
    RuleStruct(g).offsets[g.indices[|g.indices| - 1].value]
  }

  /** The accesses stay inside the address space as computed, without wrapping. */
  ghost predicate InSpace(g: Ptr, s: Size, env: Env)
    requires WellFormed(g)
  {
    s.Known? && 0 <= Address(g, env) && Address(g, env) + s.bytes <= TWO64
  }

  lemma ApartMeansNoAlias(g1: Ptr, s1: Size, g2: Ptr, s2: Size, env1: Env, env2: Env)
    requires WellFormed(g1) && WellFormed(g2) && EndInFields(g1, g2) && g1.base == g2.base
    requires Address(g1.base, env1) == Address(g2.base, env2)
    requires InSpace(g1, s1, env1) && InSpace(g2, s2, env2)
    requires FieldsApart(RuleStruct(g1).size, FieldAt(g1), s1.bytes, FieldAt(g2), s2.bytes)
    ensures Meaning(NoAlias, Address(g1, env1), s1, Address(g2, env2), s2)
  {
    var k1 := FieldOffset(GepContainer(g1), g1.indices, env1);
    var k2 := FieldOffset(GepContainer(g2), g2.indices, env2);
    var a1, a2, b, ss := Address(g1, env1), Address(g2, env2), Address(g1.base, env1), RuleStruct(g1).size;
    SameStruct(g1, g2);
    forall n1: nat, n2: nat | Accesses(n1, s1) && Accesses(n2, s2) ensures Disjoint(a1, n1, a2, n2) {
      forall i, j | 0 <= i < n1 && 0 <= j < n2 ensures ByteAt(a1, i) != ByteAt(a2, j) {
        assert FieldByte(k1, ss, FieldAt(g1), i) != FieldByte(k2, ss, FieldAt(g2), j);
        ModSmall(a1 + i, TWO64);
        ModSmall(a2 + j, TWO64);
      }
    }
  }

  lemma SameStruct(g1: Ptr, g2: Ptr)
    requires EndInFields(g1, g2) && g1.base == g2.base
    ensures RuleStruct(g2) == RuleStruct(g1)
  {
  }

  /** aliasSameBasePointerGEPs. */
  method AliasSameBasePointerGEPs(g1: Ptr, s1: Size, g2: Ptr, s2: Size) returns (r: AliasResult)
    requires WellFormed(g1) && WellFormed(g2) && g1.Gep? && g2.Gep? && g1.base == g2.base
    ensures r == NoAlias || r == MayAlias
    ensures r == NoAlias ==> EndInFields(g1, g2) && s1.Known? && s2.Known?
    ensures EndInFields(g1, g2) && s1.Known? && s2.Known? && 0 < s1.bytes && 0 < s2.bytes
            && NoOverflow(FieldAt(g1), s1.bytes) && NoOverflow(FieldAt(g2), s2.bytes) && RuleStruct(g1).size < TWO64 ==>
              (r == NoAlias <==> FieldsApart(RuleStruct(g1).size, FieldAt(g1), s1.bytes, FieldAt(g2), s2.bytes))
  {
    if |g1.indices| != |g2.indices| || |g1.indices| < 2 {
      return MayAlias;
    }
    if s1.UnknownSize? || s2.UnknownSize? {
      return MayAlias;
    }
    var n := |g1.indices| - 1;
    var c1, c2 := g1.indices[n], g2.indices[n];
    if !c1.ConstInt? || !c2.ConstInt? || c1 == c2 {
      return MayAlias;
    }
    var container := GepContainer(g1);
    for i := 0 to n
      invariant StructThroughArrays(GepContainer(g1), n) == StructThroughArrays(container, n - i)
    {
      if !container.ArrayTy? {
        return MayAlias;
      }
      container := container.elem;
    }
    if !container.StructTy? {
      return MayAlias;
    }
    FieldValid(GepContainer(g1), g1.indices);
    FieldValid(GepContainer(g2), g2.indices);
    var off1, off2 := container.offsets[c1.value], container.offsets[c2.value];
    if 0 < s1.bytes && 0 < s2.bytes && NoOverflow(off1, s1.bytes) && NoOverflow(off2, s2.bytes) && container.size < TWO64 {
      FieldRuleExact(container.size, off1, s1.bytes, off2, s2.bytes);
    }
    if FieldRuleAnswersNo(container.size, off1, s1.bytes, off2, s2.bytes) {
      return NoAlias;
    }
    r := MayAlias;
  }
}
