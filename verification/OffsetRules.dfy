/**
 The rules that turn a symbolic difference of two pointers into an alias answer, on the
 circle of 2^64 byte addresses.
 */
module OffsetRules {
  import opened Arith
  import opened GepModel
  import opened LinearExpression
  import opened Decomposition
  import opened IndexDifference
  import opened AliasResults

  datatype Size = Known(bytes: nat) | UnknownSize

  // ----- Byte ranges on the circle -----

  function ByteAt(a: int, i: int): int { (a + i) % TWO64 }

  /** No byte of the n bytes at a is one of the m bytes at b. */
  ghost predicate Disjoint(a: int, n: nat, b: int, m: nat) {
    forall i, j | 0 <= i < n && 0 <= j < m :: ByteAt(a, i) != ByteAt(b, j)
  }

  /** How far a lies after b, going round. */
  function Gap(a: int, b: int): (d: int)
    ensures 0 <= d < TWO64
  {
    (a - b) % TWO64
  }

  lemma GapSplit(a: int, b: int) returns (k: int)
    ensures a - b == Gap(a, b) + k * TWO64
  {
    k := (a - b) / TWO64;
  }

  lemma SameByte(a: int, i: int, b: int, j: int)
    ensures ByteAt(a, i) == ByteAt(b, j) <==> Cong(a + i, b + j, TWO64)
  {
    CongModEq(a + i, b + j, TWO64);
  }

  lemma GapSuffices(a: int, n: nat, b: int, m: nat)
    requires m <= Gap(a, b) && n <= TWO64 - Gap(a, b)
    ensures Disjoint(a, n, b, m)
  {
    var k := GapSplit(a, b);
    forall i, j | 0 <= i < n && 0 <= j < m ensures ByteAt(a, i) != ByteAt(b, j) {
      SameByte(a, i, b, j);
      if Cong(a + i, b + j, TWO64) {
        var q := CongElim(a + i, b + j, TWO64);
        assert false;
      }
    }
  }

  /** Two non-empty ranges are disjoint exactly when each ends before the other starts again. */
  lemma DisjointIffGap(a: int, n: nat, b: int, m: nat)
    requires n > 0 && m > 0
    ensures Disjoint(a, n, b, m) <==> m <= Gap(a, b) && n <= TWO64 - Gap(a, b)
  {
    var d := Gap(a, b);
    var k := GapSplit(a, b);
    if m <= d && n <= TWO64 - d {
      GapSuffices(a, n, b, m);
    } else if m > d {
      CongIntro(a + 0, b + d, k, TWO64);
      SameByte(a, 0, b, d);
    } else {
      CongIntro(a + (TWO64 - d), b + 0, k + 1, TWO64);
      SameByte(a, TWO64 - d, b, 0);
    }
  }

  /** Part of a range shares no byte with what the whole range shares none with. */
  lemma PartDisjoint(a: int, n: nat, b: int, m: nat, c: int, k: nat)
    requires Disjoint(b, m, c, k) && Gap(a, b) + n <= m
    ensures Disjoint(a, n, c, k) && Disjoint(c, k, a, n)
  {
    var q := GapSplit(a, b);
    forall i, j | 0 <= i < n && 0 <= j < k ensures ByteAt(a, i) != ByteAt(c, j) {
      SameByte(a, i, b, Gap(a, b) + i);
      CongIntro(a + i, b + (Gap(a, b) + i), q, TWO64);
      assert ByteAt(b, Gap(a, b) + i) != ByteAt(c, j);
    }
    DisjointSymmetric(a, n, c, k);
  }

  lemma DisjointSymmetric(a: int, n: nat, b: int, m: nat)
    requires Disjoint(a, n, b, m)
    ensures Disjoint(b, m, a, n)
  {
    forall i, j | 0 <= i < m && 0 <= j < n ensures ByteAt(b, i) != ByteAt(a, j) {
      assert ByteAt(a, j) != ByteAt(b, i);
    }
  }

  /** An access of n bytes through a location of the given size. No access covers more than half the address space. */
  ghost predicate Accesses(n: nat, s: Size) {
    n <= TWO63 && (s.Known? ==> n <= s.bytes)
  }

  /** What an answer says about two addresses. */
  ghost predicate Meaning(r: AliasResult, a1: int, s1: Size, a2: int, s2: Size) {
    && (r == MustAlias ==> Cong(a1, a2, TWO64))
    && (r == NoAlias ==> forall n1: nat, n2: nat | Accesses(n1, s1) && Accesses(n2, s2) :: Disjoint(a1, n1, a2, n2))
  }

  // ----- The lowest set bit of the scales -----

  ghost predicate DividesAll(d: int, vars: seq<VariableIndex>) {
    forall i | 0 <= i < |vars| :: Divides(d, vars[i].scale)
  }

  /** The modulus is 2^k, and the powers of two that divide every scale are those up to it. */
  ghost predicate IsLargestPower(modulo: nat, k: nat, vars: seq<VariableIndex>) {
    modulo == Pow2(k) && k < 64 && forall j: nat | j <= 64 :: DividesAll(Pow2(j), vars) <==> j <= k
  }

  /** Or of all scales, then its lowest set bit: the largest power of two dividing every scale. */
  method ScaleModulo(vars: seq<VariableIndex>) returns (modulo: nat, ghost k: nat, ghost least: nat)
    requires GoodIndices(vars) && vars != []
    ensures IsLargestPower(modulo, k, vars)
    ensures exists e: nat :: IsLargestPower(modulo, e, vars)
    ensures least < |vars| && DividesAll(Pow2(k), vars) && !Divides(Pow2(k + 1), vars[least].scale)
  {
    var bits: nat := 0;
    forall j: nat | j <= 64 ensures Divides(Pow2(j), 0) {
      DividesIntro(Pow2(j), 0, 0);
    }
    for i := 0 to |vars|
      invariant forall j: nat | j <= 64 :: Divides(Pow2(j), bits) <==> DividesAll(Pow2(j), vars[..i])
      invariant bits < Pow2(64) && (i > 0 ==> bits != 0)
    {
      Pow2Of64();
      var u := vars[i].scale % TWO64;
      forall j: nat | j <= 64 ensures Divides(Pow2(j), BitOr(bits, u)) <==> DividesAll(Pow2(j), vars[..i + 1]) {
        DividesOr(bits, u, j);
        DividesCast(vars[i].scale, j);
        DividesAllSnoc(Pow2(j), vars, i);
      }
      OrBound(bits, u, 64);
      OrNonZero(bits, u);
      NonZeroCast(vars[i].scale);
      bits := BitOr(bits, u);
    }
    assert vars[..|vars|] == vars;
    k := LowBit(bits);
    IsolateLowBit(bits);
    modulo := BitXor(bits, BitAnd(bits, bits - 1));
    forall j: nat | j <= 64 ensures DividesAll(Pow2(j), vars) <==> j <= k {
      LowBitLargest(bits, j);
    }
    LowBitSmall(bits, 64);
    assert !DividesAll(Pow2(k + 1), vars);
    least :| 0 <= least < |vars| && !Divides(Pow2(k + 1), vars[least].scale);
    assert IsLargestPower(modulo, k, vars);
  }

  lemma DividesAllSnoc(d: int, vars: seq<VariableIndex>, i: nat)
    requires i < |vars|
    ensures DividesAll(d, vars[..i + 1]) <==> DividesAll(d, vars[..i]) && Divides(d, vars[i].scale)
  {
    assert vars[..i + 1] == vars[..i] + [vars[i]];
    if DividesAll(d, vars[..i + 1]) {
      forall h | 0 <= h < i ensures Divides(d, vars[..i][h].scale) {
        assert vars[..i][h] == vars[..i + 1][h];
      }
      assert vars[..i + 1][i] == vars[i];
    }
  }

  lemma OrNonZero(a: nat, b: nat)
    requires a != 0 || b != 0
    ensures BitOr(a, b) != 0
    decreases a + b
  {
    if a != 0 && b != 0 && a % 2 == 0 && b % 2 == 0 {
      OrNonZero(a / 2, b / 2);
    }
  }

  lemma NonZeroCast(x: int)
    requires -TWO63 <= x < TWO63 && x != 0
    ensures x % TWO64 != 0
  {
  }

  lemma LowBitSmall(m: nat, w: nat)
    requires 0 < m < Pow2(w)
    ensures LowBit(m) < w
  {
    LowBitLargest(m, w);
    forall q: int ensures m != Times(q, Pow2(w)) {
      if m == Times(q, Pow2(w)) {
        SmallMultiple(q, Pow2(w));
      }
    }
  }

  // ----- Which differences the variables can make -----

  /** A combination is a multiple of every common divisor of the scales. */
  lemma {:induction false} CombinationDivided(d: int, vars: seq<VariableIndex>, xs: seq<int>)
    requires |xs| == |vars| && DividesAll(d, vars)
    ensures Divides(d, Combination(vars, xs))
    decreases |vars|
  {
    if vars == [] {
      DividesIntro(d, 0, 0);
    } else {
      var n := |vars| - 1;
      assert DividesAll(d, vars[..n]) by {
        forall i | 0 <= i < n ensures Divides(d, vars[..n][i].scale) {
          assert vars[..n][i] == vars[i];
        }
      }
      CombinationDivided(d, vars[..n], xs[..n]);
      var p :| Combination(vars[..n], xs[..n]) == Times(p, d);
      var q :| vars[n].scale == Times(q, d);
      assert (q * d) * xs[n] == (q * xs[n]) * d;
      assert p * d + (q * xs[n]) * d == (p + q * xs[n]) * d;
      DividesIntro(d, Combination(vars, xs), p + q * xs[n]);
    }
  }

  /** An odd number has an inverse modulo any power of two. */
  lemma {:induction false} OddInverse(u: int, n: nat) returns (x: int)
    requires u % 2 == 1
    ensures Cong(u * x, 1, Pow2(n))
  {
    if n == 0 {
      x := 0;
      CongIntro(u * 0, 1, -1, 1);
    } else {
      var y := OddInverse(u, n - 1);
      var c := CongElim(u * y, 1, Pow2(n - 1));
      x := if c % 2 == 0 then y else y + Pow2(n - 1);
      LiftInverse(u, y, c, Pow2(n - 1));
    }
  }

  lemma LiftInverse(u: int, y: int, c: int, p: int)
    requires u % 2 == 1 && u * y == 1 + c * p
    ensures Cong(u * (if c % 2 == 0 then y else y + p), 1, 2 * p)
  {
    if c % 2 == 0 {
      EvenProduct(c, p);
      CongIntro(u * y, 1, c / 2, 2 * p);
    } else {
      assert u * (y + p) == u * y + u * p;
      assert (c + u) * p == c * p + u * p;
      EvenProduct(c + u, p);
      CongIntro(u * (y + p), 1, (c + u) / 2, 2 * p);
    }
  }

  lemma EvenProduct(e: int, p: int)
    requires e % 2 == 0
    ensures e * p == (e / 2) * (2 * p)
  {
    var h := e / 2;
    assert e == 2 * h;
  }

  ghost function OneHot(n: nat, i: nat, x: int): (xs: seq<int>)
    ensures |xs| == n
  {
    seq(n, j => if j == i then x else 0)
  }

  lemma {:induction false} CombinationOneHot(vars: seq<VariableIndex>, i: nat, x: int)
    ensures Combination(vars, OneHot(|vars|, i, x)) == if i < |vars| then vars[i].scale * x else 0
    decreases |vars|
  {
    if vars != [] {
      var n := |vars| - 1;
      CombinationOneHot(vars[..n], i, x);
      assert OneHot(|vars|, i, x)[..n] == OneHot(n, i, x);
    }
  }

  /** Every multiple of the modulo is reached, by the variable whose scale has the lowest bit. */
  lemma ReachMultiple(vars: seq<VariableIndex>, i: nat, k: nat, t: int) returns (xs: seq<int>)
    requires i < |vars| && k < 64 && Divides(Pow2(k), vars[i].scale) && !Divides(Pow2(k + 1), vars[i].scale)
    ensures |xs| == |vars| && Cong(Combination(vars, xs), t * Pow2(k), TWO64)
  {
    var p := Pow2(k);
    var u :| vars[i].scale == Times(u, p);
    if u % 2 == 0 {
      assert u * p == (u / 2) * (2 * p);
      DividesIntro(Pow2(k + 1), vars[i].scale, u / 2);
      assert false;
    }
    var y := OddInverse(u, 64);
    Pow2Of64();
    var c := CongElim(u * y, 1, TWO64);
    xs := OneHot(|vars|, i, y * t);
    CombinationOneHot(vars, i, y * t);
    assert (u * p) * (y * t) == (u * y) * (t * p);
    assert (1 + c * TWO64) * (t * p) == t * p + (c * (t * p)) * TWO64;
    CongIntro(Combination(vars, xs), t * p, c * (t * p), TWO64);
  }

  /** Some values of the variables bring the two pointers to any gap with the right residue. */
  lemma ReachGap(vars: seq<VariableIndex>, offs: int, i: nat, k: nat, g: int) returns (xs: seq<int>)
    requires i < |vars| && k < 64 && Divides(Pow2(k), vars[i].scale) && !Divides(Pow2(k + 1), vars[i].scale)
    requires Cong(g, offs, Pow2(k))
    ensures |xs| == |vars| && Cong(offs + Combination(vars, xs), g, TWO64)
  {
    var t := CongElim(g, offs, Pow2(k));
    xs := ReachMultiple(vars, i, k, t);
    CongRefl(offs, TWO64);
    CongAdd(offs, offs, Combination(vars, xs), t * Pow2(k), TWO64);
  }

  // ----- The rules -----

  /** Two addresses whose difference is offs plus some combination of the variables. */
  ghost predicate Differ(a1: int, a2: int, offs: int, vars: seq<VariableIndex>, xs: seq<int>)
    requires |xs| == |vars|
  {
    Cong(a1, a2 + offs + Combination(vars, xs), TWO64)
  }

  /** Whatever the addresses and the variables, the answer says the truth. */
  ghost predicate SoundAnswer(r: AliasResult, offs: int, vars: seq<VariableIndex>, s1: Size, s2: Size) {
    forall a1, a2, xs: seq<int> {:trigger Differ(a1, a2, offs, vars, xs)}
      | |xs| == |vars| && Differ(a1, a2, offs, vars, xs) :: Meaning(r, a1, s1, a2, s2)
  }

  ghost predicate AlwaysDisjoint(offs: int, vars: seq<VariableIndex>, n1: nat, n2: nat) {
    forall a1, a2, xs: seq<int> {:trigger Differ(a1, a2, offs, vars, xs)}
      | |xs| == |vars| && Differ(a1, a2, offs, vars, xs) :: Disjoint(a1, n1, a2, n2)
  }

  /** The longest access through a location of the given size. */
  function LongestAccess(s: Size): (n: nat)
  {
    if s.Known? && s.bytes <= TWO63 then s.bytes else TWO63
  }

  /** Sizes of real objects: not empty and at most half the address space. */
  predicate Plausible(s: Size) {
    s.Known? ==> 0 < s.bytes <= TWO63
  }

  lemma LongestDecides(offs: int, vars: seq<VariableIndex>, s1: Size, s2: Size)
    ensures SoundAnswer(NoAlias, offs, vars, s1, s2) <==> AlwaysDisjoint(offs, vars, LongestAccess(s1), LongestAccess(s2))
  {
    assert Accesses(LongestAccess(s1), s1) && Accesses(LongestAccess(s2), s2);
    if AlwaysDisjoint(offs, vars, LongestAccess(s1), LongestAccess(s2)) {
      forall a1, a2, xs: seq<int> | |xs| == |vars| && Differ(a1, a2, offs, vars, xs)
        ensures Meaning(NoAlias, a1, s1, a2, s2) {
        forall n1: nat, n2: nat | Accesses(n1, s1) && Accesses(n2, s2) ensures Disjoint(a1, n1, a2, n2) {
          assert Disjoint(a1, LongestAccess(s1), a2, LongestAccess(s2));
        }
      }
    }
    if SoundAnswer(NoAlias, offs, vars, s1, s2) {
      forall a1, a2, xs: seq<int> | |xs| == |vars| && Differ(a1, a2, offs, vars, xs)
        ensures Disjoint(a1, LongestAccess(s1), a2, LongestAccess(s2)) {
        assert Meaning(NoAlias, a1, s1, a2, s2);
      }
    }
  }

  lemma GapOfConstant(a1: int, a2: int, offs: int)
    requires Cong(a1, a2 + offs, TWO64) && -TWO63 <= offs < TWO63
    ensures Gap(a1, a2) == if offs >= 0 then offs else offs + TWO64
  {
    var k := CongElim(a1, a2 + offs, TWO64);
    var g := if offs >= 0 then offs else offs + TWO64;
    CongIntro(a1 - a2, g, if offs >= 0 then k else k - 1, TWO64);
    CongMod(a1 - a2, TWO64);
    CongTrans(Gap(a1, a2), a1 - a2, g, TWO64);
    CongSmall(Gap(a1, a2), g, TWO64);
  }

  /** A gap that is known modulo 2^k. */
  lemma GapResidue(a1: int, a2: int, offs: int, vars: seq<VariableIndex>, xs: seq<int>, k: nat)
    requires |xs| == |vars| && Differ(a1, a2, offs, vars, xs) && k <= 64 && DividesAll(Pow2(k), vars)
    ensures Cong(Gap(a1, a2), offs % Pow2(k), Pow2(k))
  {
    var p := Pow2(k);
    Pow2Of64();
    CombinationDivided(p, vars, xs);
    var q :| Combination(vars, xs) == Times(q, p);
    CongMod(a1 - a2, TWO64);
    CongRefl(a2, TWO64);
    CongSub(a1, a2 + offs + Combination(vars, xs), a2, a2, TWO64);
    CongTrans(Gap(a1, a2), a1 - a2, offs + Combination(vars, xs), TWO64);
    CongNarrow(Gap(a1, a2), offs + Combination(vars, xs), 64, k);
    CongIntro(offs + Combination(vars, xs), offs, q, p);
    CongTrans(Gap(a1, a2), offs + Combination(vars, xs), offs, p);
    CongTrunc(offs, k, k);
    CongTrans(Gap(a1, a2), offs, offs % p, p);
  }

  /** A gap congruent to r modulo 2^k lies between r and 2^64 - 2^k + r. */
  lemma GapBetween(g: int, r: int, k: nat)
    requires k <= 64 && 0 <= g < TWO64 && 0 <= r < Pow2(k) && Cong(g, r, Pow2(k))
    ensures r <= g <= TWO64 - Pow2(k) + r
  {
    Pow2Of64();
    Pow2Add(64 - k, k);
    var q := CongElim(g, r, Pow2(k));
    MultipleBetween(q, Pow2(k), Pow2(64 - k), r);
  }

  lemma MultipleBetween(q: int, p: int, c: int, r: int)
    requires 0 <= r < p && 0 <= r + q * p < c * p
    ensures 0 <= q * p <= c * p - p
  {
    MulMonotone(q, -1, p);
    MulMonotone(c, q, p);
    MulMonotone(0, q, p);
    MulMonotone(q, c - 1, p);
    assert (c - 1) * p == c * p - p;
  }

  lemma MulMonotone(a: int, b: int, p: int)
    requires p >= 0
    ensures a <= b ==> a * p <= b * p
  {
    if a <= b {
      assert (b - a) * p >= 0;
      assert (b - a) * p == b * p - a * p;
    }
  }

  /** A constant difference keeps the ranges apart exactly when the gap has room both ways. */
  lemma ConstantApart(offs: int, n1: nat, n2: nat)
    requires -TWO63 <= offs < TWO63 && n1 > 0 && n2 > 0
    ensures var g := if offs >= 0 then offs else offs + TWO64;
            AlwaysDisjoint(offs, [], n1, n2) <==> n2 <= g && n1 <= TWO64 - g
  {
    var g := if offs >= 0 then offs else offs + TWO64;
    forall a1, a2, xs: seq<int> | |xs| == 0 && Differ(a1, a2, offs, [], xs)
      ensures Disjoint(a1, n1, a2, n2) <==> n2 <= g && n1 <= TWO64 - g {
      GapOfConstant(a1, a2, offs);
      DisjointIffGap(a1, n1, a2, n2);
    }
    CongRefl(offs, TWO64);
    assert Differ(offs, 0, offs, [], []);
  }

  /** Variables keep the ranges apart, for all their values, exactly when one period of the modulo has room both ways. */
  lemma VariablesApart(offs: int, vars: seq<VariableIndex>, i: nat, k: nat, n1: nat, n2: nat)
    requires n1 > 0 && n2 > 0
    requires i < |vars| && k < 64 && DividesAll(Pow2(k), vars) && !Divides(Pow2(k + 1), vars[i].scale)
    ensures var r := offs % Pow2(k);
            AlwaysDisjoint(offs, vars, n1, n2) <==> n2 <= r && n1 <= Pow2(k) - r
  {
    var r := offs % Pow2(k);
    if n2 <= r && n1 <= Pow2(k) - r {
      forall a1, a2, xs: seq<int> | |xs| == |vars| && Differ(a1, a2, offs, vars, xs)
        ensures Disjoint(a1, n1, a2, n2) {
        GapResidue(a1, a2, offs, vars, xs, k);
        GapBetween(Gap(a1, a2), r, k);
        DisjointIffGap(a1, n1, a2, n2);
      }
    }
    if AlwaysDisjoint(offs, vars, n1, n2) {
      BothEndsReached(offs, vars, i, k, n1, n2);
    }
  }

  /** The smallest and the largest gap that the variables can make. */
  lemma BothEndsReached(offs: int, vars: seq<VariableIndex>, i: nat, k: nat, n1: nat, n2: nat)
    requires n1 > 0 && n2 > 0 && AlwaysDisjoint(offs, vars, n1, n2)
    requires i < |vars| && k < 64 && Divides(Pow2(k), vars[i].scale) && !Divides(Pow2(k + 1), vars[i].scale)
    ensures n2 <= offs % Pow2(k) && n1 <= Pow2(k) - offs % Pow2(k)
  {
    var r := offs % Pow2(k);
    CongTrunc(offs, k, k);
    LastResidue(k, r, offs);
    Pow2Of64();
    Pow2Monotone(k, 64);
    GapReached(offs, vars, i, k, n1, n2, r);
    GapReached(offs, vars, i, k, n1, n2, r + (TWO64 - Pow2(k)));
  }

  lemma LastResidue(k: nat, r: int, offs: int)
    requires k <= 64 && Cong(r, offs, Pow2(k))
    ensures Cong(r + (TWO64 - Pow2(k)), offs, Pow2(k))
  {
    Pow2Of64();
    Pow2Add(64 - k, k);
    OneLess(Pow2(64 - k), Pow2(k));
    CongIntro(r + (TWO64 - Pow2(k)), r, Pow2(64 - k) - 1, Pow2(k));
    CongTrans(r + (TWO64 - Pow2(k)), r, offs, Pow2(k));
  }

  lemma OneLess(a: int, p: int)
    ensures (a - 1) * p == a * p - p
  {
  }

  lemma GapReached(offs: int, vars: seq<VariableIndex>, i: nat, k: nat, n1: nat, n2: nat, g: int)
    requires n1 > 0 && n2 > 0 && AlwaysDisjoint(offs, vars, n1, n2)
    requires i < |vars| && k < 64 && Divides(Pow2(k), vars[i].scale) && !Divides(Pow2(k + 1), vars[i].scale)
    requires 0 <= g < TWO64 && Cong(g, offs, Pow2(k))
    ensures n2 <= g && n1 <= TWO64 - g
  {
    var xs := ReachGap(vars, offs, i, k, g);
    CongSym(offs + Combination(vars, xs), g, TWO64);
    assert Differ(g, 0, offs, vars, xs);
    ModSmall(g, TWO64);
    DisjointIffGap(g, n1, 0, n2);
  }

  /** Where the rules give up although no access could overlap: a negative constant and a size they do not know. */
  predicate GivesUp(offs: int, vars: seq<VariableIndex>, s1: Size, s2: Size) {
    vars == [] && offs < 0 && (s1.UnknownSize? || s2.UnknownSize?)
  }

  lemma MaskOffset(offs: int, k: nat)
    requires k < 64
    ensures BitAnd(offs % TWO64, Pow2(k) - 1) == offs % Pow2(k)
  {
    Pow2Of64();
    AndMaskIsMod(offs % TWO64, k);
    CongTrunc(offs, 64, k);
    CongModEq(offs % TWO64, offs, Pow2(k));
  }

  /** The branches that answer NoAlias on a constant difference. */
  predicate ConstantNoAlias(offs: int, s1: Size, s2: Size) {
    || (offs > 0 && s2.Known? && s2.bytes <= offs)
    || (offs < 0 && s1.Known? && s2.Known? && s1.bytes <= -offs)
  }

  lemma ConstantDecides(offs: int, s1: Size, s2: Size)
    requires -TWO63 <= offs < TWO63
    ensures ConstantNoAlias(offs, s1, s2) ==> SoundAnswer(NoAlias, offs, [], s1, s2)
    ensures Plausible(s1) && Plausible(s2) && !GivesUp(offs, [], s1, s2) && SoundAnswer(NoAlias, offs, [], s1, s2) ==>
              ConstantNoAlias(offs, s1, s2)
  {
    var n1, n2 := LongestAccess(s1), LongestAccess(s2);
    LongestDecides(offs, [], s1, s2);
    if n1 > 0 && n2 > 0 {
      ConstantApart(offs, n1, n2);
    } else {
      EmptyAlwaysDisjoint(offs, [], n1, n2);
    }
  }

  /** The branch that answers NoAlias on a variable difference. */
  predicate VariablesNoAlias(modulo: int, modOffset: int, s1: Size, s2: Size) {
    s1.Known? && s2.Known? && modOffset >= s2.bytes && s1.bytes <= modulo - modOffset
  }

  lemma VariablesDecide(offs: int, vars: seq<VariableIndex>, i: nat, k: nat, s1: Size, s2: Size)
    requires i < |vars| && k < 64 && DividesAll(Pow2(k), vars) && !Divides(Pow2(k + 1), vars[i].scale)
    ensures VariablesNoAlias(Pow2(k), offs % Pow2(k), s1, s2) ==> SoundAnswer(NoAlias, offs, vars, s1, s2)
    ensures Plausible(s1) && Plausible(s2) && SoundAnswer(NoAlias, offs, vars, s1, s2) ==>
              VariablesNoAlias(Pow2(k), offs % Pow2(k), s1, s2)
  {
    var n1, n2 := LongestAccess(s1), LongestAccess(s2);
    LongestDecides(offs, vars, s1, s2);
    ModuloHalf(k);
    if n1 > 0 && n2 > 0 {
      VariablesApart(offs, vars, i, k, n1, n2);
    } else {
      EmptyAlwaysDisjoint(offs, vars, n1, n2);
    }
  }

  lemma ZeroDifference(s1: Size, s2: Size)
    ensures SoundAnswer(MustAlias, 0, [], s1, s2)
    ensures Plausible(s1) && Plausible(s2) ==> !SoundAnswer(NoAlias, 0, [], s1, s2)
  {
    ConstantDecides(0, s1, s2);
  }

  /**
   The answer for two pointers that differ by offs plus the variables. It is sound for all
   addresses and all values of the variables, and NoAlias is given whenever it would be.
   */
  method ApplyOffsetRules(offs: int, vars: seq<VariableIndex>, s1: Size, s2: Size) returns (r: AliasResult)
    requires -TWO63 <= offs < TWO63 && GoodIndices(vars)
    ensures SoundAnswer(r, offs, vars, s1, s2)
    ensures r == MustAlias <==> offs == 0 && vars == []
    ensures Plausible(s1) && Plausible(s2) ==>
              (r == NoAlias <==> SoundAnswer(NoAlias, offs, vars, s1, s2) && !GivesUp(offs, vars, s1, s2))
    ensures r != MayAlias && (s2.UnknownSize? ==> r != NoAlias)
  {
    if offs == 0 && vars == [] {
      ZeroDifference(s1, s2);
      return MustAlias;
    }
    if vars == [] {
      ConstantDecides(offs, s1, s2);
      if offs >= 0 {
        if s2.Known? {
          return if offs < s2.bytes then PartialAlias else NoAlias;
        }
      } else if s1.Known? && s2.Known? {
        return if -offs < s1.bytes then PartialAlias else NoAlias;
      }
    } else {
      var modulo; ghost var k, least;
      modulo, k, least := ScaleModulo(vars);
      var modOffset := BitAnd(offs % TWO64, modulo - 1);
      MaskOffset(offs, k);
      VariablesDecide(offs, vars, least, k, s1, s2);
      if s1.Known? && s2.Known? && modOffset >= s2.bytes && s1.bytes <= modulo - modOffset {
        return NoAlias;
      }
    }
    r := PartialAlias;
  }

  lemma EmptyAlwaysDisjoint(offs: int, vars: seq<VariableIndex>, n1: nat, n2: nat)
    ensures n1 == 0 || n2 == 0 ==> AlwaysDisjoint(offs, vars, n1, n2)
  {
  }

  lemma ModuloHalf(k: nat)
    requires k < 64
    ensures Pow2(k) <= TWO63
  {
    Pow2Of64();
    Pow2Monotone(k, 63);
  }

  /**
   Without the bound on accesses the constant rule is wrong: at offset 2^63 - 1 it says NoAlias
   for a location of 2^63 + 2 bytes, whose last byte comes round to the other location.
   */
  lemma LongAccessComesRound()
    ensures ConstantNoAlias(TWO63 - 1, Known(TWO63 + 2), Known(1))
    ensures Differ(TWO63 - 1, 0, TWO63 - 1, [], []) && !Disjoint(TWO63 - 1, TWO63 + 2, 0, 1)
  {
    CongRefl(TWO63 - 1, TWO64);
    DisjointIffGap(TWO63 - 1, TWO63 + 2, 0, 1);
  }
}
