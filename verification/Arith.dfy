/** Powers of two, congruences and bitwise operations on natural numbers. */
module Arith {
  const TWO64: int := 0x1_0000_0000_0000_0000
  const TWO63: int := 0x8000_0000_0000_0000

  function Pow2(n: nat): (p: int)
    ensures p >= 1
  {
    if n == 0 then 1 else 2 * Pow2(n - 1)
  }

  lemma {:induction false} Pow2Add(a: nat, b: nat)
    ensures Pow2(a + b) == Pow2(a) * Pow2(b)
  {
    if a == 0 {
    } else {
      Pow2Add(a - 1, b);
    }
  }

  lemma {:induction false} Pow2Monotone(a: nat, b: nat)
    requires a <= b
    ensures Pow2(a) <= Pow2(b)
    decreases b
  {
    if a < b {
      Pow2Monotone(a, b - 1);
    }
  }

  lemma Pow2Of64()
    ensures Pow2(64) == TWO64 && Pow2(63) == TWO63
  {
    assert Pow2(8) == 256;
    Pow2Add(8, 8);
    Pow2Add(16, 16);
    Pow2Add(32, 32);
    assert Pow2(64) == 2 * Pow2(63);
  }

  // ----- Congruence -----

  function Times(k: int, m: int): int { k * m }

  /** a and b differ by a multiple of m. */
  ghost predicate Cong(a: int, b: int, m: int)
  {
    exists k: int :: a == b + Times(k, m)
  }

  lemma CongIntro(a: int, b: int, k: int, m: int)
    requires a == b + k * m
    ensures Cong(a, b, m)
  {
    assert a == b + Times(k, m);
  }

  lemma CongElim(a: int, b: int, m: int) returns (k: int)
    requires Cong(a, b, m)
    ensures a == b + k * m
  {
    k :| a == b + Times(k, m);
  }

  lemma CongRefl(a: int, m: int)
    ensures Cong(a, a, m)
  {
    CongIntro(a, a, 0, m);
  }

  lemma CongSym(a: int, b: int, m: int)
    requires Cong(a, b, m)
    ensures Cong(b, a, m)
  {
    var k := CongElim(a, b, m);
    assert (-k) * m == -(k * m);
    CongIntro(b, a, -k, m);
  }

  lemma CongTrans(a: int, b: int, c: int, m: int)
    requires Cong(a, b, m) && Cong(b, c, m)
    ensures Cong(a, c, m)
  {
    var k := CongElim(a, b, m);
    var l := CongElim(b, c, m);
    assert (k + l) * m == k * m + l * m;
    CongIntro(a, c, k + l, m);
  }

  lemma CongAdd(a: int, b: int, c: int, d: int, m: int)
    requires Cong(a, b, m) && Cong(c, d, m)
    ensures Cong(a + c, b + d, m)
  {
    var k := CongElim(a, b, m);
    var l := CongElim(c, d, m);
    assert (k + l) * m == k * m + l * m;
    CongIntro(a + c, b + d, k + l, m);
  }

  lemma CongScale(a: int, b: int, s: int, m: int)
    requires Cong(a, b, m)
    ensures Cong(s * a, s * b, m)
  {
    var k := CongElim(a, b, m);
    calc {
      s * a;
      s * (b + k * m);
      s * b + s * (k * m);
      { assert s * (k * m) == (s * k) * m; }
      s * b + (s * k) * m;
    }
    CongIntro(s * a, s * b, s * k, m);
  }

  lemma CongMul(a: int, b: int, c: int, d: int, m: int)
    requires Cong(a, b, m) && Cong(c, d, m)
    ensures Cong(a * c, b * d, m)
  {
    CongScale(a, b, c, m);
    CongScale(c, d, b, m);
    assert c * a == a * c && c * b == b * c;
    CongTrans(a * c, b * c, b * d, m);
  }

  lemma CongSub(a: int, b: int, c: int, d: int, m: int)
    requires Cong(a, b, m) && Cong(c, d, m)
    ensures Cong(a - c, b - d, m)
  {
    CongScale(c, d, -1, m);
    assert -1 * c == -c && -1 * d == -d;
    CongAdd(a, b, -c, -d, m);
  }

  /** A congruence mod m is one mod every divisor of m. */
  lemma CongWeaken(a: int, b: int, m: nat, q: int, d: int)
    requires Cong(a, b, m) && m == q * d
    ensures Cong(a, b, d)
  {
    var k := CongElim(a, b, m);
    assert k * (q * d) == (k * q) * d;
    CongIntro(a, b, k * q, d);
  }

  lemma CongNarrow(a: int, b: int, w: nat, n: nat)
    requires Cong(a, b, Pow2(w)) && n <= w
    ensures Cong(a, b, Pow2(n))
  {
    Pow2Add(w - n, n);
    CongWeaken(a, b, Pow2(w), Pow2(w - n), Pow2(n));
  }

  lemma CongMod(a: int, m: int)
    requires m > 0
    ensures Cong(a % m, a, m)
  {
    assert a == m * (a / m) + a % m;
    assert m * (a / m) == (a / m) * m;
    assert (-(a / m)) * m == -((a / m) * m);
    CongIntro(a % m, a, -(a / m), m);
  }

  /** A multiple of m strictly between -m and m is zero. */
  lemma SmallMultiple(k: int, m: int)
    requires m > 0
    ensures -m < k * m < m ==> k == 0
  {
    if k >= 1 {
      assert (k - 1) * m >= 0;
    } else if k <= -1 {
      assert (k + 1) * m <= 0;
    }
  }

  lemma CongSmall(a: int, b: int, m: int)
    requires Cong(a, b, m) && 0 <= a < m && 0 <= b < m
    ensures a == b
  {
    var k := CongElim(a, b, m);
    SmallMultiple(k, m);
  }

  lemma CongModEq(a: int, b: int, m: int)
    requires m > 0
    ensures Cong(a, b, m) <==> a % m == b % m
  {
    CongMod(a, m);
    CongMod(b, m);
    CongSym(a % m, a, m);
    CongSym(b % m, b, m);
    if Cong(a, b, m) {
      CongTrans(a % m, a, b, m);
      CongTrans(a % m, b, b % m, m);
      CongSmall(a % m, b % m, m);
    }
    if a % m == b % m {
      CongTrans(a, a % m, b, m);
    }
  }

  lemma ModSmall(a: int, m: int)
    requires 0 <= a < m
    ensures a % m == a
  {
    CongMod(a, m);
    CongSmall(a % m, a, m);
  }

  lemma ModNegative(a: int, m: int)
    requires -m <= a < 0
    ensures a % m == a + m
  {
    CongMod(a, m);
    CongIntro(a, a + m, -1, m);
    CongTrans(a % m, a, a + m, m);
    CongSmall(a % m, a + m, m);
  }

  /** Truncation to w bits keeps the residue modulo any narrower width. */
  lemma CongTrunc(a: int, w: nat, n: nat)
    requires n <= w
    ensures Cong(a % Pow2(w), a, Pow2(n)) && Cong(a, a % Pow2(w), Pow2(n))
  {
    CongMod(a, Pow2(w));
    CongNarrow(a % Pow2(w), a, w, n);
    CongSym(a % Pow2(w), a, Pow2(n));
  }

  // ----- Machine integers -----

  /** Two's complement reading of the low w bits of x. */
  function Signed(x: int, w: nat): (r: int)
    requires w >= 1
    ensures -Pow2(w - 1) <= r < Pow2(w - 1)
  {
    var u := x % Pow2(w);
    if u < Pow2(w - 1) then u else u - Pow2(w)
  }

  lemma SignedCong(x: int, w: nat)
    requires w >= 1
    ensures Cong(Signed(x, w), x, Pow2(w))
  {
    var u := x % Pow2(w);
    CongMod(x, Pow2(w));
    if u >= Pow2(w - 1) {
      CongIntro(u - Pow2(w), u, -1, Pow2(w));
      CongTrans(u - Pow2(w), u, x, Pow2(w));
    }
  }

  /** A value already in range is its own signed reading. */
  lemma SignedSmall(x: int, w: nat)
    requires w >= 1 && -Pow2(w - 1) <= x < Pow2(w - 1)
    ensures Signed(x, w) == x
  {
    SignedCong(x, w);
    var k := CongElim(Signed(x, w), x, Pow2(w));
    SmallMultiple(k, Pow2(w));
  }

  /** The int64_t that holds the low 64 bits of x. */
  function Int64(x: int): (r: int)
    ensures -TWO63 <= r < TWO63
  {
    Pow2Of64();
    Signed(x, 64)
  }

  lemma Int64Cong(x: int)
    ensures Cong(Int64(x), x, TWO64)
  {
    Pow2Of64();
    SignedCong(x, 64);
  }

  // ----- Bitwise operations on natural numbers -----

  function Bit(b: bool): nat { if b then 1 else 0 }

  function BitAnd(a: nat, b: nat): nat
  {
    if a == 0 || b == 0 then 0
    else Bit(a % 2 == 1 && b % 2 == 1) + 2 * BitAnd(a / 2, b / 2)
  }

  function BitOr(a: nat, b: nat): nat
    decreases a + b
  {
    if a == 0 then b
    else if b == 0 then a
    else Bit(a % 2 == 1 || b % 2 == 1) + 2 * BitOr(a / 2, b / 2)
  }

  function BitXor(a: nat, b: nat): nat
    decreases a + b
  {
    if a == 0 then b
    else if b == 0 then a
    else Bit(a % 2 != b % 2) + 2 * BitXor(a / 2, b / 2)
  }

  /** Disjoint bits: or is addition. */
  lemma {:induction false} OrOfDisjointIsSum(a: nat, b: nat)
    requires BitAnd(a, b) == 0
    ensures BitOr(a, b) == a + b
    decreases a + b
  {
    if a != 0 && b != 0 {
      OrOfDisjointIsSum(a / 2, b / 2);
    }
  }

  lemma {:induction false} OrBound(a: nat, b: nat, w: nat)
    requires a < Pow2(w) && b < Pow2(w)
    ensures BitOr(a, b) < Pow2(w)
    decreases w
  {
    if a != 0 && b != 0 {
      OrBound(a / 2, b / 2, w - 1);
    }
  }

  /** Masking with 2^k - 1 is reduction mod 2^k. */
  lemma {:induction false} AndMaskIsMod(x: nat, k: nat)
    ensures BitAnd(x, Pow2(k) - 1) == x % Pow2(k)
    decreases k
  {
    if k == 0 {
      assert x % 1 == 0;
    } else if x == 0 {
      ModSmall(0, Pow2(k));
    } else {
      AndMaskIsMod(x / 2, k - 1);
      MaskStep(x, Pow2(k - 1));
    }
  }

  lemma MaskStep(x: nat, h: nat)
    requires x > 0 && h > 0 && BitAnd(x / 2, h - 1) == (x / 2) % h
    ensures BitAnd(x, 2 * h - 1) == x % (2 * h)
  {
    HalfMask(h);
    AndOdd(x, 2 * h - 1);
    ModHalf(x, h);
  }

  lemma HalfMask(h: nat)
    requires h > 0
    ensures (2 * h - 1) / 2 == h - 1 && (2 * h - 1) % 2 == 1
  {
  }

  lemma AndOdd(x: nat, m: nat)
    requires x > 0 && m % 2 == 1
    ensures BitAnd(x, m) == x % 2 + 2 * BitAnd(x / 2, m / 2)
  {
  }

  lemma ModHalf(x: nat, h: nat)
    requires h > 0
    ensures x % (2 * h) == x % 2 + 2 * ((x / 2) % h)
  {
    var q, r := (x / 2) / h, (x / 2) % h;
    assert q * (2 * h) == 2 * (q * h);
    CongIntro(x, x % 2 + 2 * r, q, 2 * h);
    CongModEq(x, x % 2 + 2 * r, 2 * h);
    CongMod(x, 2 * h);
    CongTrans(x % (2 * h), x, x % 2 + 2 * r, 2 * h);
    CongSmall(x % (2 * h), x % 2 + 2 * r, 2 * h);
  }

  // ----- Lowest set bit -----

  /** Position of the lowest set bit. */
  function LowBit(m: nat): nat
    requires m > 0
  {
    if m % 2 == 1 then 0 else 1 + LowBit(m / 2)
  }

  ghost predicate Divides(d: int, x: int)
  {
    exists q: int :: x == Times(q, d)
  }

  lemma DividesIntro(d: int, x: int, q: int)
    requires x == q * d
    ensures Divides(d, x)
  {
    assert x == Times(q, d);
  }

  /** The expression m ^ (m & (m - 1)) isolates the lowest set bit of m. */
  lemma {:induction false} IsolateLowBit(m: nat)
    requires m > 0
    ensures BitXor(m, BitAnd(m, m - 1)) == Pow2(LowBit(m))
  {
    if m % 2 == 1 {
      if m > 1 {
        assert (m - 1) / 2 == m / 2 && (m - 1) % 2 == 0;
        AndSelf(m / 2);
        XorSelf(m / 2);
        assert BitAnd(m, m - 1) == 2 * (m / 2);
        assert BitXor(m, m - 1) == 1;
      }
    } else {
      var h := m / 2;
      IsolateLowBit(h);
      assert (m - 1) / 2 == h - 1 && (m - 1) % 2 == 1;
      assert BitAnd(m, m - 1) == 2 * BitAnd(h, h - 1);
      XorDouble(h, BitAnd(h, h - 1));
    }
  }

  lemma {:induction false} AndSelf(a: nat)
    ensures BitAnd(a, a) == a
  {
    if a > 0 {
      AndSelf(a / 2);
    }
  }

  lemma {:induction false} XorSelf(a: nat)
    ensures BitXor(a, a) == 0
  {
    if a > 0 {
      XorSelf(a / 2);
    }
  }

  lemma XorDouble(a: nat, b: nat)
    ensures BitXor(2 * a, 2 * b) == 2 * BitXor(a, b)
  {
  }

  lemma {:induction false} LowBitLargest(m: nat, k: nat)
    requires m > 0
    ensures Divides(Pow2(k), m) <==> k <= LowBit(m)
  {
    if k == 0 {
      DividesIntro(1, m, m);
    } else if m % 2 == 1 {
      if Divides(Pow2(k), m) {
        var q :| m == Times(q, Pow2(k));
        OddProduct(m, q, Pow2(k - 1));
      }
    } else {
      LowBitLargest(m / 2, k - 1);
      DividesHalf(m, k);
    }
  }

  lemma OddProduct(m: nat, q: int, p: int)
    requires m % 2 == 1
    ensures m != q * (2 * p)
  {
    assert q * (2 * p) == 2 * (q * p);
  }

  lemma DividesHalf(m: nat, k: nat)
    requires k > 0 && m % 2 == 0
    ensures Divides(Pow2(k), m) <==> Divides(Pow2(k - 1), m / 2)
  {
    if Divides(Pow2(k), m) {
      var q :| m == Times(q, Pow2(k));
      assert q * Pow2(k) == 2 * (q * Pow2(k - 1));
      DividesIntro(Pow2(k - 1), m / 2, q);
    }
    if Divides(Pow2(k - 1), m / 2) {
      var q :| m / 2 == Times(q, Pow2(k - 1));
      assert q * Pow2(k) == 2 * (q * Pow2(k - 1));
      DividesIntro(Pow2(k), m, q);
    }
  }

  /** A power of two divides an or exactly when it divides both operands. */
  lemma {:induction false} DividesOr(a: nat, b: nat, k: nat)
    ensures Divides(Pow2(k), BitOr(a, b)) <==> Divides(Pow2(k), a) && Divides(Pow2(k), b)
    decreases k
  {
    DividesIntro(Pow2(k), 0, 0);
    if k == 0 {
      DividesIntro(1, a, a);
      DividesIntro(1, b, b);
      DividesIntro(1, BitOr(a, b), BitOr(a, b));
    } else if a != 0 && b != 0 {
      if a % 2 == 0 && b % 2 == 0 {
        DividesOr(a / 2, b / 2, k - 1);
        DividesHalf(a, k);
        DividesHalf(b, k);
        DividesHalf(BitOr(a, b), k);
      } else {
        OddNotDivided(BitOr(a, b), k);
        if a % 2 == 1 { OddNotDivided(a, k); } else { OddNotDivided(b, k); }
      }
    }
  }

  lemma OddNotDivided(m: nat, k: nat)
    requires m % 2 == 1 && k > 0
    ensures !Divides(Pow2(k), m)
  {
    LowBitLargest(m, k);
  }

  /** A power of two up to 2^64 divides an int64_t exactly when it divides its uint64_t cast. */
  lemma DividesCast(x: int, k: nat)
    requires k <= 64
    ensures Divides(Pow2(k), x) <==> Divides(Pow2(k), x % TWO64)
  {
    Pow2Of64();
    Pow2Add(64 - k, k);
    var p, c := Pow2(k), Pow2(64 - k);
    assert x == (x / TWO64) * TWO64 + x % TWO64;
    assert (x / TWO64) * (c * p) == ((x / TWO64) * c) * p;
    if Divides(p, x) {
      var q :| x == Times(q, p);
      assert (q - (x / TWO64) * c) * p == q * p - ((x / TWO64) * c) * p;
      DividesIntro(p, x % TWO64, q - (x / TWO64) * c);
    }
    if Divides(p, x % TWO64) {
      var q :| x % TWO64 == Times(q, p);
      assert (q + (x / TWO64) * c) * p == q * p + ((x / TWO64) * c) * p;
      DividesIntro(p, x, q + (x / TWO64) * c);
    }
  }
}
