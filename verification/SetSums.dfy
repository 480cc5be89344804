/** Sums over finite sets. */
module SetSums {
  ghost function Sum<T>(s: set<T>, f: T -> int): int {
    if s == {} then 0
    else
      var x :| x in s;
      f(x) + Sum(s - {x}, f)
  }

  lemma {:induction false} SumOf<T>(s: set<T>, f: T -> int, x: T)
    requires x in s
    ensures Sum(s, f) == f(x) + Sum(s - {x}, f)
    decreases s
  {
    var y :| y in s && Sum(s, f) == f(y) + Sum(s - {y}, f);
    if y != x {
      SumOf(s - {y}, f, x);
      SumOf(s - {x}, f, y);
      assert s - {y} - {x} == s - {x} - {y};
    }
  }

  lemma {:induction false} SumSame<T>(s: set<T>, f: T -> int, g: T -> int)
    requires forall x | x in s :: f(x) == g(x)
    ensures Sum(s, f) == Sum(s, g)
    decreases s
  {
    if s != {} {
      var x :| x in s;
      SumSame(s - {x}, f, g);
      SumOf(s, f, x);
      SumOf(s, g, x);
    }
  }

  /** Changing the value at one element. */
  lemma SumChanged<T>(s: set<T>, f: T -> int, g: T -> int, x: T)
    requires x in s && forall y | y in s && y != x :: f(y) == g(y)
    ensures Sum(s, g) + f(x) == Sum(s, f) + g(x)
  {
    SumOf(s, f, x);
    SumOf(s, g, x);
    SumSame(s - {x}, f, g);
  }

  lemma {:induction false} SumNotNegative<T>(s: set<T>, f: T -> int)
    requires forall x | x in s :: f(x) >= 0
    ensures Sum(s, f) >= 0
    decreases s
  {
    if s != {} {
      var x :| x in s;
      SumNotNegative(s - {x}, f);
      SumOf(s, f, x);
    }
  }

  lemma {:induction false} SumConstant<T>(s: set<T>, f: T -> int, c: int)
    requires forall x | x in s :: f(x) == c
    ensures Sum(s, f) == c * |s|
    decreases s
  {
    if s != {} {
      var x :| x in s;
      SumConstant(s - {x}, f, c);
      SumOf(s, f, x);
    }
  }
}
