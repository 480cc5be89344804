/** Connected components of the may-alias relation, and how adding one item changes them. */
module Components {
  import opened AliasGroups

  ghost predicate ProperPart(a: set<Item>, s: set<Item>) {
    a != {} && a <= s && a != s
  }

  /** Every way to cut the set in two cuts a related pair. */
  ghost predicate Connected(aa: Oracle, s: set<Item>) {
    forall a: set<Item> | ProperPart(a, s) :: Crossed(aa, a, s - a)
  }

  ghost predicate Crossed(aa: Oracle, a: set<Item>, b: set<Item>) {
    exists x, y :: x in a && y in b && Related(aa, x, y)
  }

  ghost predicate GoodPart(aa: Oracle, all: set<Item>, p: set<Item>) {
    p != {} && p <= all && Connected(aa, p)
  }

  ghost predicate Covered(parts: set<set<Item>>, x: Item) {
    exists p :: p in parts && x in p
  }

  ghost predicate SameOrUnrelated(aa: Oracle, p: set<Item>, q: set<Item>) {
    p == q || Unrelated(aa, p, q)
  }

  /** The parts are connected, cover everything, and different parts are unrelated. */
  ghost predicate AreComponents(aa: Oracle, all: set<Item>, parts: set<set<Item>>) {
    && (forall p {:trigger GoodPart(aa, all, p)} | p in parts :: GoodPart(aa, all, p))
    && (forall x {:trigger Covered(parts, x)} | x in all :: Covered(parts, x))
    && (forall p, q {:trigger SameOrUnrelated(aa, p, q)} | p in parts && q in parts :: SameOrUnrelated(aa, p, q))
  }

  /** An item of two parts makes them one. */
  lemma MeetingPartsEqual(aa: Oracle, all: set<Item>, ps: set<set<Item>>, qs: set<set<Item>>, p: set<Item>, q: set<Item>, x: Item)
    requires AreComponents(aa, all, ps) && AreComponents(aa, all, qs)
    requires p in ps && q in qs && x in p && x in q
    ensures p <= q
  {
    if !(p <= q) {
      var a := p * q;
      assert GoodPart(aa, all, p);
      assert x in a && ProperPart(a, p);
      var y, z := CrossingPair(aa, p, a);
      CoveredElsewhere(aa, all, qs, q, y, z);
    }
  }

  lemma CrossingPair(aa: Oracle, s: set<Item>, a: set<Item>) returns (x: Item, y: Item)
    requires Connected(aa, s) && ProperPart(a, s)
    ensures x in a && y in s && y !in a && Related(aa, x, y)
  {
    assert Crossed(aa, a, s - a);
    x, y :| x in a && y in s - a && Related(aa, x, y);
  }

  /** An item related to a part is in that part. */
  lemma CoveredElsewhere(aa: Oracle, all: set<Item>, qs: set<set<Item>>, q: set<Item>, y: Item, z: Item)
    requires AreComponents(aa, all, qs) && q in qs && y in q && z in all && Related(aa, y, z)
    ensures z in q
  {
    assert Covered(qs, z);
    var r :| r in qs && z in r;
    assert SameOrUnrelated(aa, q, r);
  }

  /** There is only one partition into components: the order of insertion cannot matter. */
  lemma ComponentsUnique(aa: Oracle, all: set<Item>, ps: set<set<Item>>, qs: set<set<Item>>)
    requires AreComponents(aa, all, ps) && AreComponents(aa, all, qs)
    ensures ps == qs
  {
    PartsIncluded(aa, all, ps, qs);
    PartsIncluded(aa, all, qs, ps);
  }

  lemma PartsIncluded(aa: Oracle, all: set<Item>, ps: set<set<Item>>, qs: set<set<Item>>)
    requires AreComponents(aa, all, ps) && AreComponents(aa, all, qs)
    ensures ps <= qs
  {
    forall p | p in ps ensures p in qs {
      PartIncluded(aa, all, ps, qs, p);
    }
  }

  lemma PartIncluded(aa: Oracle, all: set<Item>, ps: set<set<Item>>, qs: set<set<Item>>, p: set<Item>)
    requires AreComponents(aa, all, ps) && AreComponents(aa, all, qs) && p in ps
    ensures p in qs
  {
    assert GoodPart(aa, all, p);
    var x :| x in p;
    assert Covered(qs, x);
    var q :| q in qs && x in q;
    MeetingPartsEqual(aa, all, ps, qs, p, q, x);
    MeetingPartsEqual(aa, all, qs, ps, q, p, x);
    assert p == q;
  }

  lemma SingletonConnected(aa: Oracle, x: Item)
    ensures Connected(aa, {x})
  {
    forall a: set<Item> ensures !ProperPart(a, {x}) {
      if a != {} && a <= {x} {
        var y :| y in a;
        assert a == {x};
      }
    }
  }

  lemma CrossedBy(aa: Oracle, a: set<Item>, b: set<Item>, x: Item, y: Item)
    requires x in a && y in b && Related(aa, x, y)
    ensures Crossed(aa, a, b)
  {
  }

  /** A cut that divides one of two connected sets crosses their union. */
  lemma CutInside(aa: Oracle, s: set<Item>, t: set<Item>, a: set<Item>)
    requires Connected(aa, s) && a <= s + t && a * s != {} && a * s != s
    ensures Crossed(aa, a, s + t - a)
  {
    var x, y := CrossingPair(aa, s, a * s);
    CrossedBy(aa, a, s + t - a, x, y);
  }

  /** A connected set related to x joins the connected set that already contains x. */
  lemma JoinConnected(aa: Oracle, place: Ptr -> int, s: set<Item>, t: set<Item>, x: Item)
    requires Lawful(aa, place) && x in s && Connected(aa, s) && Connected(aa, t) && RelatedToSome(aa, x, t)
    ensures Connected(aa, s + t)
  {
    var y :| y in t && Related(aa, x, y);
    RelatedSymmetric(aa, place, x, y);
    forall a: set<Item> | ProperPart(a, s + t) ensures Crossed(aa, a, s + t - a) {
      if a * s != {} && a * s != s {
        CutInside(aa, s, t, a);
      } else if a * t != {} && a * t != t {
        assert s + t == t + s;
        CutInside(aa, t, s, a);
      } else {
        CutBetween(s, t, a, x, y);
        if x in a {
          CrossedBy(aa, a, s + t - a, x, y);
        } else {
          CrossedBy(aa, a, s + t - a, y, x);
        }
      }
    }
  }

  /** A cut that divides neither set takes exactly one of them. */
  lemma CutBetween(s: set<Item>, t: set<Item>, a: set<Item>, x: Item, y: Item)
    requires ProperPart(a, s + t) && (a * s == {} || a * s == s) && (a * t == {} || a * t == t)
    requires x in s && y in t
    ensures x in a <==> y !in a
  {
    assert x in a <==> x in a * s;
    assert y in a <==> y in a * t;
    assert a == a * s + a * t;
  }
}
