/** What the tests on the kinds of underlying objects rule out, and that they rule out no less and no more. */
module ObjectKinds {
  import opened QueryModel
  import opened QueryRuns

  /** Values whose kinds rule each other out point into different objects. */
  lemma KindsDiffer(m: Model, origin: Object -> Value, v: Value, o: Object, w: Value, p: Object)
    requires v != w && KindsApart(m, v, w) && KindTrue(m, origin, v, o) && KindTrue(m, origin, w, p)
    ensures o != p
  {
  }

  /** Local and non-escaping objects are identified, and a null pointer is not non-null. */
  predicate KindsFit(m: Model, v: Value) {
    (m.isFunctionLocal(v) || m.isNonEscaping(v) ==> m.isIdentified(v)) && !(m.isNull(v) && m.isNonNull(v))
  }

  ghost predicate NeverOneObject(m: Model, v: Value, w: Value) {
    forall origin: Object -> Value, o: Object {:trigger KindTrue(m, origin, v, o)} :: !(KindTrue(m, origin, v, o) && KindTrue(m, origin, w, o))
  }

  /** What may have made an object into which both values point. */
  function CommonOrigin(m: Model, v: Value, w: Value): Value {
    if m.isIdentified(v) then v else if m.isIdentified(w) then w else if m.isConstant(w) then w else v
  }

  /**
   The tests are exact: the kinds of two different values rule each other out if and only if
   no object could be what both point into, by what the tests on each say of its object.
   */
  lemma KindsExact(m: Model, v: Value, w: Value)
    requires v != w && KindsFit(m, v) && KindsFit(m, w)
    ensures KindsApart(m, v, w) <==> NeverOneObject(m, v, w)
  {
    if KindsApart(m, v, w) {
      forall origin: Object -> Value, o: Object ensures !(KindTrue(m, origin, v, o) && KindTrue(m, origin, w, o)) {
        if KindTrue(m, origin, v, o) && KindTrue(m, origin, w, o) {
          KindsDiffer(m, origin, v, o, w, o);
        }
      }
    } else {
      var z := CommonOrigin(m, v, w);
      var origin: Object -> Value := o => z;
      var o: Object := if m.isNull(v) || m.isNull(w) then NULL_OBJECT else NULL_OBJECT + 1;
      assert KindTrue(m, origin, v, o) && KindTrue(m, origin, w, o);
    }
  }
}
