/** What each way of taking a query apart needs from the answers to its parts. */
module QueryRules {
  import opened AliasResults
  import opened Arith
  import opened GepModel
  import opened LinearExpression
  import opened Decomposition
  import opened IndexDifference
  import opened OffsetRules
  import opened FieldRule
  import opened AliasGEP
  import opened QueryModel
  import opened QueryRuns
  import opened ObjectKinds

  /**
   The answer is true in every execution that agrees with the program and its helpers, of v and
   w as they are at any two moments between which the query asks about them.
   */
  ghost predicate AlwaysTrue(m: Model, u: Turns, r: AliasResult, v: Value, s: Size, w: Value, t: Size) {
    forall e: Run, i, j {:trigger Holds(m, e, r, i, v, s, j, w, t)} | Covered(m, u, e) && Linked(m, e, Passed(u, v, w), i, j) ::
      Holds(m, e, r, i, v, s, j, w, t)
  }

  /** The same for programs without descending GEPs; of others it says nothing. */
  ghost predicate Always(m: Model, u: Turns, r: AliasResult, v: Value, s: Size, w: Value, t: Size) {
    NoDescent(m) ==> AlwaysTrue(m, u, r, v, s, w, t)
  }

  /** A pair that a query can ask about. */
  ghost predicate PairKnown(m: Model, u: Turns, v: Value, w: Value) {
    v in m.values && w in m.values && Foreseen(u, v, w) && TurnsGood(m, u)
  }

  lemma KnownGood(m: Model, u: Turns, v: Value, w: Value)
    requires PairKnown(m, u, v, w)
    ensures PairGood(m, u, v, w) && PairKnown(m, u, w, v)
  {
    assert PairGood(m, u, v, w);
  }

  lemma AlwaysSymmetric(m: Model, u: Turns, r: AliasResult, v: Value, s: Size, w: Value, t: Size)
    requires PairKnown(m, u, v, w)
    ensures Always(m, u, r, v, s, w, t) ==> Always(m, u, r, w, t, v, s)
  {
    KnownGood(m, u, v, w);
    if Always(m, u, r, v, s, w, t) {
      forall e: Run, i, j | NoDescent(m) && Covered(m, u, e) && Linked(m, e, Passed(u, w, v), i, j)
        ensures Holds(m, e, r, i, w, t, j, v, s) {
        LinkedSymmetric(m, e, Passed(u, w, v), i, j);
        assert Holds(m, e, r, j, v, s, i, w, t);
        HoldsSymmetric(m, e, r, j, v, s, i, w, t);
      }
    }
  }

  /** A true answer for a pair that another leads to is true at the moments of that other. */
  lemma TrueThere(m: Model, u: Turns, e: Run, r: AliasResult, blocks: set<Block>, i: Time, v: Value, s: Size, j: Time, w: Value, t: Size)
    requires Covered(m, u, e) && v in m.values && w in m.values && AlwaysTrue(m, u, r, v, s, w, t)
    requires Linked(m, e, blocks, i, j) && LeadsTo(m, u, blocks, v, w)
    ensures Holds(m, e, r, i, v, s, j, w, t)
  {
    if Passed(u, v, w) != blocks {
      if Unreached(m, blocks, v) {
        assert Unchanged(e, i, j, v);
        LinkedSame(m, e, j);
        assert Holds(m, e, r, j, v, s, j, w, t);
        HoldsOfSame(m, e, r, i, v, j, v, s, j, w, j, w, t);
      } else {
        assert Unchanged(e, i, j, w);
        LinkedSame(m, e, i);
        assert Holds(m, e, r, i, v, s, i, w, t);
        HoldsOfSame(m, e, r, i, v, i, v, s, j, w, i, w, t);
      }
    }
  }

  lemma {:induction false} StripTwice(v: Value)
    ensures Strip(Strip(v)) == Strip(v)
  {
    if CanStrip(v) {
      StripTwice(Beneath(v));
    }
  }

  lemma AlwaysUnstripped(m: Model, u: Turns, r: AliasResult, v: Value, s: Size, w: Value, t: Size)
    requires ProgramGood(m) && PairKnown(m, u, v, w)
    ensures Always(m, u, r, Strip(v), s, Strip(w), t) ==> Always(m, u, r, v, s, w, t)
  {
    KnownGood(m, u, v, w);
    if Always(m, u, r, Strip(v), s, Strip(w), t) {
      forall e: Run, i, j | NoDescent(m) && Covered(m, u, e) && Linked(m, e, Passed(u, v, w), i, j)
        ensures Holds(m, e, r, i, v, s, j, w, t) {
        assert Holds(m, e, r, i, Strip(v), s, j, Strip(w), t);
        assert ValueGood(m, v) && ValueGood(m, w);
        StripStays(m, u, e, i, v);
        StripStays(m, u, e, j, w);
        StripTwice(v);
        StripTwice(w);
        HoldsOfSame(m, e, r, i, v, i, Strip(v), s, j, w, j, Strip(w), t);
      }
    }
  }

  /** MayAlias and PartialAlias claim nothing. */
  lemma NoClaim(m: Model, u: Turns, r: AliasResult, v: Value, s: Size, w: Value, t: Size)
    requires r == MayAlias || r == PartialAlias
    ensures Always(m, u, r, v, s, w, t)
  {
  }

  lemma WholeIsTrue(m: Model, u: Turns, v: Value, s: Size, w: Value, t: Size)
    requires forall e, i, j {:trigger WhollyApart(e, i, v, s, j, w, t)} | Covered(m, u, e) :: WhollyApart(e, i, v, s, j, w, t)
    ensures Always(m, u, NoAlias, v, s, w, t)
  {
    forall e: Run, i, j | NoDescent(m) && Covered(m, u, e) && Linked(m, e, Passed(u, v, w), i, j)
      ensures Holds(m, e, NoAlias, i, v, s, j, w, t) {
      assert WhollyApart(e, i, v, s, j, w, t);
      WhollyIsApart(e, i, v, s, j, w, t);
    }
  }

  lemma EmptyAccess(m: Model, u: Turns, v: Value, s: Size, w: Value, t: Size)
    requires s == Known(0) || t == Known(0)
    ensures Always(m, u, NoAlias, v, s, w, t)
  {
    WholeIsTrue(m, u, v, s, w, t);
  }

  /** A value that none of the blocks on the way reaches is one value at both moments. */
  lemma SameValue(m: Model, u: Turns, v: Value, s: Size, t: Size)
    requires v in m.values && Unreached(m, Passed(u, v, v), v)
    ensures Always(m, u, MustAlias, v, s, v, t)
  {
    forall e: Run, i, j | NoDescent(m) && Covered(m, u, e) && Linked(m, e, Passed(u, v, v), i, j)
      ensures Holds(m, e, MustAlias, i, v, s, j, v, t) {
      assert Unchanged(e, i, j, v);
    }
  }

  /** There is no legal access through an undefined value or one that is no pointer. */
  lemma NoPointer(m: Model, u: Turns, v: Value, s: Size, w: Value, t: Size)
    requires v in m.values && w in m.values
    requires m.isUndef(v) || !m.isPointer(v) || m.isUndef(w) || !m.isPointer(w)
    ensures Always(m, u, NoAlias, v, s, w, t)
  {
    forall e: Run, i, j | Covered(m, u, e) ensures WhollyApart(e, i, v, s, j, w, t) {
      assert ValueTrue(m, e, i, v) && ValueTrue(m, e, j, w);
    }
    WholeIsTrue(m, u, v, s, w, t);
  }

  lemma DifferentObjects(m: Model, u: Turns, v: Value, s: Size, w: Value, t: Size)
    requires ProgramGood(m) && v in m.values && w in m.values && ObjectsApart(m, v, s, w, t)
    ensures Always(m, u, NoAlias, v, s, w, t)
  {
    assert LeadsInside(m, v) && LeadsInside(m, w);
    forall e: Run, i, j | Covered(m, u, e) ensures WhollyApart(e, i, v, s, j, w, t) {
      UnderHome(m, u, e, i, v);
      UnderHome(m, u, e, j, w);
      assert ValueTrue(m, e, i, Under(v)) && ValueTrue(m, e, j, Under(w));
      if Under(v) != Under(w) && KindsApart(m, Under(v), Under(w)) {
        KindsDiffer(m, e.memory.origin, Under(v), Home(e, i, v), Under(w), Home(e, j, w));
      }
    }
    WholeIsTrue(m, u, v, s, w, t);
  }

  lemma NothingShared(m: Model, u: Turns, v: Value, s: Size, w: Value, t: Size)
    requires ProgramGood(m) && v in m.values && w in m.values
    requires !m.isPointer(v) || !m.isPointer(w) || ObjectsApart(m, v, s, w, t)
    ensures Always(m, u, NoAlias, v, s, w, t)
  {
    if ObjectsApart(m, v, s, w, t) {
      DifferentObjects(m, u, v, s, w, t);
    } else {
      NoPointer(m, u, v, s, w, t);
    }
  }

  lemma FromNext(m: Model, u: Turns, v: Value, s: Size, w: Value, t: Size)
    requires v in m.values && w in m.values
    ensures Always(m, u, m.next(Loc(v, s), Loc(w, t)), v, s, w, t)
  {
    var r := m.next(Loc(v, s), Loc(w, t));
    forall e: Run, i, j | NoDescent(m) && Covered(m, u, e) && Linked(m, e, Passed(u, v, w), i, j)
      ensures Holds(m, e, r, i, v, s, j, w, t) {
      assert NextTrue(m, e, i, v, s, j, w, t);
      if r == NoAlias {
        WhollyIsApart(e, i, v, s, j, w, t);
      }
    }
  }

  /** One of the accesses covers an object that both pointers are in. */
  predicate CoversObject(m: Model, v: Value, s: Size, w: Value, t: Size) {
    Under(v) == Under(w) && ((s.Known? && m.isWholeObject(Under(v), s.bytes)) || (t.Known? && m.isWholeObject(Under(w), t.bytes)))
  }

  /** Then, if the size is that of the object, legal accesses that are not empty share a byte. */
  lemma CoveringMeets(m: Model, u: Turns, e: Run, i: Time, v: Value, s: Size, w: Value, t: Size, n: nat, k: nat)
    requires ProgramGood(m) && Covered(m, u, e) && v in m.values && w in m.values && CoversObject(m, v, s, w, t)
    requires forall size: nat | m.isWholeObject(Under(v), size) :: Length(e, i, Under(v)) == size
    requires Touches(e, i, v, s, n) && Touches(e, i, w, t, k) && n > 0 && k > 0
    ensures !Disjoint(Place(e, i, v), n, Place(e, i, w), k)
  {
    assert LeadsInside(m, v);
    UnderHome(m, u, e, i, v);
    UnderHome(m, u, e, i, w);
    var a, b := Place(e, i, v), Place(e, i, w);
    if s.Known? && m.isWholeObject(Under(v), s.bytes) {
      assert ByteAt(a, b - a) == ByteAt(b, 0);
    } else {
      assert ByteAt(a, 0) == ByteAt(b, a - b);
    }
  }

  // ----- Selects -----

  /** A phi or select is taken apart by a rule. */
  lemma NotPlain(m: Model, v: Value)
    requires ProgramGood(m) && v in m.values && !m.node(v).Other?
    ensures !Plain(m, v)
  {
    assert ValueGood(m, v);
  }

  /** The arm that a select is at a moment. */
  ghost function Arm(m: Model, e: Run, i: Time, v: Value): Value
    requires m.node(v).Select?
  {
    if e.at(i).chosen(m.node(v).cond) then m.node(v).ifTrue else m.node(v).ifFalse
  }

  lemma SelectsTogether(m: Model, u: Turns, v: Value, s: Size, w: Value, t: Size, a: AliasResult, b: AliasResult)
    requires ProgramGood(m) && PairKnown(m, u, v, w)
    requires m.node(v).Select? && m.node(w).Select? && m.node(v).cond == m.node(w).cond
    requires Always(m, u, a, m.node(v).ifTrue, s, m.node(w).ifTrue, t) && Always(m, u, b, m.node(v).ifFalse, s, m.node(w).ifFalse, t)
    ensures Always(m, u, Merge(b, a), v, s, w, t)
  {
    NotPlain(m, v);
    NotPlain(m, w);
    KnownGood(m, u, v, w);
    assert LeadsInside(m, v) && LeadsInside(m, w) && SelectPairGood(m, u, v, w);
    forall e: Run, i, j | NoDescent(m) && Covered(m, u, e) && Linked(m, e, Passed(u, v, w), i, j)
      ensures Holds(m, e, Merge(b, a), i, v, s, j, w, t) {
      assert SelectChooses(m, e, i, v) && SelectChooses(m, e, j, w);
      assert e.at(i).chosen(m.node(v).cond) == e.at(j).chosen(m.node(v).cond);
      var v', w', r := Arm(m, e, i, v), Arm(m, e, j, w), if e.at(i).chosen(m.node(v).cond) then a else b;
      TrueThere(m, u, e, r, Passed(u, v, w), i, v', s, j, w', t);
      MergeClaims(m, e, b, a, i, v', s, j, w', t);
      HoldsOfSame(m, e, Merge(b, a), i, v, i, v', s, j, w, j, w', t);
    }
  }

  lemma SelectAgainst(m: Model, u: Turns, v: Value, s: Size, w: Value, t: Size, a: AliasResult, b: AliasResult)
    requires ProgramGood(m) && PairKnown(m, u, v, w)
    requires m.node(v).Select? && !(m.node(w).Select? && m.node(v).cond == m.node(w).cond)
    requires Always(m, u, a, w, t, m.node(v).ifTrue, s) && Always(m, u, b, w, t, m.node(v).ifFalse, s)
    ensures Always(m, u, Merge(b, a), v, s, w, t)
  {
    NotPlain(m, v);
    KnownGood(m, u, v, w);
    assert LeadsInside(m, v) && SelectPairGood(m, u, v, w);
    forall e: Run, i, j | NoDescent(m) && Covered(m, u, e) && Linked(m, e, Passed(u, v, w), i, j)
      ensures Holds(m, e, Merge(b, a), i, v, s, j, w, t) {
      assert SelectChooses(m, e, i, v);
      var v', r := Arm(m, e, i, v), if e.at(i).chosen(m.node(v).cond) then a else b;
      LinkedSymmetric(m, e, Passed(u, v, w), i, j);
      TrueThere(m, u, e, r, Passed(u, v, w), j, w, t, i, v', s);
      HoldsSymmetric(m, e, r, j, w, t, i, v', s);
      MergeClaims(m, e, b, a, i, v', s, j, w, t);
      HoldsOfSame(m, e, Merge(b, a), i, v, i, v', s, j, w, j, w, t);
    }
  }

  // ----- Phis -----

  /** The answer is true for the values both phis take over edge k. */
  ghost predicate EdgeHolds(m: Model, u: Turns, r: AliasResult, v: Value, s: Size, w: Value, t: Size, k: nat)
    requires PhisTogether(m, v, w) && k < |m.node(v).values|
  {
    Always(m, u, r, m.node(v).values[k], s, IncomingFor(m.node(w).values, m.node(w).blocks, m.node(v).blocks[k]), t)
  }

  ghost predicate EdgesHold(m: Model, u: Turns, r: AliasResult, v: Value, s: Size, w: Value, t: Size, n: nat)
    requires PhisTogether(m, v, w) && n <= |m.node(v).values|
  {
    forall k {:trigger EdgeHolds(m, u, r, v, s, w, t, k)} | 0 <= k < n :: EdgeHolds(m, u, r, v, s, w, t, k)
  }

  lemma OneMoreEdge(m: Model, u: Turns, r: AliasResult, v: Value, s: Size, w: Value, t: Size, n: nat)
    requires PhisTogether(m, v, w) && n < |m.node(v).values|
    requires EdgesHold(m, u, r, v, s, w, t, n) && EdgeHolds(m, u, r, v, s, w, t, n)
    ensures EdgesHold(m, u, r, v, s, w, t, n + 1)
  {
  }

  lemma FirstIndex(values: seq<Value>, blocks: seq<Block>, b: Block) returns (i: nat)
    requires |values| == |blocks| && b in blocks
    ensures i < |blocks| && blocks[i] == b && values[i] == IncomingFor(values, blocks, b)
  {
    if blocks[0] == b {
      i := 0;
    } else {
      i := FirstIndex(values[1..], blocks[1..], b);
      i := i + 1;
    }
  }

  /** Two phis of one block, at one moment, took their values over the same edge. */
  lemma PhiPairs(m: Model, u: Turns, r: AliasResult, v: Value, s: Size, w: Value, t: Size)
    requires ProgramGood(m) && PairKnown(m, u, v, w)
    requires PhisTogether(m, v, w) && EdgesHold(m, u, r, v, s, w, t, |m.node(v).values|)
    ensures Always(m, u, r, v, s, w, t)
  {
    NotPlain(m, v);
    NotPlain(m, w);
    KnownGood(m, u, v, w);
    assert LeadsInside(m, v) && LeadsInside(m, w) && PhiPairGood(m, u, v, w);
    forall e: Run, i, j | NoDescent(m) && Covered(m, u, e) && Linked(m, e, Passed(u, v, w), i, j)
      ensures Holds(m, e, r, i, v, s, j, w, t) {
      assert PhiArrives(m, e, i, v) && PhiArrives(m, e, i, w);
      var b := m.node(v).block;
      var i', from := e.entry(i, b), e.from(i, b);
      var k := FirstIndex(m.node(v).values, m.node(v).blocks, from);
      var v', w' := m.node(v).values[k], IncomingFor(m.node(w).values, m.node(w).blocks, from);
      assert EdgeHolds(m, u, r, v, s, w, t, k);
      LinkedSame(m, e, i');
      TrueThere(m, u, e, r, {}, i', v', s, i', w', t);
      HoldsOfSame(m, e, r, i, v, i', v', s, i, w, i', w', t);
    }
  }

  ghost predicate SourcesHold(m: Model, u: Turns, r: AliasResult, srcs: seq<Value>, s: Size, w: Value, t: Size) {
    forall v | v in srcs :: Always(m, u, r, w, t, v, s)
  }

  /** Back from a moment to the last entry of a block. */
  lemma EntryOn(m: Model, u: Turns, e: Run, blocks: set<Block>, b: Block, i: Time, j: Time)
    requires Covered(m, u, e) && Linked(m, e, blocks, i, j) && (u.AtOnce? ==> blocks == {})
    ensures Linked(m, e, After(u, blocks, b), e.entry(i, b), j)
  {
    assert EntryLinked(m, u, e, i, b);
    if u.Turning? {
      assert {} + {b} == {b};
      LinkedOn(m, e, blocks, b, i, e.entry(i, b), j);
    }
  }

  /** A phi is where one of its sources was when its block was last entered. */
  lemma PhiSources(m: Model, u: Turns, r: AliasResult, v: Value, srcs: seq<Value>, s: Size, w: Value, t: Size)
    requires ProgramGood(m) && PairKnown(m, u, v, w)
    requires m.node(v).Phi? && !PhisTogether(m, v, w) && SourcesHold(m, u, r, srcs, s, w, t)
    requires forall x | x in m.node(v).values :: x in srcs
    ensures Always(m, u, r, v, s, w, t)
  {
    NotPlain(m, v);
    KnownGood(m, u, v, w);
    assert LeadsInside(m, v) && PhiPairGood(m, u, v, w);
    var b, blocks := m.node(v).block, Passed(u, v, w);
    forall e: Run, i, j | NoDescent(m) && Covered(m, u, e) && Linked(m, e, blocks, i, j)
      ensures Holds(m, e, r, i, v, s, j, w, t) {
      assert PhiArrives(m, e, i, v);
      var i' := e.entry(i, b);
      var v' := IncomingFor(m.node(v).values, m.node(v).blocks, e.from(i, b));
      EntryOn(m, u, e, blocks, b, i, j);
      LinkedSymmetric(m, e, After(u, blocks, b), i', j);
      assert Always(m, u, r, w, t, v', s);
      TrueThere(m, u, e, r, After(u, blocks, b), j, w, t, i', v', s);
      HoldsSymmetric(m, e, r, j, w, t, i', v', s);
      HoldsOfSame(m, e, r, i, v, i', v', s, j, w, j, w, t);
    }
  }

  lemma MergeKeeps(m: Model, u: Turns, a: AliasResult, b: AliasResult, v: Value, s: Size, w: Value, t: Size)
    ensures Always(m, u, a, v, s, w, t) ==> Always(m, u, Merge(a, b), v, s, w, t) && Always(m, u, Merge(b, a), v, s, w, t)
  {
    if Always(m, u, a, v, s, w, t) {
      MergeAbsorbs(a, b, b);
      forall e: Run, i, j | NoDescent(m) && Covered(m, u, e) && Linked(m, e, Passed(u, v, w), i, j)
        ensures Holds(m, e, Merge(a, b), i, v, s, j, w, t) {
        assert Holds(m, e, a, i, v, s, j, w, t);
        MergeClaims(m, e, a, b, i, v, s, j, w, t);
      }
    }
  }

  // ----- GEPs: the bases decide -----

  /** The size at which the bases are compared. */
  function AnchorSize(w: Value, t: Size): Size {
    if w.Gep? then UNKNOWN_SIZE else t
  }

  /** A legal access through a GEP that only steps up is one through its base. */
  lemma AccessFromBase(m: Model, u: Turns, e: Run, i: Time, v: Value, n: nat) returns (k: nat)
    requires ProgramGood(m) && Covered(m, u, e) && v in m.values && v.Gep? && Upward(v, MAX_LOOKUP_SEARCH_DEPTH) && Legal(e, i, v, n)
    ensures Legal(e, i, Under(v), k) && Gap(Place(e, i, v), Place(e, i, Under(v))) + n == k
  {
    assert ValueGood(m, v) && GepComputed(m, e, i, v);
    UpwardClimbs(v, MAX_LOOKUP_SEARCH_DEPTH, e.at(i).env);
    UnderHome(m, u, e, i, v);
    InPlace(e, i, v);
    InPlace(e, i, Under(v));
    GapUp(Place(e, i, v), Place(e, i, Under(v)));
    k := At(e, i, v) - At(e, i, Under(v)) + n;
  }

  lemma InPlace(e: Run, i: Time, v: Value)
    requires 0 <= At(e, i, v) < TWO64
    ensures Place(e, i, v) == At(e, i, v)
  {
    ModSmall(At(e, i, v), TWO64);
  }

  lemma GapUp(a: int, b: int)
    requires 0 <= b <= a < TWO64
    ensures Gap(a, b) == a - b
  {
    ModSmall(a - b, TWO64);
  }

  /** What rules out every access from one base on rules out those through a GEP off it. */
  lemma UpFromBase(m: Model, u: Turns, e: Run, i: Time, v: Value, s: Size, j: Time, w: Value, t: Size)
    requires ProgramGood(m) && Covered(m, u, e) && v in m.values && v.Gep? && Upward(v, MAX_LOOKUP_SEARCH_DEPTH)
    requires Apart(e, i, Under(v), UNKNOWN_SIZE, j, w, t)
    ensures Apart(e, i, v, s, j, w, t)
  {
    forall n: nat, k: nat | Touches(e, i, v, s, n) && Touches(e, j, w, t, k) ensures Disjoint(Place(e, i, v), n, Place(e, j, w), k) {
      var n' := AccessFromBase(m, u, e, i, v, n);
      assert Touches(e, i, Under(v), UNKNOWN_SIZE, n');
      PartDisjoint(Place(e, i, v), n, Place(e, i, Under(v)), n', Place(e, j, w), k);
    }
  }

  /** Objects that are different, or too small, are so for every pointer into them. */
  lemma WhollyFromBases(m: Model, u: Turns, e: Run, i: Time, v: Value, s: Size, j: Time, w: Value, t: Size)
    requires Covered(m, u, e) && v.Gep? && WhollyApart(e, i, Under(v), UNKNOWN_SIZE, j, Anchor(w), AnchorSize(w, t))
    ensures WhollyApart(e, i, v, s, j, w, t)
  {
    UnderHome(m, u, e, i, v);
    UnderHome(m, u, e, j, w);
  }

  /** NoAlias of the bases holds for the GEPs: they stay in the objects of plain bases, and above any other. */
  lemma BasesApart(m: Model, u: Turns, e: Run, i: Time, v: Value, s: Size, j: Time, w: Value, t: Size)
    requires ProgramGood(m) && NoDescent(m) && Covered(m, u, e) && v in m.values && w in m.values && v.Gep?
    requires Holds(m, e, NoAlias, i, Under(v), UNKNOWN_SIZE, j, Anchor(w), AnchorSize(w, t))
    ensures Holds(m, e, NoAlias, i, v, s, j, w, t)
  {
    if NeedsWhole(m, Under(v), UNKNOWN_SIZE, Anchor(w), AnchorSize(w, t)) {
      WhollyFromBases(m, u, e, i, v, s, j, w, t);
      WhollyIsApart(e, i, v, s, j, w, t);
    } else if w.Gep? {
      UpFromBase(m, u, e, i, v, s, j, Under(w), UNKNOWN_SIZE);
      NoByteSymmetric(e, i, v, s, j, Under(w), UNKNOWN_SIZE);
      UpFromBase(m, u, e, j, w, t, i, v, s);
      NoByteSymmetric(e, j, w, t, i, v, s);
    } else {
      UpFromBase(m, u, e, i, v, s, j, w, t);
    }
  }

  // ----- GEPs: equal offsets -----

  /** Moving two ranges by one distance keeps them apart. */
  lemma ShiftedApart(a: int, b: int, a': int, b': int, n: nat)
    requires Disjoint(a, n, b, n) && Cong(a' - a, b' - b, TWO64)
    ensures Disjoint(a' % TWO64, n, b' % TWO64, n)
  {
    var d := a' - a;
    CongRefl(b, TWO64);
    CongSym(d, b' - b, TWO64);
    CongAdd(b, b, b' - b, d, TWO64);
    CongRefl(a', TWO64);
    ShiftDisjoint(a, n, b, n, a', b', d);
    ApartPlaces(a', n, b', n);
  }

  lemma PlacesApart(e: Run, i: Time, v: Value, j: Time, w: Value, n: nat)
    requires Disjoint(Place(e, i, v), n, Place(e, j, w), n)
    ensures Disjoint(At(e, i, v), n, At(e, j, w), n)
  {
    forall x, y | 0 <= x < n && 0 <= y < n ensures ByteAt(At(e, i, v), x) != ByteAt(At(e, j, w), y) {
      SamePlaceByte(At(e, i, v), x);
      SamePlaceByte(At(e, j, w), y);
      assert ByteAt(Place(e, i, v), x) != ByteAt(Place(e, j, w), y);
    }
  }

  /** Both pointers are as far from their bases. */
  ghost predicate ShiftedAlike(e: Run, i: Time, v: Value, j: Time, w: Value) {
    Cong(At(e, i, v) - At(e, i, Under(v)), At(e, j, w) - At(e, j, Under(w)), TWO64)
  }

  /** As far from its base as a GEP that only steps up, a legal access is as legal at the base. */
  lemma AccessBoth(m: Model, u: Turns, e: Run, i: Time, v: Value, j: Time, w: Value, n: nat)
    requires ProgramGood(m) && Covered(m, u, e) && v in m.values && v.Gep? && w in m.values && w.Gep? && n > 0
    requires Upward(w, MAX_LOOKUP_SEARCH_DEPTH) && Legal(e, i, v, n) && Legal(e, j, w, n) && ShiftedAlike(e, i, v, j, w)
    ensures Legal(e, i, Under(v), n) && Legal(e, j, Under(w), n)
  {
    assert ValueGood(m, v) && ValueGood(m, w) && GepComputed(m, e, i, v) && GepComputed(m, e, j, w);
    UpwardClimbs(w, MAX_LOOKUP_SEARCH_DEPTH, e.at(j).env);
    UnderHome(m, u, e, i, v);
    UnderHome(m, u, e, j, w);
    InPlace(e, i, v);
    InPlace(e, j, w);
    var k := CongElim(At(e, i, v) - At(e, i, Under(v)), At(e, j, w) - At(e, j, Under(w)), TWO64);
    assert k == 0;
    InPlace(e, i, Under(v));
    InPlace(e, j, Under(w));
  }

  /** Bases apart at the access size, and pointers as far from them. */
  lemma EqualOffsets(m: Model, u: Turns, e: Run, i: Time, v: Value, j: Time, w: Value, s: Size)
    requires ProgramGood(m) && NoDescent(m) && Covered(m, u, e) && v in m.values && w in m.values && v.Gep? && w.Gep?
    requires Holds(m, e, NoAlias, i, Under(v), s, j, Under(w), s) && ShiftedAlike(e, i, v, j, w)
    ensures Holds(m, e, NoAlias, i, v, s, j, w, s)
  {
    if s.UnknownSize? {
      BasesApart(m, u, e, i, v, s, j, w, s);
    } else {
      forall n: nat, k: nat | Touches(e, i, v, s, n) && Touches(e, j, w, s, k) ensures Disjoint(Place(e, i, v), n, Place(e, j, w), k) {
        if n > 0 {
          EqualOffsetsKnown(m, u, e, i, v, j, w, n);
        }
      }
      EqualOffsetsWhole(m, u, e, i, v, j, w, s);
    }
  }

  /** Two plain GEPs apart at every legal access: one object is dead, or another, or the ranges are apart. */
  lemma EqualOffsetsWhole(m: Model, u: Turns, e: Run, i: Time, v: Value, j: Time, w: Value, s: Size)
    requires ProgramGood(m) && Covered(m, u, e) && v in m.values && w in m.values && v.Gep? && w.Gep? && s.Known?
    ensures !NeedsWhole(m, v, s, w, s)
  {
  }

  lemma EqualOffsetsKnown(m: Model, u: Turns, e: Run, i: Time, v: Value, j: Time, w: Value, n: nat)
    requires ProgramGood(m) && NoDescent(m) && Covered(m, u, e) && v in m.values && w in m.values && v.Gep? && w.Gep? && n > 0
    requires Holds(m, e, NoAlias, i, Under(v), Known(n), j, Under(w), Known(n)) && ShiftedAlike(e, i, v, j, w)
    requires Legal(e, i, v, n) && Legal(e, j, w, n)
    ensures Disjoint(Place(e, i, v), n, Place(e, j, w), n)
  {
    var u1, u2 := Under(v), Under(w);
    UnderHome(m, u, e, i, v);
    UnderHome(m, u, e, j, w);
    if Plain(m, u1) && Plain(m, u2) {
      if !Disjoint(Place(e, i, u1), n, Place(e, j, u2), n) {
        assert Home(e, i, v) != Home(e, j, w);
        assert WhollyApart(e, i, v, Known(n), j, w, Known(n));
        WhollyIsApart(e, i, v, Known(n), j, w, Known(n));
        assert Touches(e, i, v, Known(n), n) && Touches(e, j, w, Known(n), n);
        return;
      }
    } else {
      if Plain(m, u2) {
        CongSym(At(e, i, v) - At(e, i, u1), At(e, j, w) - At(e, j, u2), TWO64);
        AccessBoth(m, u, e, j, w, i, v, n);
      } else {
        AccessBoth(m, u, e, i, v, j, w, n);
      }
      assert Touches(e, i, u1, Known(n), n) && Touches(e, j, u2, Known(n), n);
    }
    PlacesApart(e, i, u1, j, u2, n);
    ShiftedApart(At(e, i, u1), At(e, j, u2), At(e, i, v), At(e, j, w), n);
  }

  // ----- GEPs: fields and offsets -----

  /** The question about a GEP, once the bases have been asked about. */
  function QuestionOf(v: Value, s: Size, w: Value, t: Size, base: AliasResult, precise: AliasResult): Question {
    Question(v, s, w, t, Under(v), Under(w), base, precise, base)
  }

  lemma QuestionGood(m: Model, v: Value, s: Size, w: Value, t: Size, base: AliasResult, precise: AliasResult)
    requires ProgramGood(m) && v in m.values && w in m.values && v.Gep?
    ensures QuestionOf(v, s, w, t, base, precise).Valid()
  {
    assert ValueGood(m, v) && ValueGood(m, w);
    UnderWellFormed(v, MAX_LOOKUP_SEARCH_DEPTH);
    UnderWellFormed(w, MAX_LOOKUP_SEARCH_DEPTH);
  }

  /** A common base of fields has one address at both moments. */
  lemma OneBase(m: Model, u: Turns, e: Run, i: Time, v: Value, j: Time, w: Value)
    requires ProgramGood(m) && PairKnown(m, u, v, w) && Linked(m, e, Passed(u, v, w), i, j)
    requires EndInFields(v, w) && v.base == w.base
    ensures At(e, i, v.base) == At(e, j, v.base)
  {
    KnownGood(m, u, v, w);
    if Passed(u, v, w) != {} {
      assert Unchanged(e, i, j, v.base);
    }
  }

  /** Fields at constant offsets of one struct. */
  lemma FieldsHold(m: Model, u: Turns, e: Run, i: Time, v: Value, s: Size, j: Time, w: Value, t: Size, base: AliasResult, precise: AliasResult)
    requires ProgramGood(m) && Covered(m, u, e) && v in m.values && w in m.values && v.Gep? && w.Gep?
    requires QuestionOf(v, s, w, t, base, precise).Valid() && At(e, i, v.base) == At(e, j, v.base)
    requires Justified(QuestionOf(v, s, w, t, base, precise), NoAlias, Fields, e.at(i).env, e.at(j).env)
    ensures Holds(m, e, NoAlias, i, v, s, j, w, t)
  {
    var q := QuestionOf(v, s, w, t, base, precise);
    assert GepComputed(m, e, i, v) && GepComputed(m, e, j, w);
    InPlace(e, i, v);
    InPlace(e, j, w);
    forall n: nat, k: nat | Touches(e, i, v, s, n) && Touches(e, j, w, t, k) ensures Disjoint(Place(e, i, v), n, Place(e, j, w), k) {
      if n > 0 && k > 0 {
        FieldPremiseMet(m, u, e, i, j, q, n, k);
        assert Accesses(n, s) && Accesses(k, t);
      }
    }
  }

  /** Legal accesses fit the address space, and no sum of an offset and a size overflows. */
  lemma FieldPremiseMet(m: Model, u: Turns, e: Run, i: Time, j: Time, q: Question, n: nat, k: nat)
    requires ProgramGood(m) && Covered(m, u, e) && q.Valid() && q.g1 in m.values && q.v2 in m.values
    requires EndInFields(q.g1, q.v2) && q.g1.base == q.v2.base && q.s1.Known? && q.s2.Known? && At(e, i, q.g1.base) == At(e, j, q.g1.base)
    requires Touches(e, i, q.g1, q.s1, n) && Touches(e, j, q.v2, q.s2, k) && n > 0 && k > 0
    ensures FieldPremise(q, e.at(i).env, e.at(j).env)
  {
    SameStruct(q.g1, q.v2);
    FieldFits(m, u, e, i, q.g1, n);
    FieldFits(m, u, e, j, q.v2, k);
  }

  lemma FieldFits(m: Model, u: Turns, e: Run, i: Time, v: Value, n: nat)
    requires ProgramGood(m) && Covered(m, u, e) && v in m.values && EndsInField(v) && Legal(e, i, v, n)
    ensures WellFormed(v) && RuleStruct(v).size < TWO64 && NoOverflow(FieldAt(v), n) && InSpace(v, Known(n), e.at(i).env)
  {
    assert ValueGood(m, v) && GepComputed(m, e, i, v);
    InPlace(e, i, v);
    FieldValid(GepContainer(v), v.indices);
  }

  /** The offsets, from bases at one place. */
  lemma OffsetsHold(m: Model, u: Turns, e: Run, i: Time, v: Value, s: Size, j: Time, w: Value, t: Size, r: AliasResult,
                    q: Question, offs: int, vars: seq<VariableIndex>)
    requires ProgramGood(m) && Covered(m, u, e) && v in m.values && w in m.values && v.Gep?
    requires q.Valid() && q == QuestionOf(v, s, w, t, q.baseAlias, q.preciseBaseAlias)
    requires SamePlace(e, i, Under(v), j, Anchor(w)) && Justified(q, r, Offsets(offs, vars), e.at(i).env, e.at(j).env)
    requires t.UnknownSize? ==> r != NoAlias
    ensures Holds(m, e, r, i, v, s, j, w, t)
  {
    UnderHome(m, u, e, i, v);
    UnderHome(m, u, e, j, w);
    CongModEq(Address(q.u1, e.at(i).env), Address(q.Anchor(), e.at(j).env), TWO64);
    assert ValueGood(m, v) && ValueGood(m, w);
    MeaningHolds(e, r, i, v, s, j, w, t);
  }

  /** The equality oracle accepts an index exactly with itself, and not if one of the blocks leads to it; with too many blocks it may refuse more. */
  ghost predicate Heeds(m: Model, visited: set<Block>, eqv: EqualityOracle) {
    && (forall x, y | eqv(x, y) :: x == y && UnreachedIndex(m, visited, x))
    && (|visited| <= MAX_NUM_PHI_BBS ==> forall x {:trigger eqv(x, x)} | UnreachedIndex(m, visited, x) :: eqv(x, x))
  }

  /** What it accepts has one value at both moments. */
  lemma HeedfulAgrees(m: Model, visited: set<Block>, eqv: EqualityOracle, e: Run, blocks: set<Block>, i: Time, j: Time)
    requires Heeds(m, visited, eqv) && blocks <= visited && Linked(m, e, blocks, i, j)
    ensures Agree(eqv, e.at(i).env, e.at(j).env)
  {
    forall x | WellTyped(x) && eqv(x, x) ensures GepModel.Value(x, e.at(i).env) == GepModel.Value(x, e.at(j).env) {
      assert UnreachedIndex(m, blocks, x);
      assert UnchangedIndex(e, i, j, x);
    }
  }

  /** What an answer of the rules for GEPs rests on. */
  ghost predicate GepOutcome(m: Model, visited: set<Block>, q: Question, r: AliasResult)
    requires q.Valid()
  {
    exists why: Reason, eqv: EqualityOracle {:trigger Outcome(q, r, why, m.mask, eqv)} ::
      Heeds(m, visited, eqv) && Outcome(q, r, why, m.mask, eqv)
  }

  /** Variables in equal decompositions have one value at both moments. */
  lemma EqualVariables(m: Model, u: Turns, e: Run, i: Time, v: Value, j: Time, w: Value)
    requires ProgramGood(m) && PairKnown(m, u, v, w) && v.Gep? && w.Gep? && Linked(m, e, Passed(u, v, w), i, j)
    requires WellFormed(v) && WellFormed(w) && Walked(m, v) == Walked(m, w)
    ensures StillVariables(Walked(m, v).vars, e.at(i).env, e.at(j).env)
  {
    KnownGood(m, u, v, w);
    if Passed(u, v, w) != {} {
      forall x | x in Walked(m, v).vars ensures WellTyped(x.v) ==> GepModel.Value(x.v, e.at(i).env) == GepModel.Value(x.v, e.at(j).env) {
        assert UnchangedIndex(e, i, j, x.v);
      }
    }
  }

  /** What the rules justify for every pair of environments they justify for these two moments. */
  lemma JustifiedNow(m: Model, u: Turns, e: Run, i: Time, j: Time, q: Question, visited: set<Block>, r: AliasResult, why: Reason, eqv: EqualityOracle)
    requires Covered(m, u, e) && q.Valid() && q.g1 in m.values && q.v2 in m.values && Outcome(q, r, why, m.mask, eqv)
    requires Linked(m, e, Passed(u, q.g1, q.v2), i, j) && Passed(u, q.g1, q.v2) <= visited && Heeds(m, visited, eqv)
    ensures Justified(q, r, why, e.at(i).env, e.at(j).env)
  {
    assert GepComputed(m, e, i, q.g1) && GepComputed(m, e, j, q.v2);
    HeedfulAgrees(m, visited, eqv, e, Passed(u, q.g1, q.v2), i, j);
    assert q.Exact(m.mask, e.at(i).env, e.at(j).env);
  }

  lemma GepAnswerHolds(m: Model, u: Turns, e: Run, i: Time, v: Value, s: Size, j: Time, w: Value, t: Size,
                       base: AliasResult, precise: AliasResult, visited: set<Block>, r: AliasResult, why: Reason, eqv: EqualityOracle)
    requires ProgramGood(m) && NoDescent(m) && Covered(m, u, e) && PairKnown(m, u, v, w) && v.Gep?
    requires Linked(m, e, Passed(u, v, w), i, j) && Passed(u, v, w) <= visited && Heeds(m, visited, eqv)
    requires QuestionOf(v, s, w, t, base, precise).Valid() && Outcome(QuestionOf(v, s, w, t, base, precise), r, why, m.mask, eqv)
    requires Holds(m, e, base, i, Under(v), UNKNOWN_SIZE, j, Anchor(w), AnchorSize(w, t))
    requires w.Gep? && base == MayAlias && s == t ==> Holds(m, e, precise, i, Under(v), s, j, Under(w), t)
    ensures Holds(m, e, r, i, v, s, j, w, t)
  {
    var q := QuestionOf(v, s, w, t, base, precise);
    JustifiedNow(m, u, e, i, j, q, visited, r, why, eqv);
    match why
    case Deferred =>
      if r == NoAlias {
        BasesApart(m, u, e, i, v, s, j, w, t);
      }
    case SameOffsets(vars) =>
      EqualVariables(m, u, e, i, v, j, w);
      EqualOffsets(m, u, e, i, v, j, w, s);
    case Fields =>
      OneBase(m, u, e, i, v, j, w);
      FieldsHold(m, u, e, i, v, s, j, w, t, base, precise);
    case Offsets(offs, vars) => OffsetsHold(m, u, e, i, v, s, j, w, t, r, q, offs, vars);
  }

  /** The answer for a GEP is true when those for its base are, if GEPs off phis, selects and GEPs only step up. */
  lemma GepAnswerTrue(m: Model, u: Turns, v: Value, s: Size, w: Value, t: Size, base: AliasResult, precise: AliasResult,
                      visited: set<Block>, r: AliasResult)
    requires ProgramGood(m) && PairKnown(m, u, v, w) && v.Gep? && Passed(u, v, w) <= visited
    requires QuestionOf(v, s, w, t, base, precise).Valid() && GepOutcome(m, visited, QuestionOf(v, s, w, t, base, precise), r)
    requires Always(m, u, base, Under(v), UNKNOWN_SIZE, Anchor(w), AnchorSize(w, t))
    requires w.Gep? && base == MayAlias && s == t ==> Always(m, u, precise, Under(v), s, Under(w), t)
    ensures Always(m, u, r, v, s, w, t)
  {
    KnownGood(m, u, v, w);
    assert LeadsInside(m, v) && LeadsInside(m, w);
    var blocks := Passed(u, v, w);
    var why: Reason, eqv: EqualityOracle :| Heeds(m, visited, eqv) && Outcome(QuestionOf(v, s, w, t, base, precise), r, why, m.mask, eqv);
    forall e: Run, i, j | NoDescent(m) && Covered(m, u, e) && Linked(m, e, blocks, i, j) ensures Holds(m, e, r, i, v, s, j, w, t) {
      TrueThere(m, u, e, base, blocks, i, Under(v), UNKNOWN_SIZE, j, Anchor(w), AnchorSize(w, t));
      if w.Gep? && base == MayAlias && s == t {
        TrueThere(m, u, e, precise, blocks, i, Under(v), s, j, Under(w), t);
      }
      GepAnswerHolds(m, u, e, i, v, s, j, w, t, base, precise, visited, r, why, eqv);
    }
  }
}
