/** pointsToConstantMemory: chasing a pointer through selects and phis to the objects it may be. */
module ConstantMemory {
  import opened Wrappers

  type Value(==, !new)

  datatype Node =
    | Alloca
    | Global(isConstant: bool)
    | Select(ifTrue: Value, ifFalse: Value)
    | Phi(values: seq<Value>)
    | Other

  /** What a value is, and the object under it (GetUnderlyingObject). */
  datatype Model = Model(node: Value -> Node, under: Value -> Value)

  const MAX_LOOKUP := 8

  function Operands(m: Model, o: Value): seq<Value> {
    match m.node(o)
    case Select(a, b) => [a, b]
    case Phi(values) => values
    case _ => []
  }

  predicate IsJoin(m: Model, o: Value) {
    m.node(o).Select? || m.node(o).Phi?
  }

  /** Memory nobody writes, or the function's own when that is asked for. */
  predicate GoodObject(m: Model, o: Value, orLocal: bool) {
    m.node(o) == Global(true) || (orLocal && m.node(o).Alloca?)
  }

  // ----- What the pointer may be -----

  ghost predicate LeadsTo(m: Model, o: Value, o': Value) {
    exists w :: w in Operands(m, o) && o' == m.under(w)
  }

  /** Objects, each under an operand of the one before. */
  ghost predicate IsTrail(m: Model, p: seq<Value>) {
    p != [] && forall i | 0 <= i < |p| - 1 :: LeadsTo(m, p[i], p[i + 1])
  }

  /** Every object the pointer may resolve to is good. */
  ghost predicate AllGood(m: Model, v: Value, orLocal: bool) {
    forall p :: IsTrail(m, p) && p[0] == m.under(v) ==> IsJoin(m, p[|p| - 1]) || GoodObject(m, p[|p| - 1], orLocal)
  }

  /** The objects a pointer may resolve to, each with those under its operands. */
  datatype Tree = Tree(obj: Value, below: seq<Tree>)

  ghost predicate IsTreeOf(m: Model, v: Value, t: Tree) {
    && t.obj == m.under(v) && |t.below| == |Operands(m, t.obj)|
    && forall i | 0 <= i < |t.below| :: IsTreeOf(m, Operands(m, t.obj)[i], t.below[i])
  }

  function Objects(t: Tree): seq<Value> {
    [t.obj] + AllObjects(t.below)
  }

  function AllObjects(ts: seq<Tree>): seq<Value> {
    if ts == [] then [] else AllObjects(ts[..|ts| - 1]) + Objects(ts[|ts| - 1])
  }

  /** Selects and phis lead to a tree of different objects, as many as there are lookups or fewer. */
  ghost predicate SmallTree(m: Model, v: Value) {
    exists t :: IsTreeOf(m, v, t) && NoDup(Objects(t)) && |Objects(t)| <= MAX_LOOKUP
  }

  // ----- The walk -----

  /** Yes and no as the walk knows them, or the question for the next analysis. */
  datatype Outcome = Yes | No | Ask

  /** The walk over the work list, last entry first, with the objects seen and the lookups left. */
  function Walk(m: Model, work: seq<Value>, seen: set<Value>, left: nat, orLocal: bool): Outcome
    decreases left
  {
    if work == [] then Yes
    else if left == 0 then No
    else
      var o, rest := m.under(work[|work| - 1]), work[..|work| - 1];
      if o in seen then Ask
      else if GoodObject(m, o, orLocal) || m.node(o).Select? || (m.node(o).Phi? && |m.node(o).values| <= left) then
        Walk(m, rest + Operands(m, o), seen + {o}, left - 1, orLocal)
      else Ask
  }

  predicate ComesTo(m: Model, work: seq<Value>, seen: set<Value>, left: nat, orLocal: bool, outcome: Outcome) {
    Walk(m, work, seen, left, orLocal) == outcome
  }

  /** What is answered, where next is what the next analysis says. */
  function Answer(outcome: Outcome, next: bool): bool {
    match outcome
    case Yes => true
    case No => false
    case Ask => next
  }

  /**
   pointsToConstantMemory. The answer is yes, whatever the next analysis says, exactly if the
   objects are good and there are few enough of them.
   */
  method PointsToConstantMemory(m: Model, v: Value, orLocal: bool, next: bool) returns (r: bool)
    ensures r == Answer(Walk(m, [v], {}, MAX_LOOKUP, orLocal), next)
    ensures AllGood(m, v, orLocal) && SmallTree(m, v) ==> r
    ensures r && !next ==> AllGood(m, v, orLocal) && SmallTree(m, v)
  {
    YesExact(m, v, orLocal);
    r := Chase(m, v, orLocal, next, MAX_LOOKUP);
  }

  /** The loop, for any number of lookups. */
  method Chase(m: Model, v: Value, orLocal: bool, next: bool, lookups: nat) returns (r: bool)
    requires lookups > 0
    ensures r == Answer(Walk(m, [v], {}, lookups, orLocal), next)
  {
    var maxLookup := lookups;
    var worklist, visited := [v], {};
    ghost var outcome := Walk(m, [v], {}, lookups, orLocal);
    while maxLookup > 0
      invariant 0 <= maxLookup && worklist != []
      invariant ComesTo(m, worklist, visited, maxLookup, orLocal, outcome)
      decreases maxLookup
    {
      var ask;
      worklist, visited, ask := Visit(m, worklist, visited, maxLookup, orLocal, outcome);
      if ask {
        return next;
      }
      maxLookup := maxLookup - 1;
      if worklist == [] {
        NothingLeft(m, worklist, visited, maxLookup, orLocal);
        return true;
      }
    }
    NothingLeft(m, worklist, visited, 0, orLocal);
    r := false;
  }

  /** The walk ends when the list or the lookups do. */
  lemma NothingLeft(m: Model, work: seq<Value>, seen: set<Value>, left: nat, orLocal: bool)
    requires work == [] || left == 0
    ensures ComesTo(m, work, seen, left, orLocal, if work == [] then Yes else No)
  {
  }

  /** One turn of the loop: the last entry is replaced by what it joins. */
  method Visit(m: Model, work: seq<Value>, seen: set<Value>, left: nat, orLocal: bool, ghost outcome: Outcome)
    returns (work': seq<Value>, seen': set<Value>, ask: bool)
    requires work != [] && left > 0 && ComesTo(m, work, seen, left, orLocal, outcome)
    ensures if ask then outcome == Ask else ComesTo(m, work', seen', left - 1, orLocal, outcome)
  {
    var o := m.under(work[|work| - 1]);
    work' := work[..|work| - 1];
    if o in seen {
      return work', seen, true;
    }
    seen' := seen + {o};
    match m.node(o)
    case Alloca =>
      ask := !orLocal;
      assert work' + Operands(m, o) == work';
    case Global(isConstant) =>
      ask := !isConstant;
      assert work' + Operands(m, o) == work';
    case Select(a, b) =>
      ask := false;
      work' := work' + [a, b];
    case Phi(values) =>
      ask := |values| > left;
      work' := work' + values;
    case Other =>
      ask := true;
  }

  // ----- Yes means what it says -----

  ghost predicate Handled(m: Model, o: Value, work: seq<Value>, seen: set<Value>, orLocal: bool) {
    if IsJoin(m, o) then forall w | w in Operands(m, o) :: w in work || m.under(w) in seen else GoodObject(m, o, orLocal)
  }

  /** The objects seen are good, or all that they join is seen or on the list. */
  ghost predicate AllHandled(m: Model, work: seq<Value>, seen: set<Value>, orLocal: bool) {
    forall o {:trigger Handled(m, o, work, seen, orLocal)} | o in seen :: Handled(m, o, work, seen, orLocal)
  }

  /** One more object is seen, and what it joins is on the list. */
  lemma StillHandled(m: Model, work: seq<Value>, seen: set<Value>, o: Value, orLocal: bool)
    requires work != [] && o == m.under(work[|work| - 1]) && AllHandled(m, work, seen, orLocal)
    requires IsJoin(m, o) || GoodObject(m, o, orLocal)
    ensures AllHandled(m, work[..|work| - 1] + Operands(m, o), seen + {o}, orLocal)
  {
    var more := work[..|work| - 1] + Operands(m, o);
    assert work == work[..|work| - 1] + [work[|work| - 1]];
    forall x | x in seen + {o} ensures Handled(m, x, more, seen + {o}, orLocal) {
      if x in seen {
        assert Handled(m, x, work, seen, orLocal);
      }
    }
  }

  /** When the walk ends with yes, everything on the list leads only to good objects. */
  lemma {:induction false} WalkSound(m: Model, work: seq<Value>, seen: set<Value>, left: nat, orLocal: bool)
    requires Walk(m, work, seen, left, orLocal) == Yes && AllHandled(m, work, seen, orLocal)
    ensures exists all: set<Value> :: seen <= all && (forall w | w in work :: m.under(w) in all) && AllHandled(m, [], all, orLocal)
    decreases left
  {
    if work == [] {
      assert AllHandled(m, [], seen, orLocal);
    } else {
      var o, rest := m.under(work[|work| - 1]), work[..|work| - 1];
      var more := rest + Operands(m, o);
      assert work == rest + [work[|work| - 1]];
      StillHandled(m, work, seen, o, orLocal);
      WalkSound(m, more, seen + {o}, left - 1, orLocal);
      var all: set<Value> :| seen + {o} <= all && (forall w | w in more :: m.under(w) in all) && AllHandled(m, [], all, orLocal);
      assert forall w | w in work :: m.under(w) in all;
    }
  }

  lemma {:induction false} TrailStays(m: Model, all: set<Value>, p: seq<Value>, orLocal: bool)
    requires AllHandled(m, [], all, orLocal) && IsTrail(m, p) && p[0] in all
    ensures p[|p| - 1] in all
    decreases |p|
  {
    if |p| > 1 {
      var n := |p| - 1;
      assert forall i | 0 <= i < n - 1 :: LeadsTo(m, p[..n][i], p[..n][i + 1]) by {
        assert forall i | 0 <= i < n - 1 :: LeadsTo(m, p[i], p[i + 1]);
      }
      TrailStays(m, all, p[..n], orLocal);
      assert LeadsTo(m, p[n - 1], p[n - 1 + 1]);
      OneStepStays(m, all, p[n - 1], p[n], orLocal);
    }
  }

  lemma OneStepStays(m: Model, all: set<Value>, o: Value, o': Value, orLocal: bool)
    requires AllHandled(m, [], all, orLocal) && o in all && LeadsTo(m, o, o')
    ensures o' in all
  {
    assert Handled(m, o, [], all, orLocal);
  }

  /** An answer of yes that the next analysis did not give: the pointer can only be good objects. */
  lemma YesMeansGood(m: Model, v: Value, orLocal: bool)
    requires Walk(m, [v], {}, MAX_LOOKUP, orLocal) == Yes
    ensures AllGood(m, v, orLocal)
  {
    WalkSound(m, [v], {}, MAX_LOOKUP, orLocal);
    var all: set<Value> :| (forall w | w in [v] :: m.under(w) in all) && AllHandled(m, [], all, orLocal);
    assert v in [v];
    forall p | IsTrail(m, p) && p[0] == m.under(v) ensures IsJoin(m, p[|p| - 1]) || GoodObject(m, p[|p| - 1], orLocal) {
      TrailStays(m, all, p, orLocal);
      assert Handled(m, p[|p| - 1], [], all, orLocal);
    }
  }

  /** One bad object is enough for the walk not to say yes. */
  lemma BadObjectIsNoticed(m: Model, v: Value, orLocal: bool, p: seq<Value>)
    requires IsTrail(m, p) && p[0] == m.under(v) && !IsJoin(m, p[|p| - 1]) && !GoodObject(m, p[|p| - 1], orLocal)
    ensures Walk(m, [v], {}, MAX_LOOKUP, orLocal) != Yes
  {
    if Walk(m, [v], {}, MAX_LOOKUP, orLocal) == Yes {
      YesMeansGood(m, v, orLocal);
    }
  }

  // ----- Running out of lookups -----

  /** The entries are under different constant globals that have not been seen. */
  ghost predicate FreshGlobals(m: Model, work: seq<Value>, seen: set<Value>) {
    && (forall i | 0 <= i < |work| :: m.node(m.under(work[i])) == Global(true) && m.under(work[i]) !in seen)
    && (forall i, j | 0 <= i < j < |work| :: m.under(work[i]) != m.under(work[j]))
  }

  lemma {:induction false} GlobalsLeft(m: Model, work: seq<Value>, seen: set<Value>, left: nat, orLocal: bool)
    requires FreshGlobals(m, work, seen)
    ensures Walk(m, work, seen, left, orLocal) == if |work| <= left then Yes else No
    decreases left
  {
    if work != [] && left > 0 {
      var o, rest := m.under(work[|work| - 1]), work[..|work| - 1];
      assert rest + Operands(m, o) == rest;
      GlobalsLeft(m, rest, seen + {o}, left - 1, orLocal);
    }
  }

  /**
   A phi of n different constant globals: yes for fewer than 8; for 8 the lookups run out and the
   answer is no, though every object is good and the next analysis is never asked; more are
   left to the next analysis.
   */
  lemma PhiOfGlobals(m: Model, v: Value, orLocal: bool)
    requires m.node(m.under(v)).Phi? && FreshGlobals(m, m.node(m.under(v)).values, {m.under(v)})
    ensures var n := |m.node(m.under(v)).values|;
            Walk(m, [v], {}, MAX_LOOKUP, orLocal) == if n < MAX_LOOKUP then Yes else if n == MAX_LOOKUP then No else Ask
    ensures AllGood(m, v, orLocal)
  {
    var o := m.under(v);
    var values := m.node(o).values;
    assert [v][..0] + Operands(m, o) == values;
    assert {} + {o} == {o};
    GlobalsLeft(m, values, {o}, MAX_LOOKUP - 1, orLocal);
    PhiIsGood(m, v, orLocal);
  }

  lemma PhiIsGood(m: Model, v: Value, orLocal: bool)
    requires m.node(m.under(v)).Phi? && FreshGlobals(m, m.node(m.under(v)).values, {m.under(v)})
    ensures AllGood(m, v, orLocal)
  {
    var o := m.under(v);
    var all := {o} + set w | w in m.node(o).values :: m.under(w);
    forall x | x in all ensures Handled(m, x, [], all, orLocal) {
    }
    forall p | IsTrail(m, p) && p[0] == o ensures IsJoin(m, p[|p| - 1]) || GoodObject(m, p[|p| - 1], orLocal) {
      TrailStays(m, all, p, orLocal);
      assert Handled(m, p[|p| - 1], [], all, orLocal);
    }
  }

  // ----- Yes is said of every small tree of good objects -----

  ghost predicate TreeGood(m: Model, t: Tree, orLocal: bool) {
    && (IsJoin(m, t.obj) || GoodObject(m, t.obj, orLocal))
    && forall i | 0 <= i < |t.below| :: TreeGood(m, t.below[i], orLocal)
  }

  /** The entries of the list have trees of good objects. */
  ghost predicate IsForestOf(m: Model, work: seq<Value>, ts: seq<Tree>, orLocal: bool) {
    |ts| == |work| && forall i | 0 <= i < |ts| :: IsTreeOf(m, work[i], ts[i]) && TreeGood(m, ts[i], orLocal)
  }

  /** The objects are different, not seen yet, and not more than there are lookups. */
  ghost predicate Fresh(objects: seq<Value>, seen: set<Value>, left: nat) {
    NoDup(objects) && |objects| <= left && forall o | o in objects :: o !in seen
  }

  lemma {:induction false} ObjectsJoin(ts: seq<Tree>, us: seq<Tree>)
    ensures AllObjects(ts + us) == AllObjects(ts) + AllObjects(us)
    decreases |us|
  {
    if us == [] {
      assert ts + us == ts;
    } else {
      var n := |us| - 1;
      ObjectsJoin(ts, us[..n]);
      assert (ts + us)[..|ts + us| - 1] == ts + us[..n];
    }
  }

  /** The last tree taken apart: its object is one of the others no more. */
  lemma TakenApart(ts: seq<Tree>, seen: set<Value>, left: nat)
    requires ts != []
    ensures var t, rest := ts[|ts| - 1], ts[..|ts| - 1];
            && AllObjects(ts) == AllObjects(rest) + [t.obj] + AllObjects(t.below)
            && AllObjects(rest + t.below) == AllObjects(rest) + AllObjects(t.below)
            && (Fresh(AllObjects(ts), seen, left) <==>
                  left > 0 && t.obj !in seen && Fresh(AllObjects(rest + t.below), seen + {t.obj}, left - 1))
  {
    var t, rest := ts[|ts| - 1], ts[..|ts| - 1];
    ObjectsJoin(rest, t.below);
    AroundFresh(AllObjects(rest), t.obj, AllObjects(t.below), seen, left);
  }

  lemma AroundFresh(a: seq<Value>, o: Value, b: seq<Value>, seen: set<Value>, left: nat)
    ensures Fresh(a + [o] + b, seen, left) <==> left > 0 && o !in seen && Fresh(a + b, seen + {o}, left - 1)
  {
    var all := a + [o] + b;
    if Fresh(all, seen, left) {
      assert all[|a|] == o;
      forall x | x in a + b ensures x !in seen + {o} {
        var k :| 0 <= k < |a + b| && (a + b)[k] == x;
        assert all[if k < |a| then k else k + 1] == x;
      }
      forall i, j | 0 <= i < j < |a + b| ensures (a + b)[i] != (a + b)[j] {
        assert all[if i < |a| then i else i + 1] == (a + b)[i] && all[if j < |a| then j else j + 1] == (a + b)[j];
      }
    }
    if left > 0 && o !in seen && Fresh(a + b, seen + {o}, left - 1) {
      forall i, j | 0 <= i < j < |all| ensures all[i] != all[j] {
        Around(a, o, b, i);
        Around(a, o, b, j);
      }
    }
  }

  /** Where an entry of the longer list is in the shorter one. */
  lemma Around(a: seq<Value>, o: Value, b: seq<Value>, i: nat)
    requires i < |a + [o] + b|
    ensures (a + [o] + b)[i] == if i < |a| then (a + b)[i] else if i == |a| then o else (a + b)[i - 1]
    ensures i != |a| ==> (a + [o] + b)[i] in a + b
  {
  }

  lemma ForestApart(m: Model, work: seq<Value>, ts: seq<Tree>, orLocal: bool)
    requires work != [] && IsForestOf(m, work, ts, orLocal)
    ensures var t, o := ts[|ts| - 1], m.under(work[|work| - 1]);
            && t.obj == o && (IsJoin(m, o) || GoodObject(m, o, orLocal)) && |t.below| == |Operands(m, o)|
            && IsForestOf(m, work[..|work| - 1] + Operands(m, o), ts[..|ts| - 1] + t.below, orLocal)
  {
  }

  /** Different good objects, no more than there are lookups: no operand count is too large, and nothing is left at the end. */
  lemma {:induction false} WalkComplete(m: Model, work: seq<Value>, ts: seq<Tree>, seen: set<Value>, left: nat, orLocal: bool)
    requires IsForestOf(m, work, ts, orLocal) && Fresh(AllObjects(ts), seen, left)
    ensures Walk(m, work, seen, left, orLocal) == Yes
    decreases left
  {
    if work != [] {
      var t, rest := ts[|ts| - 1], ts[..|ts| - 1];
      TakenApart(ts, seen, left);
      ForestApart(m, work, ts, orLocal);
      AtLeastOneEach(rest + t.below);
      WalkComplete(m, work[..|work| - 1] + Operands(m, t.obj), rest + t.below, seen + {t.obj}, left - 1, orLocal);
    }
  }

  lemma {:induction false} AtLeastOneEach(ts: seq<Tree>)
    ensures |AllObjects(ts)| >= |ts|
    decreases |ts|
  {
    if ts != [] {
      AtLeastOneEach(ts[..|ts| - 1]);
    }
  }

  /** What the walk has gone through is such a forest. */
  lemma {:induction false} WalkBuilds(m: Model, work: seq<Value>, seen: set<Value>, left: nat, orLocal: bool) returns (ts: seq<Tree>)
    requires Walk(m, work, seen, left, orLocal) == Yes
    ensures IsForestOf(m, work, ts, orLocal) && Fresh(AllObjects(ts), seen, left)
    decreases left
  {
    if work == [] {
      ts := [];
    } else {
      var o, rest := m.under(work[|work| - 1]), work[..|work| - 1];
      var us := WalkBuilds(m, rest + Operands(m, o), seen + {o}, left - 1, orLocal);
      ts := us[..|rest|] + [Tree(o, us[|rest|..])];
      ForestTogether(m, work, us, orLocal);
      TakenApart(ts, seen, left);
      assert ts[..|ts| - 1] == us[..|rest|] && us[..|rest|] + us[|rest|..] == us;
    }
  }

  lemma ForestTogether(m: Model, work: seq<Value>, us: seq<Tree>, orLocal: bool)
    requires work != []
    requires var o, rest := m.under(work[|work| - 1]), work[..|work| - 1];
             (IsJoin(m, o) || GoodObject(m, o, orLocal)) && IsForestOf(m, rest + Operands(m, o), us, orLocal)
    ensures var o, n := m.under(work[|work| - 1]), |work| - 1;
            n <= |us| && IsForestOf(m, work, us[..n] + [Tree(o, us[n..])], orLocal)
  {
    var o, rest, n := m.under(work[|work| - 1]), work[..|work| - 1], |work| - 1;
    var t := Tree(o, us[n..]);
    forall i | 0 <= i < |t.below| ensures IsTreeOf(m, Operands(m, o)[i], t.below[i]) && TreeGood(m, t.below[i], orLocal) {
      assert (rest + Operands(m, o))[n + i] == Operands(m, o)[i] && us[n + i] == t.below[i];
    }
    forall i | 0 <= i < n ensures IsTreeOf(m, work[i], us[i]) && TreeGood(m, us[i], orLocal) {
      assert (rest + Operands(m, o))[i] == work[i];
    }
  }

  /** What lies under an operand lies under the pointer. */
  lemma GoodBelow(m: Model, v: Value, w: Value, orLocal: bool)
    requires AllGood(m, v, orLocal) && w in Operands(m, m.under(v))
    ensures AllGood(m, w, orLocal)
  {
    forall p | IsTrail(m, p) && p[0] == m.under(w) ensures IsJoin(m, p[|p| - 1]) || GoodObject(m, p[|p| - 1], orLocal) {
      var q := [m.under(v)] + p;
      assert LeadsTo(m, q[0], q[1]);
      forall i | 0 <= i < |q| - 1 ensures LeadsTo(m, q[i], q[i + 1]) {
        assert i > 0 ==> LeadsTo(m, p[i - 1], p[i - 1 + 1]);
      }
      assert IsTrail(m, q) && q[|q| - 1] == p[|p| - 1];
    }
  }

  lemma {:induction false} GoodTree(m: Model, v: Value, t: Tree, orLocal: bool)
    requires AllGood(m, v, orLocal) && IsTreeOf(m, v, t)
    ensures TreeGood(m, t, orLocal)
    decreases t
  {
    assert IsTrail(m, [m.under(v)]);
    forall i | 0 <= i < |t.below| ensures TreeGood(m, t.below[i], orLocal) {
      GoodBelow(m, v, Operands(m, t.obj)[i], orLocal);
      GoodTree(m, Operands(m, t.obj)[i], t.below[i], orLocal);
    }
  }

  /**
   The walk says yes exactly if everything the pointer may be is good and selects and phis lead
   to a tree of different objects that the lookups suffice for.
   */
  lemma YesExact(m: Model, v: Value, orLocal: bool)
    ensures Walk(m, [v], {}, MAX_LOOKUP, orLocal) == Yes <==> AllGood(m, v, orLocal) && SmallTree(m, v)
  {
    if Walk(m, [v], {}, MAX_LOOKUP, orLocal) == Yes {
      YesMeansGood(m, v, orLocal);
      var ts := WalkBuilds(m, [v], {}, MAX_LOOKUP, orLocal);
      OneTree(ts[0]);
      assert ts == [ts[0]] && IsTreeOf(m, v, ts[0]);
    }
    if AllGood(m, v, orLocal) && SmallTree(m, v) {
      var t :| IsTreeOf(m, v, t) && NoDup(Objects(t)) && |Objects(t)| <= MAX_LOOKUP;
      GoodTree(m, v, t, orLocal);
      OneTree(t);
      WalkComplete(m, [v], [t], {}, MAX_LOOKUP, orLocal);
    }
  }

  lemma OneTree(t: Tree)
    ensures AllObjects([t]) == Objects(t)
  {
    assert [t][..0] == [] && AllObjects([]) == [];
  }
}
