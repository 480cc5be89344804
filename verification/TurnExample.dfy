/**
 A loop in which two selects change their minds together: s = select c, a, b and t = select c,
 b, a are never the same in one turn, and p = phi o, s is the s of the turn before. The query
 compares s and t arm by arm and says that p does not alias t; that is true if and only if the
 condition never changes.
 */
module TurnExample {
  import opened AliasResults
  import opened Arith
  import opened GepModel
  import opened LinearExpression
  import opened Decomposition
  import opened IndexDifference
  import opened OffsetRules
  import opened ByteGeps
  import opened QueryModel
  import opened QueryRuns
  import opened QueryRules
  import opened QueryAnswers
  import opened ObjectKinds
  import opened AliasQuery

  const A: Value := Root(0, BYTE)
  const B: Value := Root(1, BYTE)
  const O: Value := Root(2, BYTE)
  const S: Value := Root(3, BYTE)
  const T: Value := Root(4, BYTE)
  const P: Value := Root(5, BYTE)
  const ENTRY: Block := 0
  const LOOP: Block := 1
  const COND: Cond := 0

  predicate IsObject(v: Value) { v == A || v == B || v == O }

  function Program(): Model {
    Model({A, B, O, S, T, P},
          v => if v == P then Phi(LOOP, [O, S], [ENTRY, LOOP])
               else if v == S then Select(COND, A, B) else if v == T then Select(COND, B, A) else Other,
          (v: Value) => if v.Root? then v.id else 6,
          v => false, v => true, v => true,
          v => false, v => false, v => false, v => false,
          v => IsObject(v), v => IsObject(v), v => IsObject(v),
          v => false, v => false,
          (v, n) => false, (v, n) => false,
          (b, v) => !IsObject(v), x => true, (b, x) => true,
          (x, c) => false,
          (l1, l2) => MayAlias)
  }

  function RankOf(): Value -> nat {
    v => if v == P then 2 else if v == S || v == T then 1 else 0
  }

  /** All executions, in which the condition never changes or may change. */
  function Steady(steady: bool): Turns {
    Turning((v, w) => true, (v, w) => {}, c => steady)
  }

  lemma RootStays(v: Value)
    requires v.Root?
    ensures Strip(v) == v && Under(v) == v
  {
  }

  lemma ValueIsGood(v: Value)
    requires v in Program().values
    ensures ValueGood(Program(), v)
  {
    assert GoodLayout(BYTE);
  }

  lemma ValueIsClosed(v: Value)
    requires v in Program().values
    ensures LeadsInside(Program(), v)
  {
    RootStays(v);
  }

  lemma ValueHasRank(v: Value)
    requires v in Program().values
    ensures RankGood(Program(), RankOf(), v)
  {
    RootStays(v);
  }

  lemma PositionsDiffer(v: Value, w: Value)
    requires v in Program().values && w in Program().values && Program().position(v) == Program().position(w)
    ensures v == w
  {
  }

  lemma ProgramIsClosed()
    ensures Closed(Program())
  {
    forall v | v in Program().values ensures LeadsInside(Program(), v) {
      ValueIsClosed(v);
    }
  }

  lemma ProgramIsAcyclic()
    ensures Acyclic(Program(), RankOf())
  {
    forall v | v in Program().values ensures RankGood(Program(), RankOf(), v) {
      ValueHasRank(v);
    }
  }

  lemma ProgramIsGood()
    ensures ProgramGood(Program())
  {
    var m := Program();
    ProgramIsClosed();
    forall v | v in m.values ensures ValueGood(m, v) {
      ValueIsGood(v);
    }
    forall v, w | v in m.values && w in m.values && m.position(v) == m.position(w) ensures v == w {
      PositionsDiffer(v, w);
    }
  }

  // ----- What the query says -----

  ghost predicate Asked(log: Log) {
    AllFollow(Program(), log) && AllRuled(Program(), log)
  }

  lemma ObjectAnswer(log: Log, v: Value, s: Size, w: Value, t: Size, r: AliasResult)
    requires Asked(log) && IsObject(v) && IsObject(w) && v != w && Told(log, Query, v, s, w, t, r)
    ensures r == NoAlias
  {
    RootStays(v);
    RootStays(w);
    assert Ruled(Program(), log, Answer(Query, v, s, w, t, r));
  }

  /** The rules on a select and another value that is no phi, in either order. */
  lemma SelectTold(log: Log, v: Value, s: Size, w: Value, t: Size, r: AliasResult)
    requires Asked(log) && (v == S || v == T) && (w == O || w == S || w == T) && v != w && Told(log, FromGeps, v, s, w, t, r)
    ensures exists x :: Told(log, SelectRule, v, s, w, t, x) && (x != MayAlias ==> r == x)
  {
    var m := Program();
    assert Follows(m, log, Answer(FromGeps, v, s, w, t, r));
    assert Follows(m, log, Answer(FromPhis, v, s, w, t, r));
    assert Follows(m, log, Answer(FromSelects, v, s, w, t, r));
  }

  lemma ArmsAnswer(log: Log, v: Value, s: Size, w: Value, t: Size, v': Value, s': Size, w': Value, t': Size, r: AliasResult)
    requires Asked(log) && BothArms(log, v, s, w, t, v', s', w', t', r)
    requires IsObject(v) && IsObject(w) && v != w && IsObject(v') && IsObject(w') && v' != w'
    ensures r == NoAlias
  {
    forall x | Told(log, Query, v, s, w, t, x) ensures x == NoAlias {
      ObjectAnswer(log, v, s, w, t, x);
    }
    forall x | Told(log, Query, v', s', w', t', x) ensures x == NoAlias {
      ObjectAnswer(log, v', s', w', t', x);
    }
  }

  lemma SelectRuleAnswer(log: Log, v: Value, s: Size, w: Value, t: Size, x: AliasResult)
    requires Asked(log) && (v == S || v == T) && (w == O || w == S || w == T) && v != w && Told(log, SelectRule, v, s, w, t, x)
    ensures x == NoAlias
  {
    var n, n' := Program().node(v), Program().node(w);
    assert Follows(Program(), log, Answer(SelectRule, v, s, w, t, x));
    if w == O {
      ArmsAnswer(log, w, t, n.ifTrue, s, w, t, n.ifFalse, s, x);
    } else {
      ArmsAnswer(log, n.ifTrue, s, n'.ifTrue, t, n.ifFalse, s, n'.ifFalse, t, x);
    }
  }

  /** t against what p may be: the other object, and s. */
  lemma SourceAnswer(log: Log, w: Value, s: Size, t: Size, r: AliasResult)
    requires Asked(log) && (w == O || w == S) && s != Known(0) && t != Known(0) && Told(log, Query, T, t, w, s, r)
    ensures r == NoAlias
  {
    RootStays(T);
    RootStays(w);
    var m := Program();
    assert Ruled(m, log, Answer(Query, T, t, w, s, r));
    if Told(log, FromGeps, T, t, w, s, r) {
      SelectTold(log, T, t, w, s, r);
      var x :| Told(log, SelectRule, T, t, w, s, x) && (x != MayAlias ==> r == x);
      SelectRuleAnswer(log, T, t, w, s, x);
    } else if w == S {
      SelectTold(log, S, s, T, t, r);
      var x :| Told(log, SelectRule, S, s, T, t, x) && (x != MayAlias ==> r == x);
      SelectRuleAnswer(log, S, s, T, t, x);
    } else {
      assert Follows(m, log, Answer(FromGeps, O, s, T, t, r));
      assert Follows(m, log, Answer(FromPhis, O, s, T, t, r));
      assert Follows(m, log, Answer(FromSelects, T, t, O, s, r));
      var x :| Told(log, SelectRule, T, t, O, s, x) && (x != MayAlias ==> r == x);
      SelectRuleAnswer(log, T, t, O, s, x);
    }
  }

  /** The phi's rule takes over what its sources agree on. */
  lemma PhiRuleAnswer(log: Log, s: Size, t: Size, x: AliasResult)
    requires Asked(log) && s != Known(0) && t != Known(0) && Told(log, PhiRule, P, s, T, t, x)
    ensures x == NoAlias
  {
    var m := Program();
    assert Follows(m, log, Answer(PhiRule, P, s, T, t, x));
    assert m.node(P).values == [O, S] && O in m.node(P).values;
    forall w, r | w in m.node(P).values && SourceTold(log, w, s, T, t, r) ensures r == NoAlias {
      SourceAnswer(log, w, s, t, r);
    }
    if x == MustAlias {
      assert SourceTold(log, O, s, T, t, x);
    }
  }

  lemma TurnAnswer(log: Log, s: Size, t: Size, r: AliasResult)
    requires Asked(log) && s != Known(0) && t != Known(0) && Told(log, Query, P, s, T, t, r)
    ensures r == NoAlias
  {
    RootStays(P);
    RootStays(T);
    var m := Program();
    assert Ruled(m, log, Answer(Query, P, s, T, t, r));
    if Told(log, FromGeps, P, s, T, t, r) {
      assert Follows(m, log, Answer(FromGeps, P, s, T, t, r));
    } else {
      assert Follows(m, log, Answer(FromGeps, T, t, P, s, r));
    }
    assert Follows(m, log, Answer(FromPhis, P, s, T, t, r));
    var x :| Told(log, PhiRule, P, s, T, t, x) && (x != MayAlias ==> r == x);
    PhiRuleAnswer(log, s, t, x);
  }

  /** The query itself. */
  method AskTurn(s: Size, t: Size) returns (r: AliasResult)
    requires s != Known(0) && t != Known(0)
    ensures r == NoAlias
  {
    ProgramIsGood();
    ProgramIsAcyclic();
    AtOnceGood(Program());
    var basic := new BasicAliasAnalysis(Program(), RankOf(), AtOnce);
    r := basic.Alias(Loc(P, s), Loc(T, t));
    TurnAnswer(basic.Answers, s, t, r);
  }

  // ----- When that is true -----

  /** Which object a value is in: the condition holds in the first turn, moment 0, and not in the second. */
  function HomeAt(i: Time, v: Value): Object {
    if v == B || (v == S && i != 0) || (v == T && i == 0) then 2
    else if v == O || (v == P && i == 0) then 3
    else if Steps(v) then HomeAt(i, Beneath(v)) else 1
  }

  function StartOf(o: Object): int {
    if o == 1 then TWO63 else if o == 2 then TWO63 / 2 else 0
  }

  function Changing(len: nat): Run {
    Run(Memory((o: Object) => StartOf(o), o => if 1 <= o <= 3 then len else 0, o => if o == 1 then A else if o == 2 then B else O),
        (i: Time) => Moment(Env(map[], map[A := TWO63, B := TWO63 / 2, O := 0, S := StartOf(HomeAt(i, S)),
                                            T := StartOf(HomeAt(i, T)), P := StartOf(HomeAt(i, P))]),
                            v => HomeAt(i, v), c => i == 0),
        (i: Time, b: Block) => if b == LOOP then 0 else i,
        (i: Time, b: Block) => if i == 0 then ENTRY else LOOP)
  }

  lemma ChangingPlaces(len: nat, i: Time, v: Value)
    requires v in Program().values
    ensures WellFormed(v) && Home(Changing(len), i, v) == HomeAt(i, v)
    ensures At(Changing(len), i, v) == Place(Changing(len), i, v) == StartOf(HomeAt(i, v))
  {
    assert GoodLayout(BYTE);
    ModSmall(StartOf(HomeAt(i, v)), TWO64);
  }

  lemma IncomingParts()
    ensures IncomingFor([O, S], [ENTRY, LOOP], ENTRY) == O && IncomingFor([O, S], [ENTRY, LOOP], LOOP) == S
  {
    assert [O, S][1..] == [S] && [ENTRY, LOOP][1..] == [LOOP];
  }

  lemma ChangingPhi(len: nat, i: Time)
    ensures PhiArrives(Program(), Changing(len), i, P)
  {
    IncomingParts();
    ChangingPlaces(len, i, P);
    ChangingPlaces(len, 0, O);
    ChangingPlaces(len, 0, S);
    assert HomeAt(i, P) == HomeAt(0, if i == 0 then O else S);
  }

  lemma ChangingSelect(len: nat, i: Time, v: Value)
    requires v == S || v == T
    ensures SelectChooses(Program(), Changing(len), i, v)
  {
    ChangingPlaces(len, i, v);
    ChangingPlaces(len, i, A);
    ChangingPlaces(len, i, B);
  }

  lemma ObjectsStay(len: nat, i: Time, j: Time, v: Value)
    requires IsObject(v)
    ensures Unchanged(Changing(len), i, j, v)
  {
    ChangingPlaces(len, i, v);
    ChangingPlaces(len, j, v);
    assert HomeAt(i, v) == HomeAt(j, v);
  }

  lemma ChangingLinked(len: nat, i: Time, b: Block)
    ensures EntryLinked(Program(), Steady(false), Changing(len), i, b)
  {
    var m, e := Program(), Changing(len);
    var j := e.entry(i, b);
    forall v | v in m.values && Unreached(m, {b}, v) ensures Unchanged(e, i, j, v) {
      assert !m.blockReaches(b, v);
      ObjectsStay(len, i, j, v);
    }
    forall x | UnreachedIndex(m, {b}, x) ensures UnchangedIndex(e, i, j, x) {
    }
    assert {} + {b} == {b};
  }

  lemma ChangingRespects(len: nat)
    requires len <= TWO63 / 2
    ensures Respects(Program(), Steady(false), Changing(len))
  {
    var m, u, e := Program(), Steady(false), Changing(len);
    assert MemoryGood(e.memory);
    forall i, v ensures HomeKept(e, i, v) {
      assert Home(e, i, v) == HomeAt(i, v);
    }
    forall i, v | v in m.values ensures PhiArrives(m, e, i, v) {
      if v == P {
        ChangingPhi(len, i);
      }
    }
    forall i, v | v in m.values ensures SelectChooses(m, e, i, v) {
      if v == S || v == T {
        ChangingSelect(len, i, v);
      }
    }
    forall i, b ensures EntryLinked(m, u, e, i, b) {
      ChangingLinked(len, i, b);
    }
  }

  lemma ChangingTrue(len: nat, i: Time, v: Value)
    requires v in Program().values
    ensures ValueTrue(Program(), Changing(len), i, v)
  {
    ChangingPlaces(len, i, v);
  }

  /** The two turns are an execution of the program. */
  lemma ChangingCovered(len: nat)
    requires len <= TWO63 / 2
    ensures Covered(Program(), Steady(false), Changing(len))
  {
    ChangingRespects(len);
    ChangingHelpers(len);
    NoGeps();
  }

  lemma ChangingHelpers(len: nat)
    ensures HelpersTrue(Program(), Steady(false), Changing(len))
  {
    forall i, v | v in Program().values ensures ValueTrue(Program(), Changing(len), i, v) {
      ChangingTrue(len, i, v);
    }
  }

  lemma NoGeps()
    ensures forall v | v in Program().values :: !v.Gep?
  {
  }

  /** In the second turn p, the s of the first, is where t is. */
  lemma ChangingMeets(len: nat, n: nat, k: nat)
    requires 0 < n <= len <= TWO63 / 2 && 0 < k <= len
    ensures !Apart(Changing(len), 1, P, Known(n), 1, T, Known(k))
  {
    var e := Changing(len);
    ChangingPlaces(len, 1, P);
    ChangingPlaces(len, 1, T);
    assert HomeAt(1, P) == HomeAt(1, T) == 1;
    assert Touches(e, 1, P, Known(n), n) && Touches(e, 1, T, Known(k), k);
    assert ByteAt(Place(e, 1, P), 0) == ByteAt(Place(e, 1, T), 0);
  }

  /** With one choice for all turns p and t are in different objects. */
  lemma SteadyApart(e: Run, i: Time)
    requires Covered(Program(), Steady(true), e)
    ensures Home(e, i, P) != Home(e, i, T)
  {
    var m := Program();
    var j := e.entry(i, LOOP);
    assert PhiArrives(m, e, i, P) && SelectChooses(m, e, j, S) && SelectChooses(m, e, i, T);
    IncomingParts();
    assert Steady(true).steady(COND) && e.at(i).chosen(COND) == e.at(j).chosen(COND);
    var onTrue := e.at(i).chosen(COND);
    var mine, others := if e.from(i, LOOP) == ENTRY then O else if onTrue then A else B, if onTrue then B else A;
    ObjectsDiffer(e, j, mine, i, others);
  }

  lemma ObjectsDiffer(e: Run, i: Time, v: Value, j: Time, w: Value)
    requires Covered(Program(), Steady(true), e) && IsObject(v) && IsObject(w) && v != w
    ensures Home(e, i, v) != Home(e, j, w)
  {
    assert ValueTrue(Program(), e, i, v) && ValueTrue(Program(), e, j, w);
  }

  /** NoAlias, which is what the query says, is true of p and t if and only if the condition never changes. */
  lemma TurnExact(steady: bool, n: nat, k: nat)
    requires 0 < n <= TWO63 / 2 && 0 < k <= TWO63 / 2
    ensures AlwaysNow(Program(), Steady(steady), NoAlias, P, Known(n), T, Known(k)) <==> steady
  {
    if steady {
      forall e: Run, i | Covered(Program(), Steady(true), e) ensures Holds(Program(), e, NoAlias, i, P, Known(n), i, T, Known(k)) {
        SteadyApart(e, i);
        WhollyIsApart(e, i, P, Known(n), i, T, Known(k));
      }
    } else {
      var e := Changing(TWO63 / 2);
      ChangingCovered(TWO63 / 2);
      ChangingMeets(TWO63 / 2, n, k);
      assert !Holds(Program(), e, NoAlias, 1, P, Known(n), 1, T, Known(k));
    }
  }
}
