/**
 Programs with a GEP that steps down from a select: an object u, g = u + a, h = u + b,
 s = select c, g, h and p = s - d. The query says that p does not alias u, whatever d is.
 */
module QueryExamples {
  import opened AliasResults
  import opened Arith
  import opened GepModel
  import opened LinearExpression
  import opened Decomposition
  import opened IndexDifference
  import opened OffsetRules
  import opened AliasGEP
  import opened ByteGeps
  import opened QueryModel
  import opened QueryRuns
  import opened QueryRules
  import opened QueryAnswers
  import opened AliasQuery

  const U: Value := Root(0, BYTE)
  const S: Value := Root(1, BYTE)

  predicate IsBase(base: Value) { base == U || base == S }

  function Step(base: Value, c: nat): Value {
    Byte(base, ConstInt(c, 64))
  }

  function Up(a: nat): Value {
    Step(U, a)
  }

  function Down(d: nat): Value
    requires d <= TWO64
  {
    Step(S, TWO64 - d)
  }

  /** Offsets up to the length of the object, which is at most half the address space. */
  predicate Fits(a: nat, b: nat, d: nat, len: nat) {
    0 < a <= len && 0 < b <= len && 0 < d <= a && d <= b && len < TWO63
  }

  function Program(a: nat, b: nat, d: nat, len: nat): Model
    requires d <= TWO64
  {
    Model({U, S, Up(a), Up(b), Down(d)},
          v => if v == S then Select(0, Up(a), Up(b)) else Other,
          v => if v == U then 0 else if v == S then 1 else if v == Down(d) then 2 else if v == Up(a) then 3 else 4,
          v => false, v => true, v => v != U,
          v => false, v => false, v => v == U, v => false,
          v => v == U, v => false, v => v == U,
          v => false, v => false,
          (v, n) => v == U && n > len, (v, n) => v == U && n == len,
          (b, v) => true, x => true, (b, x) => true,
          (x, c) => false,
          (l1, l2) => MayAlias)
  }

  function RankOf(d: nat): Value -> nat
    requires d <= TWO64
  {
    v => if v == U then 0 else if v == S then 2 else if v == Down(d) then 3 else 1
  }

  // ----- The program -----

  lemma StepGood(base: Value, c: nat)
    requires IsBase(base) && c < TWO64
    ensures WellFormed(base) && WellFormed(Step(base, c)) && Pointee(Step(base, c)) == BYTE
  {
    Pow2Of64();
    assert GoodLayout(BYTE);
    ByteGood(base, ConstInt(c, 64));
  }

  lemma StepWalks(base: Value, c: nat)
    requires IsBase(base)
    ensures Under(Step(base, c)) == base && LookThrough(Step(base, c), MAX_LOOKUP_SEARCH_DEPTH) == (base, false)
    ensures c != 0 ==> Strip(Step(base, c)) == Step(base, c)
    ensures ConstantWalk(Step(base, c), MAX_LOOKUP_SEARCH_DEPTH)
  {
    assert Sized(BYTE) && Step(base, c).indices[0].value == c;
    assert GetUnderlyingObject(base, 5) == base && LookThrough(base, 5) == (base, false) && ConstantWalk(base, 5);
  }

  /** A constant of 64 bits and the number it stands for. */
  predicate Encodes(c: nat, delta: int) {
    c < TWO64 && -TWO63 <= delta < TWO63 && (c == delta || c == delta + TWO64)
  }

  lemma StepMoves(base: Value, c: nat, delta: int, env: Env)
    requires IsBase(base) && Encodes(c, delta)
    ensures WellFormed(base) && WellFormed(Step(base, c)) && Address(Step(base, c), env) == Address(base, env) + delta
  {
    Pow2Of64();
    ModSmall(c, TWO64);
    assert GoodLayout(BYTE);
    ByteAddress(base, ConstInt(c, 64), env);
  }

  lemma StepExact(base: Value, c: nat, mz: MaskOracle, env: Env)
    requires IsBase(base) && c < TWO64
    ensures ExactPointer(Step(base, c), MAX_LOOKUP_SEARCH_DEPTH, 64, mz, env)
  {
    StepGood(base, c);
    StepWalks(base, c);
    ConstantWalkExact(Step(base, c), MAX_LOOKUP_SEARCH_DEPTH, 64, mz, env);
    ExactWalkIsExact(Step(base, c), MAX_LOOKUP_SEARCH_DEPTH, 64, mz, env);
  }

  lemma ValueIsGood(a: nat, b: nat, d: nat, len: nat, v: Value)
    requires Fits(a, b, d, len) && v in Program(a, b, d, len).values
    ensures ValueGood(Program(a, b, d, len), v)
  {
    if v.Gep? {
      StepGood(v.base, v.indices[0].value);
    } else {
      StepGood(v, 0);
    }
  }

  lemma ValueIsClosed(a: nat, b: nat, d: nat, len: nat, v: Value)
    requires Fits(a, b, d, len) && v in Program(a, b, d, len).values
    ensures var m := Program(a, b, d, len);
            && RankGood(m, RankOf(d), v) && Strip(v) in m.values && Under(v) in m.values && !m.node(v).Phi?
            && (m.node(v).Select? ==> m.node(v).ifTrue in m.values && m.node(v).ifFalse in m.values)
  {
    if v.Gep? {
      StepWalks(v.base, v.indices[0].value);
    } else {
      assert Strip(v) == v && Under(v) == v;
    }
  }

  lemma PositionsDiffer(a: nat, b: nat, d: nat, len: nat, v: Value, w: Value)
    requires Fits(a, b, d, len) && v in Program(a, b, d, len).values && w in Program(a, b, d, len).values
    requires Program(a, b, d, len).position(v) == Program(a, b, d, len).position(w)
    ensures v == w
  {
  }

  lemma ProgramIsClosed(a: nat, b: nat, d: nat, len: nat)
    requires Fits(a, b, d, len)
    ensures Closed(Program(a, b, d, len)) && Acyclic(Program(a, b, d, len), RankOf(d))
  {
    forall v | v in Program(a, b, d, len).values {
      ValueIsClosed(a, b, d, len, v);
    }
  }

  lemma ProgramIsGood(a: nat, b: nat, d: nat, len: nat)
    requires Fits(a, b, d, len)
    ensures ProgramGood(Program(a, b, d, len)) && Acyclic(Program(a, b, d, len), RankOf(d))
  {
    var m := Program(a, b, d, len);
    ProgramIsClosed(a, b, d, len);
    forall v | v in m.values ensures ValueGood(m, v) {
      ValueIsGood(a, b, d, len, v);
    }
    forall v, w | v in m.values && w in m.values && m.position(v) == m.position(w) ensures v == w {
      PositionsDiffer(a, b, d, len, v, w);
    }
  }

  // ----- Its executions -----

  /** The object starts in the middle of the address space, and the condition is given. Nothing changes. */
  function Now(a: nat, b: nat, len: nat, first: bool): Run {
    Run(Memory(o => if o == 1 then TWO63 else 0, o => if o == 1 then len else 0, o => U),
        (i: Time) => Moment(Env(map[], map[U := TWO63, S := TWO63 + if first then a else b]), v => 1, c => first),
        (i: Time, k: Block) => i, (i: Time, k: Block) => k)
  }

  lemma NowBases(a: nat, b: nat, len: nat, first: bool, i: Time)
    requires a < TWO63 && b < TWO63
    ensures var e := Now(a, b, len, first);
            && WellFormed(U) && WellFormed(S) && At(e, i, U) == Place(e, i, U) == TWO63
            && At(e, i, S) == Place(e, i, S) == TWO63 + if first then a else b
  {
    ModSmall(TWO63, TWO64);
    ModSmall(TWO63 + if first then a else b, TWO64);
    assert GoodLayout(BYTE) && U != S;
  }

  lemma NowStep(a: nat, b: nat, len: nat, first: bool, i: Time, base: Value, c: nat, delta: int)
    requires a < TWO63 && b < TWO63 && IsBase(base) && Encodes(c, delta)
    requires 0 <= Place(Now(a, b, len, first), i, base) + delta < TWO64
    ensures var e := Now(a, b, len, first); At(e, i, Step(base, c)) == Place(e, i, Step(base, c)) == Place(e, i, base) + delta
  {
    var e := Now(a, b, len, first);
    NowBases(a, b, len, first, i);
    StepMoves(base, c, delta, e.at(i).env);
    ModSmall(At(e, i, Step(base, c)), TWO64);
  }

  lemma NowPlaces(a: nat, b: nat, d: nat, len: nat, first: bool, i: Time)
    requires Fits(a, b, d, len)
    ensures var e := Now(a, b, len, first);
            && At(e, i, U) == Place(e, i, U) == TWO63 && At(e, i, S) == Place(e, i, S) == TWO63 + (if first then a else b)
            && At(e, i, Up(a)) == Place(e, i, Up(a)) == TWO63 + a && At(e, i, Up(b)) == Place(e, i, Up(b)) == TWO63 + b
            && At(e, i, Down(d)) == Place(e, i, Down(d)) == TWO63 + (if first then a else b) - d
  {
    NowBases(a, b, len, first, i);
    NowStep(a, b, len, first, i, U, a, a);
    NowStep(a, b, len, first, i, U, b, b);
    NowStep(a, b, len, first, i, S, TWO64 - d, 0 - d);
  }

  lemma NowRespects(a: nat, b: nat, d: nat, len: nat, first: bool)
    requires Fits(a, b, d, len)
    ensures Respects(Program(a, b, d, len), AtOnce, Now(a, b, len, first))
  {
    var m, e := Program(a, b, d, len), Now(a, b, len, first);
    assert MemoryGood(e.memory);
    forall i, v | v in m.values ensures SelectChooses(m, e, i, v) {
      if v == S {
        NowPlaces(a, b, d, len, first, i);
      }
    }
  }

  lemma NowComputed(a: nat, b: nat, d: nat, len: nat, first: bool, i: Time, v: Value)
    requires Fits(a, b, d, len) && v in {Up(a), Up(b), Down(d)}
    ensures GepComputed(Program(a, b, d, len), Now(a, b, len, first), i, v)
  {
    var m, e := Program(a, b, d, len), Now(a, b, len, first);
    NowPlaces(a, b, d, len, first, i);
    StepWalks(v.base, v.indices[0].value);
    StepExact(v.base, v.indices[0].value, m.mask, e.at(i).env);
  }

  lemma NowHelpers(a: nat, b: nat, d: nat, len: nat, first: bool)
    requires Fits(a, b, d, len)
    ensures HelpersTrue(Program(a, b, d, len), AtOnce, Now(a, b, len, first))
  {
    var m, e := Program(a, b, d, len), Now(a, b, len, first);
    forall i, v | v in m.values ensures ValueTrue(m, e, i, v) {
      assert Length(e, i, v) == len;
    }
  }

  /** The program has executions of both kinds. */
  lemma NowCovered(a: nat, b: nat, d: nat, len: nat, first: bool)
    requires Fits(a, b, d, len)
    ensures Covered(Program(a, b, d, len), AtOnce, Now(a, b, len, first))
  {
    var m, e := Program(a, b, d, len), Now(a, b, len, first);
    NowRespects(a, b, d, len, first);
    NowHelpers(a, b, d, len, first);
    forall i, v | v in m.values ensures GepComputed(m, e, i, v) {
      if v.Gep? {
        NowComputed(a, b, d, len, first, i, v);
      }
    }
  }

  // ----- What the query says -----

  /** Off one base, an offset of at least t says NoAlias whatever the length of the access. */
  lemma OffsetAnswer(m: Model, c: nat, t: nat, r: AliasResult, why: Reason, eqv: EqualityOracle)
    requires 0 < t <= c < TWO63
    requires QuestionOf(Up(c), UNKNOWN_SIZE, U, Known(t), MustAlias, MayAlias).Valid()
    requires Outcome(QuestionOf(Up(c), UNKNOWN_SIZE, U, Known(t), MustAlias, MayAlias), r, why, m.mask, eqv)
    ensures r == NoAlias
  {
    var q, env := QuestionOf(Up(c), UNKNOWN_SIZE, U, Known(t), MustAlias, MayAlias), Env(map[], map[]);
    UpAsked(c, t, m.mask, eqv, env);
    ConstantOutcome(q, r, why, m.mask, eqv, env);
    ConstantDecides(c, UNKNOWN_SIZE, Known(t));
  }

  lemma UpAsked(c: nat, t: nat, mz: MaskOracle, eqv: EqualityOracle, env: Env)
    requires c < TWO63 && QuestionOf(Up(c), UNKNOWN_SIZE, U, Known(t), MustAlias, MayAlias).Valid()
    ensures var q := QuestionOf(Up(c), UNKNOWN_SIZE, U, Known(t), MustAlias, MayAlias);
            Decidable(q) && q.Exact(mz, env, env) && q.Vars(mz, eqv) == [] && q.Offs(mz) == c
  {
    StepWalks(U, c);
    StepExact(U, c, mz, env);
    UpCollected(c, mz);
    Pow2Of64();
    SignedSmall(c, 64);
  }

  lemma UpCollected(c: nat, mz: MaskOracle)
    requires c < TWO63
    ensures WellFormed(Up(c)) && AfterWalk(Up(c), MAX_LOOKUP_SEARCH_DEPTH, 64, mz, NOTHING) == Collected(c, [])
  {
    StepGood(U, c);
    ModSmall(c, TWO64);
    OneIndexCollected(U, Fixed(c), mz, NOTHING);
    FixedCollected(c, NOTHING, mz);
  }

  /** All answers follow from others, and none came from an entry on the way. */
  ghost predicate Asked(m: Model, log: Log) {
    AllFollow(m, log) && AllRuled(m, log)
  }

  predicate Sizes(n: nat, t: nat, a: nat, b: nat, len: nat) {
    0 < n <= len && 0 < t <= len && t <= a && t <= b
  }

  lemma BaseAnswer(a: nat, b: nat, d: nat, len: nat, t: nat, log: Log, r: AliasResult)
    requires Fits(a, b, d, len) && t > 0 && Asked(Program(a, b, d, len), log)
    requires Told(log, Query, U, UNKNOWN_SIZE, U, Known(t), r)
    ensures r == MustAlias
  {
    assert Ruled(Program(a, b, d, len), log, Answer(Query, U, UNKNOWN_SIZE, U, Known(t), r));
  }

  /** The arms: u + c against t bytes at u. */
  lemma ArmAnswer(a: nat, b: nat, d: nat, len: nat, n: nat, t: nat, log: Log, c: nat, r: AliasResult)
    requires Fits(a, b, d, len) && Sizes(n, t, a, b, len) && Asked(Program(a, b, d, len), log) && (c == a || c == b)
    requires Told(log, Query, U, Known(t), Up(c), UNKNOWN_SIZE, r)
    ensures r == NoAlias
  {
    var m := Program(a, b, d, len);
    StepWalks(U, c);
    assert Under(U) == U && Strip(U) == U;
    assert Ruled(m, log, Answer(Query, U, Known(t), Up(c), UNKNOWN_SIZE, r));
    assert Told(log, FromGeps, Up(c), UNKNOWN_SIZE, U, Known(t), r);
    assert Follows(m, log, Answer(FromGeps, Up(c), UNKNOWN_SIZE, U, Known(t), r));
    var x :| Told(log, GepRule, Up(c), UNKNOWN_SIZE, U, Known(t), x) && (x != MayAlias ==> r == x);
    ArmRule(a, b, d, len, n, t, log, c, x);
  }

  lemma ArmRule(a: nat, b: nat, d: nat, len: nat, n: nat, t: nat, log: Log, c: nat, x: AliasResult)
    requires Fits(a, b, d, len) && Sizes(n, t, a, b, len) && Asked(Program(a, b, d, len), log) && (c == a || c == b)
    requires Told(log, GepRule, Up(c), UNKNOWN_SIZE, U, Known(t), x)
    ensures x == NoAlias
  {
    var m := Program(a, b, d, len);
    StepWalks(U, c);
    assert Follows(m, log, Answer(GepRule, Up(c), UNKNOWN_SIZE, U, Known(t), x));
    var base :| Told(log, Query, U, UNKNOWN_SIZE, U, Known(t), base) && Settles(m, Up(c), UNKNOWN_SIZE, U, Known(t), base, MayAlias, x);
    BaseAnswer(a, b, d, len, t, log, base);
    var q := QuestionOf(Up(c), UNKNOWN_SIZE, U, Known(t), base, MayAlias);
    var why: Reason, eqv: EqualityOracle :| Outcome(q, x, why, m.mask, eqv);
    OffsetAnswer(m, c, t, x, why, eqv);
  }

  /** Both arms agree. */
  lemma SelectAnswer(a: nat, b: nat, d: nat, len: nat, n: nat, t: nat, log: Log, r: AliasResult)
    requires Fits(a, b, d, len) && Sizes(n, t, a, b, len) && Asked(Program(a, b, d, len), log)
    requires Told(log, Query, S, UNKNOWN_SIZE, U, Known(t), r)
    ensures r == NoAlias
  {
    var m := Program(a, b, d, len);
    assert Under(U) == U && Strip(U) == U && Under(S) == S && Strip(S) == S;
    assert Ruled(m, log, Answer(Query, S, UNKNOWN_SIZE, U, Known(t), r));
    if Told(log, FromGeps, S, UNKNOWN_SIZE, U, Known(t), r) {
      assert Follows(m, log, Answer(FromGeps, S, UNKNOWN_SIZE, U, Known(t), r));
      assert Follows(m, log, Answer(FromPhis, S, UNKNOWN_SIZE, U, Known(t), r));
    } else {
      assert Follows(m, log, Answer(FromGeps, U, Known(t), S, UNKNOWN_SIZE, r));
      assert Follows(m, log, Answer(FromPhis, U, Known(t), S, UNKNOWN_SIZE, r));
    }
    assert Follows(m, log, Answer(FromSelects, S, UNKNOWN_SIZE, U, Known(t), r));
    var x :| Told(log, SelectRule, S, UNKNOWN_SIZE, U, Known(t), x) && r == if x != MayAlias then x else RestOf(m, S, UNKNOWN_SIZE, U, Known(t));
    assert Follows(m, log, Answer(SelectRule, S, UNKNOWN_SIZE, U, Known(t), x));
    forall y | Told(log, Query, U, Known(t), Up(a), UNKNOWN_SIZE, y) ensures y == NoAlias {
      ArmAnswer(a, b, d, len, n, t, log, a, y);
    }
    forall y | Told(log, Query, U, Known(t), Up(b), UNKNOWN_SIZE, y) ensures y == NoAlias {
      ArmAnswer(a, b, d, len, n, t, log, b, y);
    }
  }

  /** aliasGEP takes over the answer for the base, however far the GEP steps down from it. */
  lemma DescentAnswer(a: nat, b: nat, d: nat, len: nat, n: nat, t: nat, log: Log, r: AliasResult)
    requires Fits(a, b, d, len) && Sizes(n, t, a, b, len) && Asked(Program(a, b, d, len), log)
    requires Told(log, Query, Down(d), Known(n), U, Known(t), r)
    ensures r == NoAlias
  {
    var m := Program(a, b, d, len);
    StepWalks(S, TWO64 - d);
    assert Under(U) == U && Strip(U) == U;
    assert Ruled(m, log, Answer(Query, Down(d), Known(n), U, Known(t), r));
    assert Told(log, FromGeps, Down(d), Known(n), U, Known(t), r);
    assert Follows(m, log, Answer(FromGeps, Down(d), Known(n), U, Known(t), r));
    var x :| Told(log, GepRule, Down(d), Known(n), U, Known(t), x) && (x != MayAlias ==> r == x);
    DescentRule(a, b, d, len, n, t, log, x);
  }

  lemma DescentRule(a: nat, b: nat, d: nat, len: nat, n: nat, t: nat, log: Log, x: AliasResult)
    requires Fits(a, b, d, len) && Sizes(n, t, a, b, len) && Asked(Program(a, b, d, len), log)
    requires Told(log, GepRule, Down(d), Known(n), U, Known(t), x)
    ensures x == NoAlias
  {
    var m := Program(a, b, d, len);
    StepWalks(S, TWO64 - d);
    assert Follows(m, log, Answer(GepRule, Down(d), Known(n), U, Known(t), x));
    var base :| Told(log, Query, S, UNKNOWN_SIZE, U, Known(t), base) && Settles(m, Down(d), Known(n), U, Known(t), base, MayAlias, x);
    SelectAnswer(a, b, d, len, n, t, log, base);
    var q := QuestionOf(Down(d), Known(n), U, Known(t), base, MayAlias);
    var why: Reason, eqv: EqualityOracle :| Outcome(q, x, why, m.mask, eqv);
    assert !q.GivesUp() && q.Nested() == NoAlias;
  }

  // ----- When that is true -----

  /** From base + x, d below is past the t bytes at the base, or n bytes there leave the object. */
  predicate Harmless(x: nat, d: nat, len: nat, n: nat, t: nat) {
    t <= x - d || x - d + n > len
  }

  lemma StepPlace(m: Model, e: Run, i: Time, base: Value, c: nat, delta: int)
    requires IsBase(base) && Encodes(c, delta) && GepComputed(m, e, i, Step(base, c))
    ensures Place(e, i, Step(base, c)) == At(e, i, Step(base, c)) == At(e, i, base) + delta
    ensures Start(e, i, Step(base, c)) <= At(e, i, base) <= Start(e, i, Step(base, c)) + Length(e, i, Step(base, c))
  {
    StepWalks(base, c);
    StepMoves(base, c, delta, e.at(i).env);
    ModSmall(At(e, i, Step(base, c)), TWO64);
  }

  /** The offset of the arm that is taken. */
  ghost function Taken(a: nat, b: nat, e: Run, i: Time): nat {
    if e.at(i).chosen(0) then a else b
  }

  lemma Homes(a: nat, b: nat, d: nat, len: nat, e: Run, i: Time)
    requires Fits(a, b, d, len) && Covered(Program(a, b, d, len), AtOnce, e)
    ensures var x := Taken(a, b, e, i);
            && Home(e, i, Down(d)) == Home(e, i, S) == Home(e, i, Up(x)) == Home(e, i, U) && Place(e, i, S) == Place(e, i, Up(x))
            && Length(e, i, U) <= len
  {
    var m := Program(a, b, d, len);
    var x := Taken(a, b, e, i);
    assert HomeKept(e, i, Up(x)) && Beneath(Up(x)) == U && HomeKept(e, i, Down(d)) && Beneath(Down(d)) == S;
    assert SelectChooses(m, e, i, S);
    assert ValueTrue(m, e, i, U) && m.isSmallerThan(U, len + 1);
  }

  /** At any moment the pointer is one of the offsets, less d, from the object's base. */
  lemma DownPlace(a: nat, b: nat, d: nat, len: nat, e: Run, i: Time)
    requires Fits(a, b, d, len) && Covered(Program(a, b, d, len), AtOnce, e)
    ensures Home(e, i, Down(d)) == Home(e, i, U) && Length(e, i, U) <= len && Start(e, i, U) <= Place(e, i, U)
    ensures Place(e, i, Down(d)) == Place(e, i, U) + Taken(a, b, e, i) - d
  {
    var m := Program(a, b, d, len);
    Homes(a, b, d, len, e, i);
    DownFrom(m, e, i, Taken(a, b, e, i), d);
  }

  lemma DownFrom(m: Model, e: Run, i: Time, x: nat, d: nat)
    requires 0 < x < TWO63 && 0 < d <= TWO63 && MemoryGood(e.memory)
    requires GepComputed(m, e, i, Up(x)) && GepComputed(m, e, i, Down(d))
    requires Home(e, i, Down(d)) == Home(e, i, S) == Home(e, i, Up(x)) == Home(e, i, U) && Place(e, i, S) == Place(e, i, Up(x))
    ensures Start(e, i, U) <= Place(e, i, U) && Place(e, i, Down(d)) == Place(e, i, U) + x - d
  {
    StepPlace(m, e, i, U, x, x);
    StepPlace(m, e, i, S, TWO64 - d, 0 - d);
    Wrapped(At(e, i, U), At(e, i, S), x, Start(e, i, U), Length(e, i, U));
  }

  lemma Wrapped(u: int, s: int, x: nat, start: int, length: nat)
    requires 0 <= start <= u <= start + length <= TWO64 && start <= s <= start + length && x > 0
    requires s % TWO64 == u + x < TWO64
    ensures u % TWO64 == u && s == u + x
  {
    ModSmall(u, TWO64);
    if s < TWO64 {
      ModSmall(s, TWO64);
    }
  }

  /**
   NoAlias is what the query says of d below a select of u + a and u + b against u; it is true
   if and only if neither offset, less d, gets back to the bytes at u.
   */
  lemma DescentExact(a: nat, b: nat, d: nat, len: nat, n: nat, t: nat)
    requires Fits(a, b, d, len) && Sizes(n, t, a, b, len)
    ensures AlwaysNow(Program(a, b, d, len), AtOnce, NoAlias, Down(d), Known(n), U, Known(t))
            <==> Harmless(a, d, len, n, t) && Harmless(b, d, len, n, t)
  {
    if Harmless(a, d, len, n, t) && Harmless(b, d, len, n, t) {
      DescentHarmless(a, b, d, len, n, t);
    } else {
      DescentMeets(a, b, d, len, n, t, !Harmless(a, d, len, n, t));
    }
  }

  lemma DescentHarmless(a: nat, b: nat, d: nat, len: nat, n: nat, t: nat)
    requires Fits(a, b, d, len) && Harmless(a, d, len, n, t) && Harmless(b, d, len, n, t)
    ensures AlwaysNow(Program(a, b, d, len), AtOnce, NoAlias, Down(d), Known(n), U, Known(t))
  {
    var m := Program(a, b, d, len);
    StepWalks(S, TWO64 - d);
    forall e: Run, i | Covered(m, AtOnce, e) ensures Holds(m, e, NoAlias, i, Down(d), Known(n), i, U, Known(t)) {
      DownPlace(a, b, d, len, e, i);
      forall k: nat, l: nat | Touches(e, i, Down(d), Known(n), k) && Touches(e, i, U, Known(t), l)
        ensures Disjoint(Place(e, i, Down(d)), k, Place(e, i, U), l) {
        RangesApart(Place(e, i, Down(d)), k, Place(e, i, U), l);
      }
    }
  }

  /** The execution in which the two accesses share a byte. */
  lemma DescentMeets(a: nat, b: nat, d: nat, len: nat, n: nat, t: nat, first: bool)
    requires Fits(a, b, d, len) && Sizes(n, t, a, b, len) && !Harmless(if first then a else b, d, len, n, t)
    ensures !AlwaysNow(Program(a, b, d, len), AtOnce, NoAlias, Down(d), Known(n), U, Known(t))
  {
    var m, e := Program(a, b, d, len), Now(a, b, len, first);
    NowCovered(a, b, d, len, first);
    NowPlaces(a, b, d, len, first, 0);
    NowShares(e, 0, Down(d), n, U, t, TWO63, (if first then a else b) - d, len);
    assert !Holds(m, e, NoAlias, 0, Down(d), Known(n), 0, U, Known(t));
  }

  lemma NowShares(e: Run, i: Time, v: Value, n: nat, w: Value, t: nat, start: int, x: int, len: nat)
    requires Home(e, i, v) == Home(e, i, w) && Start(e, i, w) == start && Length(e, i, w) == len
    requires Place(e, i, w) == start && Place(e, i, v) == start + x && 0 <= x < t <= len && 0 < n && x + n <= len
    ensures !Apart(e, i, v, Known(n), i, w, Known(t))
  {
    assert Touches(e, i, v, Known(n), n) && Touches(e, i, w, Known(t), t);
    assert ByteAt(start + x, 0) == ByteAt(start, x);
  }

  /** 8 below a select of u + 8 and u + 12, in an object of 16 bytes: NoAlias, though it may be u. */
  lemma DescentExample(log: Log, r: AliasResult)
    requires Asked(Program(8, 12, 8, 16), log) && Told(log, Query, Down(8), Known(4), U, Known(4), r)
    ensures r == NoAlias && !AlwaysNow(Program(8, 12, 8, 16), AtOnce, NoAlias, Down(8), Known(4), U, Known(4))
  {
    DescentAnswer(8, 12, 8, 16, 4, 4, log, r);
    DescentExact(8, 12, 8, 16, 4, 4);
  }

  /** The query itself. */
  method AskDescent(a: nat, b: nat, d: nat, len: nat, n: nat, t: nat) returns (r: AliasResult)
    requires Fits(a, b, d, len) && Sizes(n, t, a, b, len)
    ensures r == NoAlias
  {
    ProgramIsGood(a, b, d, len);
    AtOnceGood(Program(a, b, d, len));
    var basic := new BasicAliasAnalysis(Program(a, b, d, len), RankOf(d), AtOnce);
    r := basic.Alias(Loc(Down(d), Known(n)), Loc(U, Known(t)));
    DescentAnswer(a, b, d, len, n, t, basic.Answers, r);
  }

  // ----- Without the step down -----

  function Part(m: Model, values: set<Value>): Model {
    m.(values := values)
  }

  lemma PartGood(m: Model, values: set<Value>, rank: Value -> nat)
    requires ProgramGood(m) && Acyclic(m, rank) && values <= m.values && Closed(Part(m, values))
    ensures ProgramGood(Part(m, values)) && Acyclic(Part(m, values), rank)
  {
    var part := Part(m, values);
    forall v | v in values ensures ValueGood(part, v) && RankGood(part, rank, v) {
      assert ValueGood(m, v) && RankGood(m, rank, v);
    }
  }

  lemma PartRespects(m: Model, values: set<Value>, e: Run)
    requires Respects(m, AtOnce, e) && values <= m.values
    ensures Respects(Part(m, values), AtOnce, e)
  {
    var part := Part(m, values);
    forall i, v | v in values ensures PhiArrives(part, e, i, v) && SelectChooses(part, e, i, v) {
      assert PhiArrives(m, e, i, v) && SelectChooses(m, e, i, v);
    }
    forall i, b ensures EntryLinked(part, AtOnce, e, i, b) {
      assert EntryLinked(m, AtOnce, e, i, b);
    }
  }

  lemma PartHelpers(m: Model, values: set<Value>, e: Run)
    requires HelpersTrue(m, AtOnce, e) && values <= m.values
    ensures HelpersTrue(Part(m, values), AtOnce, e)
  {
    var part := Part(m, values);
    forall i, v | v in values ensures ValueTrue(part, e, i, v) {
      assert ValueTrue(m, e, i, v);
    }
    forall i, v, s, j, w, t | v in values && w in values && Linked(part, e, {}, i, j) ensures NextTrue(part, e, i, v, s, j, w, t) {
      LinkedSame(m, e, i);
      assert NextTrue(m, e, i, v, s, j, w, t);
    }
  }

  /** Part of a program that is closed has the executions of the whole. */
  lemma PartCovered(m: Model, values: set<Value>, e: Run)
    requires Covered(m, AtOnce, e) && values <= m.values
    ensures Covered(Part(m, values), AtOnce, e)
  {
    PartRespects(m, values, e);
    PartHelpers(m, values, e);
    forall i, v | v in values ensures GepComputed(Part(m, values), e, i, v) {
      assert GepComputed(m, e, i, v);
    }
  }

  function UpwardPart(a: nat, b: nat, d: nat, len: nat): Model
    requires d <= TWO64
  {
    Part(Program(a, b, d, len), {U, S, Up(a), Up(b)})
  }

  lemma UpwardIsClosed(a: nat, b: nat, d: nat, len: nat)
    requires Fits(a, b, d, len)
    ensures Closed(UpwardPart(a, b, d, len)) && NoDescent(UpwardPart(a, b, d, len))
  {
    var m := UpwardPart(a, b, d, len);
    StepWalks(U, a);
    StepWalks(U, b);
    assert Under(U) == U && Under(S) == S && Strip(U) == U && Strip(S) == S;
    assert m.node(U) == Other && Plain(m, U);
    assert LeadsInside(m, U) && LeadsInside(m, S) && LeadsInside(m, Up(a)) && LeadsInside(m, Up(b));
  }

  /** The program without p has the same executions, and its GEPs only step up: every answer is true in them. */
  lemma UpwardProgram(a: nat, b: nat, d: nat, len: nat, first: bool)
    requires Fits(a, b, d, len)
    ensures var m := UpwardPart(a, b, d, len);
            ProgramGood(m) && Acyclic(m, RankOf(d)) && NoDescent(m) && Covered(m, AtOnce, Now(a, b, len, first))
  {
    ProgramIsGood(a, b, d, len);
    NowCovered(a, b, d, len, first);
    UpwardIsClosed(a, b, d, len);
    PartGood(Program(a, b, d, len), {U, S, Up(a), Up(b)}, RankOf(d));
    PartCovered(Program(a, b, d, len), {U, S, Up(a), Up(b)}, Now(a, b, len, first));
  }

  // ----- A local object and a pointer that was loaded -----

  /** u is a local object, which stays local or not, and s is loaded from memory. */
  function Loading(local: bool): Model {
    Model({U, S}, v => Other, v => if v == U then 0 else 1,
          v => false, v => true, v => true,
          v => false, v => false, v => false, v => false,
          v => v == U, v => v == U, v => v == U,
          v => v == S, v => v == U && local,
          (v, n) => false, (v, n) => false,
          (b, v) => true, x => true, (b, x) => true,
          (x, c) => false,
          (l1, l2) => MayAlias)
  }

  /** The loaded pointer is u itself. */
  function Reloaded(len: nat): Run {
    Run(Memory(o => if o == 1 then TWO63 else 0, o => if o == 1 then len else 0, o => U),
        (i: Time) => Moment(Env(map[], map[U := TWO63, S := TWO63]), v => 1, c => true),
        (i: Time, k: Block) => i, (i: Time, k: Block) => k)
  }

  lemma LoadingGood(local: bool)
    ensures ProgramGood(Loading(local))
  {
    StepGood(U, 0);
    StepGood(S, 0);
    assert Under(U) == U && Under(S) == S && Strip(U) == U && Strip(S) == S;
    assert LeadsInside(Loading(local), U) && LeadsInside(Loading(local), S);
  }

  lemma ReloadedCovered(len: nat)
    requires len < TWO63
    ensures Covered(Loading(false), AtOnce, Reloaded(len))
  {
    assert MemoryGood(Reloaded(len).memory);
    assert Respects(Loading(false), AtOnce, Reloaded(len));
    forall i, v | v in Loading(false).values ensures ValueTrue(Loading(false), Reloaded(len), i, v) {
      ReloadedTrue(len, i, v);
    }
  }

  lemma ReloadedTrue(len: nat, i: Time, v: Value)
    requires v in Loading(false).values
    ensures ValueTrue(Loading(false), Reloaded(len), i, v)
  {
  }

  lemma ReloadedMeets(len: nat, n: nat, t: nat)
    requires 0 < n <= len < TWO63 && 0 < t <= len
    ensures !Apart(Reloaded(len), 0, S, Known(n), 0, U, Known(t))
  {
    var e := Reloaded(len);
    assert WellFormed(U) && WellFormed(S) && U != S;
    ModSmall(TWO63, TWO64);
    NowShares(e, 0, S, n, U, t, TWO63, 0, len);
  }

  /** What is loaded may be a local object if and only if the object does not stay local. */
  lemma LoadMayBeLocal(local: bool, n: nat, t: nat)
    requires 0 < n < TWO63 && 0 < t < TWO63
    ensures AlwaysNow(Loading(local), AtOnce, NoAlias, S, Known(n), U, Known(t)) <==> local
    ensures EarlyAnswer(Loading(local), S, Known(n), U, Known(t), false) == if local then Decided(NoAlias) else Undecided
  {
    var m := Loading(local);
    assert Under(U) == U && Under(S) == S && Strip(U) == U && Strip(S) == S;
    if local {
      LoadingGood(true);
      DifferentObjects(m, AtOnce, S, Known(n), U, Known(t));
      assert NoDescent(m);
      TrueNow(m, AtOnce, NoAlias, S, Known(n), U, Known(t));
    } else {
      var len := if n < t then t else n;
      ReloadedCovered(len);
      ReloadedMeets(len, n, t);
      assert !Holds(m, Reloaded(len), NoAlias, 0, S, Known(n), 0, U, Known(t));
    }
  }
}
