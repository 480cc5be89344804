/**
 A loop that walks an object a in steps of k bytes: i is 0 and then k, g = a + (i + k) and
 h = a + i, and p = phi b, g starts at another object b and follows one turn behind g. Though
 g and h never meet in one turn, p is where h is from the second turn on.
 */
module LoopExample {
  import opened AliasResults
  import opened Arith
  import opened GepModel
  import opened LinearExpression
  import opened IndexValues
  import opened Decomposition
  import opened IndexDifference
  import opened OffsetRules
  import opened ByteGeps
  import opened QueryModel
  import opened QueryRuns
  import opened QueryRules
  import opened AliasQuery

  const A: Value := Root(0, BYTE)
  const B: Value := Root(1, BYTE)
  const P: Value := Root(2, BYTE)
  const I: Expr := Opaque(0, 64)
  const H: Value := Byte(A, I)
  const ENTRY: Block := 0
  const LOOP: Block := 1

  function Next(k: nat): Expr {
    Binary(Add, I, ConstInt(k, 64))
  }

  function G(k: nat): Value {
    Byte(A, Next(k))
  }

  /** Two turns and accesses of n and t bytes in the second fit an object of len bytes. */
  predicate Fits(k: nat, len: nat, n: nat, t: nat) {
    0 < k && 0 < n && 0 < t && 2 * k <= len && k + n <= len && k + t <= len && len < TWO63
  }

  function Program(k: nat): Model {
    Model({A, B, P, H, G(k)},
          v => if v == P then Phi(LOOP, [B, G(k)], [ENTRY, LOOP]) else Other,
          v => if v == A then 0 else if v == B then 1 else if v == P then 2 else if v == H then 3 else 4,
          v => false, v => true, v => true,
          v => false, v => false, v => false, v => false,
          v => v == A || v == B, v => v == A || v == B, v => v == A || v == B,
          v => false, v => false,
          (v, n) => false, (v, n) => false,
          (b, v) => v != A && v != B, (x: Expr) => !x.ConstInt?, (b, x) => true,
          (x, c) => false,
          (l1, l2) => MayAlias)
  }

  function RankOf(): Value -> nat {
    v => if v == A || v == B then 0 else if v == P then 2 else 1
  }

  // ----- The program -----

  lemma IndicesGood(k: nat)
    requires k < TWO63
    ensures WellTyped(I) && WellTyped(Next(k)) && Width(Next(k)) == 64
  {
    Pow2Of64();
    assert WellTyped(ConstInt(k, 64));
  }

  lemma PointersGood(k: nat)
    requires k < TWO63
    ensures WellFormed(A) && WellFormed(B) && WellFormed(P) && WellFormed(H) && WellFormed(G(k))
  {
    IndicesGood(k);
    assert GoodLayout(BYTE);
    ByteGood(A, I);
    ByteGood(A, Next(k));
  }

  lemma Walks(k: nat)
    ensures Under(A) == A && Under(B) == B && Under(P) == P && Under(H) == A && Under(G(k)) == A
    ensures Strip(A) == A && Strip(B) == B && Strip(P) == P && Strip(H) == H && Strip(G(k)) == G(k)
  {
    assert GetUnderlyingObject(A, 5) == A;
    assert !H.indices[0].ConstInt? && !G(k).indices[0].ConstInt?;
  }

  lemma ValueIsGood(k: nat, v: Value)
    requires k < TWO63 && v in Program(k).values
    ensures ValueGood(Program(k), v)
  {
    PointersGood(k);
    assert |H.indices| == |G(k).indices| == 1;
  }

  lemma ValueIsClosed(k: nat, v: Value)
    requires k < TWO63 && v in Program(k).values
    ensures LeadsInside(Program(k), v) && RankGood(Program(k), RankOf(), v)
  {
    Walks(k);
  }

  lemma PositionsDiffer(k: nat, v: Value, w: Value)
    requires v in Program(k).values && w in Program(k).values && Program(k).position(v) == Program(k).position(w)
    ensures v == w
  {
  }

  lemma ProgramIsClosed(k: nat)
    requires k < TWO63
    ensures Closed(Program(k))
  {
    forall v | v in Program(k).values ensures LeadsInside(Program(k), v) {
      ValueIsClosed(k, v);
    }
  }

  lemma ProgramIsAcyclic(k: nat)
    requires k < TWO63
    ensures Acyclic(Program(k), RankOf())
  {
    forall v | v in Program(k).values ensures RankGood(Program(k), RankOf(), v) {
      ValueIsClosed(k, v);
    }
  }

  lemma ProgramIsGood(k: nat)
    requires k < TWO63
    ensures ProgramGood(Program(k))
  {
    var m := Program(k);
    ProgramIsClosed(k);
    forall v | v in m.values ensures ValueGood(m, v) {
      ValueIsGood(k, v);
    }
    forall v, w | v in m.values && w in m.values && m.position(v) == m.position(w) ensures v == w {
      PositionsDiffer(k, v, w);
    }
  }

  lemma NothingDescends(k: nat)
    ensures NoDescent(Program(k))
  {
    Walks(k);
    assert Plain(Program(k), A);
  }

  // ----- The pairs that are asked about -----

  /** The pairs below p and h; g and h are asked about as they are at the two ends of a turn. */
  function Pairs(k: nat): Turns {
    Turning((v, w) => !(v == P && (w == P || w == G(k))) && !(v == G(k) && w == P),
            (v, w) => if (v == H && w == G(k)) || (v == G(k) && w == H) then {LOOP} else {},
            c => false)
  }

  /** The walks from g and h collect the index with different constants. */
  lemma WalksDiffer(k: nat)
    requires 0 < k < TWO63
    ensures WellFormed(H) && WellFormed(G(k)) && Walked(Program(k), H) != Walked(Program(k), G(k))
  {
    var mz := Program(k).mask;
    IndicesGood(k);
    PointersGood(k);
    Pow2Of64();
    SumSteps(I, k, NotExtended, MAX_DEPTH, mz);
    assert Residue(I, NotExtended, MAX_DEPTH, mz) == (I, NotExtended) && WrappedForm(I, NotExtended, MAX_DEPTH, mz) == (1, 0);
    OneIndexCollected(A, I, mz, NOTHING);
    OneIndexCollected(A, Next(k), mz, NOTHING);
    IndexCollected(I, 0, mz);
    IndexCollected(Next(k), k, mz);
  }

  lemma IndexCollected(index: Expr, o: nat, mz: MaskOracle)
    requires WellTyped(index) && Width(index) == 64 && !index.ConstInt? && o < TWO63 && WellTyped(I)
    requires Residue(index, NotExtended, MAX_DEPTH, mz) == (I, NotExtended) && WrappedForm(index, NotExtended, MAX_DEPTH, mz) == (1, o)
    ensures AfterVariable(1, index, 64, mz, NOTHING).offs == o
  {
    Pow2Of64();
    SignedOne(64);
    SignedSmall(o, 64);
  }

  /** Two GEPs with one index each that the walk tells apart. */
  lemma GepPair(m: Model, u: Turns, v: Value, w: Value)
    requires v.Gep? && w.Gep? && |v.indices| == |w.indices| == 1 && m.node(v).Other? && m.node(w).Other?
    requires WellFormed(v) && WellFormed(w) && Walked(m, v) != Walked(m, w) && Strip(v) == v && Strip(w) == w
    requires Foreseen(u, v, w) && Foreseen(u, w, v) && Passed(u, v, w) == Passed(u, w, v)
    requires LeadsTo(m, u, Passed(u, v, w), Under(v), Under(w))
    ensures PairGood(m, u, v, w)
  {
  }

  lemma LoopPair(k: nat)
    requires 0 < k < TWO63
    ensures PairGood(Program(k), Pairs(k), H, G(k)) && PairGood(Program(k), Pairs(k), G(k), H)
  {
    var m, u := Program(k), Pairs(k);
    Walks(k);
    WalksDiffer(k);
    assert LeadsTo(m, u, {LOOP}, A, A) && Passed(u, H, G(k)) == Passed(u, G(k), H) == {LOOP};
    GepPair(m, u, H, G(k));
    GepPair(m, u, G(k), H);
  }

  lemma PairIsGood(k: nat, v: Value, w: Value)
    requires 0 < k < TWO63 && v in Program(k).values && w in Program(k).values && Foreseen(Pairs(k), v, w)
    ensures PairGood(Program(k), Pairs(k), v, w)
  {
    var m, u := Program(k), Pairs(k);
    Walks(k);
    if Passed(u, v, w) != {} {
      LoopPair(k);
    } else if v == P {
      assert m.node(P).values == [B, G(k)] && !PhisTogether(m, P, w);
      assert LeadsTo(m, u, {LOOP}, w, B) && LeadsTo(m, u, {LOOP}, w, G(k));
    } else if v.Gep? {
      assert LeadsTo(m, u, {}, A, Anchor(w));
    }
  }

  lemma PairsGood(k: nat)
    requires 0 < k < TWO63
    ensures TurnsGood(Program(k), Pairs(k)) && AskedFirst(Program(k), Pairs(k), P, H)
  {
    var m, u := Program(k), Pairs(k);
    forall v, w | v in m.values && w in m.values && Foreseen(u, v, w) ensures PairGood(m, u, v, w) {
      PairIsGood(k, v, w);
    }
  }

  // ----- Two turns -----

  function IndexAt(k: nat, i: Time): nat {
    if i == 0 then 0 else k
  }

  function HomeAt(i: Time, v: Value): Object {
    if v == B || (v == P && i == 0) then 2 else if Steps(v) then HomeAt(i, Beneath(v)) else 1
  }

  /** Moment 0 is the first turn, entered from outside; the later ones are the second, entered from the first. */
  function TwoTurns(k: nat, len: nat): Run {
    Run(Memory(o => if o == 1 then TWO63 else if o == 2 then 1 else 0, o => if o == 1 then len else if o == 2 then 1 else 0,
               o => if o == 2 then B else A),
        (i: Time) => Moment(Env(map[I := IndexAt(k, i)], map[A := TWO63, B := 1, P := if i == 0 then 1 else TWO63 + k]),
                            v => HomeAt(i, v), c => true),
        (i: Time, b: Block) => if b == LOOP then 0 else i,
        (i: Time, b: Block) => if i == 0 then ENTRY else LOOP)
  }

  lemma IndexValuesAt(k: nat, env: Env, x: nat)
    requires 2 * k < TWO63 && x <= k && LeafValue(I, env) == x
    ensures WellTyped(I) && WellTyped(Next(k)) && SignedValue(I, env) == x && SignedValue(Next(k), env) == x + k
  {
    Pow2Of64();
    IndicesGood(k);
    ModSmall(x, TWO64);
    ModSmall(x + k, TWO64);
    assert GepModel.Value(I, env) == x && GepModel.Value(Next(k), env) == (x + k) % Pow2(64);
    SignedSmall(x, 64);
    SignedSmall(x + k, 64);
  }

  lemma Places(k: nat, len: nat, i: Time)
    requires Fits(k, len, 1, 1)
    ensures var e := TwoTurns(k, len);
            && At(e, i, A) == TWO63 && At(e, i, B) == 1 && At(e, i, P) == (if i == 0 then 1 else TWO63 + k)
            && At(e, i, H) == TWO63 + IndexAt(k, i) && At(e, i, G(k)) == TWO63 + IndexAt(k, i) + k
            && Home(e, i, A) == Home(e, i, H) == Home(e, i, G(k)) == 1
  {
    var env := TwoTurns(k, len).at(i).env;
    PointersGood(k);
    IndicesGood(k);
    IndexValuesAt(k, env, IndexAt(k, i));
    ByteAddress(A, I, env);
    ByteAddress(A, Next(k), env);
    assert HomeAt(i, A) == 1;
  }

  lemma IndexExact(k: nat, index: Expr, mz: MaskOracle, env: Env)
    requires k < TWO63 && (index == I || index == Next(k)) && SoundMask(mz)
    ensures ExactPointer(Byte(A, index), MAX_LOOKUP_SEARCH_DEPTH, 64, mz, env)
  {
    IndicesGood(k);
    PointersGood(k);
    Pow2Of64();
    if index == I {
      assert Residue(I, NotExtended, MAX_DEPTH, mz) == (I, NotExtended);
    } else {
      SumSteps(I, k, NotExtended, MAX_DEPTH, mz);
    }
    CastFreeIndex(1, index, 64, mz, env);
    assert TakenAddress(A, 5, 64, mz, env) == Address(A, env);
    OneIndexExact(A, index, MAX_LOOKUP_SEARCH_DEPTH, 64, mz, env);
  }

  lemma TurnsComputed(k: nat, len: nat, i: Time, v: Value)
    requires Fits(k, len, 1, 1) && v in Program(k).values
    ensures GepComputed(Program(k), TwoTurns(k, len), i, v)
  {
    if v.Gep? {
      Walks(k);
      Places(k, len, i);
      IndexExact(k, v.indices[0], Program(k).mask, TwoTurns(k, len).at(i).env);
    }
  }

  lemma TurnsLinked(k: nat, len: nat, i: Time, b: Block)
    requires Fits(k, len, 1, 1)
    ensures EntryLinked(Program(k), Pairs(k), TwoTurns(k, len), i, b)
  {
    var m, e := Program(k), TwoTurns(k, len);
    if b == LOOP {
      Places(k, len, i);
      Places(k, len, 0);
      forall v | v in m.values && Unreached(m, {b}, v) ensures Unchanged(e, i, 0, v) {
        assert !m.blockReaches(b, v);
      }
      forall x | UnreachedIndex(m, {b}, x) ensures UnchangedIndex(e, i, 0, x) {
        assert !m.blockReachesIndex(b, x) || x.ConstInt?;
      }
    } else {
      LinkedBySame(m, e, b, i);
    }
    assert {} + {b} == {b};
  }

  lemma LinkedBySame(m: Model, e: Run, b: Block, i: Time)
    ensures Linked(m, e, {b}, i, i)
  {
  }

  lemma TurnsHome(k: nat, len: nat, i: Time, v: Value)
    ensures HomeKept(TwoTurns(k, len), i, v)
  {
    assert Home(TwoTurns(k, len), i, v) == HomeAt(i, v);
  }

  lemma IncomingParts(k: nat)
    ensures IncomingFor([B, G(k)], [ENTRY, LOOP], ENTRY) == B && IncomingFor([B, G(k)], [ENTRY, LOOP], LOOP) == G(k)
  {
    assert [B, G(k)][1..] == [G(k)] && [ENTRY, LOOP][1..] == [LOOP];
  }

  /** p is b in the first turn and then g of the turn before. */
  lemma TurnsArrive(k: nat, len: nat, i: Time, v: Value)
    requires Fits(k, len, 1, 1) && v in Program(k).values
    ensures PhiArrives(Program(k), TwoTurns(k, len), i, v)
  {
    if v == P {
      var e := TwoTurns(k, len);
      Places(k, len, i);
      Places(k, len, 0);
      IncomingParts(k);
      assert Home(e, i, P) == HomeAt(i, P) && Home(e, 0, B) == HomeAt(0, B) && HomeAt(i, P) == if i == 0 then 2 else 1;
    }
  }

  lemma TurnsRespect(k: nat, len: nat)
    requires Fits(k, len, 1, 1)
    ensures Respects(Program(k), Pairs(k), TwoTurns(k, len))
  {
    var m, u, e := Program(k), Pairs(k), TwoTurns(k, len);
    assert MemoryGood(e.memory);
    forall i, v ensures HomeKept(e, i, v) {
      TurnsHome(k, len, i, v);
    }
    forall i, v | v in m.values ensures PhiArrives(m, e, i, v) {
      TurnsArrive(k, len, i, v);
    }
    forall i, b ensures EntryLinked(m, u, e, i, b) {
      TurnsLinked(k, len, i, b);
    }
  }

  lemma TurnsTrue(k: nat, len: nat, i: Time, v: Value)
    requires Fits(k, len, 1, 1) && v in Program(k).values
    ensures ValueTrue(Program(k), TwoTurns(k, len), i, v)
  {
    assert Home(TwoTurns(k, len), i, v) == HomeAt(i, v);
    assert HomeAt(i, A) == 1 && HomeAt(i, B) == 2;
  }

  /** The two turns are an execution of the program. */
  lemma TurnsCovered(k: nat, len: nat)
    requires Fits(k, len, 1, 1)
    ensures Covered(Program(k), Pairs(k), TwoTurns(k, len))
  {
    var m, u, e := Program(k), Pairs(k), TwoTurns(k, len);
    TurnsRespect(k, len);
    forall i, v | v in m.values ensures ValueTrue(m, e, i, v) {
      TurnsTrue(k, len, i, v);
    }
    forall i, v | v in m.values ensures GepComputed(m, e, i, v) {
      TurnsComputed(k, len, i, v);
    }
  }

  // ----- What no true answer says -----

  /** In the second turn p is where h is. */
  lemma TurnsMeet(k: nat, len: nat, n: nat, t: nat)
    requires Fits(k, len, n, t)
    ensures !Apart(TwoTurns(k, len), 1, P, Known(n), 1, H, Known(t))
  {
    var e := TwoTurns(k, len);
    Places(k, len, 1);
    ModSmall(TWO63 + k, TWO64);
    assert Home(e, 1, P) == HomeAt(1, P) == 1;
    assert Touches(e, 1, P, Known(n), n) && Touches(e, 1, H, Known(t), t);
    assert ByteAt(Place(e, 1, P), 0) == ByteAt(Place(e, 1, H), 0);
  }

  /** In the first p is in b, and h is in a. So neither NoAlias nor MustAlias is true of them. */
  lemma LoopMeets(k: nat, len: nat, n: nat, t: nat, r: AliasResult)
    requires Fits(k, len, n, t) && AlwaysNow(Program(k), Pairs(k), r, P, Known(n), H, Known(t))
    ensures r == MayAlias || r == PartialAlias
  {
    var m, e := Program(k), TwoTurns(k, len);
    TurnsCovered(k, len);
    TurnsMeet(k, len, n, t);
    Places(k, len, 0);
    assert Home(e, 0, P) == HomeAt(0, P) == 2;
    assert Holds(m, e, r, 0, P, Known(n), 0, H, Known(t)) && Holds(m, e, r, 1, P, Known(n), 1, H, Known(t));
  }

  /** The query itself. */
  method AskLoop(k: nat, len: nat, n: nat, t: nat) returns (r: AliasResult)
    requires Fits(k, len, n, t)
    ensures r == MayAlias || r == PartialAlias
  {
    ProgramIsGood(k);
    ProgramIsAcyclic(k);
    NothingDescends(k);
    PairsGood(k);
    var basic := new BasicAliasAnalysis(Program(k), RankOf(), Pairs(k));
    r := basic.Alias(Loc(P, Known(n)), Loc(H, Known(t)));
    LoopMeets(k, len, n, t, r);
  }
}
