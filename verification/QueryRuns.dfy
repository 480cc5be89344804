/**
 What the answers of a query mean in executions. A phi is where its source was when the phi's
 block was last entered, so behind a phi a query is about a value at an earlier moment and
 another at a later one.
 */
module QueryRuns {
  import opened AliasResults
  import opened Arith
  import opened GepModel
  import opened LinearExpression
  import opened Decomposition
  import opened IndexDifference
  import opened OffsetRules
  import opened FieldRule
  import opened QueryModel

  type Object = nat
  type Time = nat

  /** What null pointers point into. */
  const NULL_OBJECT: Object := 0

  /** Where the objects of an execution lie, and which value made each. */
  datatype Memory = Memory(start: Object -> int, length: Object -> nat, origin: Object -> Value)

  /** One moment: the values of leaves, the object each value points into, and the conditions. */
  datatype Moment = Moment(env: Env, home: Value -> Object, chosen: Cond -> bool)

  /** One execution: its moments, and for each when every block was last entered, and from which block. */
  datatype Run = Run(memory: Memory, at: Time -> Moment, entry: (Time, Block) -> Time, from: (Time, Block) -> Block)

  // ----- Places and accesses -----

  /** The address as computed, before it wraps. */
  ghost function At(e: Run, i: Time, v: Value): int {
    if WellFormed(v) then Address(v, e.at(i).env) else 0
  }

  ghost function Place(e: Run, i: Time, v: Value): int {
    At(e, i, v) % TWO64
  }

  ghost function Home(e: Run, i: Time, v: Value): Object {
    e.at(i).home(v)
  }

  ghost function Start(e: Run, i: Time, v: Value): int {
    e.memory.start(Home(e, i, v))
  }

  ghost function Length(e: Run, i: Time, v: Value): nat {
    e.memory.length(Home(e, i, v))
  }

  /** v at moment i is where w is at moment j. */
  ghost predicate SamePlace(e: Run, i: Time, v: Value, j: Time, w: Value) {
    Home(e, i, v) == Home(e, j, w) && Place(e, i, v) == Place(e, j, w)
  }

  /** An access of n bytes stays inside the object. */
  ghost predicate Legal(e: Run, i: Time, v: Value, n: nat) {
    Start(e, i, v) <= Place(e, i, v) && Place(e, i, v) + n <= Start(e, i, v) + Length(e, i, v)
  }

  /** A legal access through a location: of its size if that is known, of any length from the pointer on otherwise. */
  ghost predicate Touches(e: Run, i: Time, v: Value, s: Size, n: nat) {
    Legal(e, i, v, n) && (s.Known? ==> n == s.bytes)
  }

  /** No legal access to v as it is at i shares a byte with one to w as it is at j. */
  ghost predicate Apart(e: Run, i: Time, v: Value, s: Size, j: Time, w: Value, t: Size) {
    forall n: nat, k: nat | Touches(e, i, v, s, n) && Touches(e, j, w, t, k) :: Disjoint(Place(e, i, v), n, Place(e, j, w), k)
  }

  /** The object is too small for any access of the size. */
  ghost predicate Dead(e: Run, i: Time, v: Value, s: Size) {
    Length(e, i, v) == 0 || (s.Known? && s.bytes > Length(e, i, v))
  }

  /** Apart for a reason that does not depend on where in their objects the pointers are allowed to be. */
  ghost predicate WhollyApart(e: Run, i: Time, v: Value, s: Size, j: Time, w: Value, t: Size) {
    || s == Known(0) || t == Known(0) || Dead(e, i, v, s) || Dead(e, j, w, t) || Home(e, i, v) != Home(e, j, w)
    || (s.Known? && t.Known? && Disjoint(Place(e, i, v), s.bytes, Place(e, j, w), t.bytes))
  }

  /** Where NoAlias must mean WhollyApart: for two plain values, and for a plain value at unknown size. */
  predicate NeedsWhole(m: Model, v: Value, s: Size, w: Value, t: Size) {
    (Plain(m, v) && Plain(m, w)) || (Plain(m, v) && s.UnknownSize?) || (Plain(m, w) && t.UnknownSize?)
  }

  /** The answer is true of v as it is at moment i and w as it is at moment j. */
  ghost predicate Holds(m: Model, e: Run, r: AliasResult, i: Time, v: Value, s: Size, j: Time, w: Value, t: Size) {
    && (r == NoAlias ==> Apart(e, i, v, s, j, w, t) && (NeedsWhole(m, v, s, w, t) ==> WhollyApart(e, i, v, s, j, w, t)))
    && (r == MustAlias ==> SamePlace(e, i, v, j, w))
  }

  // ----- Two moments of one execution -----

  /** No block of the set leads to where the value is computed. */
  ghost predicate Unreached(m: Model, blocks: set<Block>, v: Value) {
    m.isInstruction(v) ==> forall b | b in blocks :: !m.blockReaches(b, v)
  }

  ghost predicate UnreachedIndex(m: Model, blocks: set<Block>, x: Expr) {
    m.isIndexInstruction(x) ==> forall b | b in blocks :: !m.blockReachesIndex(b, x)
  }

  /** The value is the same at both moments. */
  ghost predicate Unchanged(e: Run, i: Time, j: Time, v: Value) {
    Home(e, i, v) == Home(e, j, v) && At(e, i, v) == At(e, j, v)
  }

  ghost predicate UnchangedIndex(e: Run, i: Time, j: Time, x: Expr) {
    WellTyped(x) ==> GepModel.Value(x, e.at(i).env) == GepModel.Value(x, e.at(j).env)
  }

  /** Only entries of the blocks lie between the moments: what none of them reaches is unchanged. */
  ghost predicate Linked(m: Model, e: Run, blocks: set<Block>, i: Time, j: Time) {
    && (blocks == {} ==> i == j)
    && (forall v {:trigger Unchanged(e, i, j, v)} | v in m.values && Unreached(m, blocks, v) :: Unchanged(e, i, j, v))
    && (forall x {:trigger UnchangedIndex(e, i, j, x)} | UnreachedIndex(m, blocks, x) :: UnchangedIndex(e, i, j, x))
  }

  lemma LinkedSame(m: Model, e: Run, i: Time)
    ensures Linked(m, e, {}, i, i)
  {
  }

  lemma LinkedSymmetric(m: Model, e: Run, blocks: set<Block>, i: Time, j: Time)
    requires Linked(m, e, blocks, i, j)
    ensures Linked(m, e, blocks, j, i)
  {
    forall v | v in m.values && Unreached(m, blocks, v) ensures Unchanged(e, j, i, v) {
      assert Unchanged(e, i, j, v);
    }
    forall x | UnreachedIndex(m, blocks, x) ensures UnchangedIndex(e, j, i, x) {
      assert UnchangedIndex(e, i, j, x);
    }
  }

  /** Back over one more entry. */
  lemma LinkedOn(m: Model, e: Run, blocks: set<Block>, b: Block, i: Time, i': Time, j: Time)
    requires Linked(m, e, blocks, i, j) && Linked(m, e, {b}, i, i')
    ensures Linked(m, e, blocks + {b}, i', j)
  {
    forall v | v in m.values && Unreached(m, blocks + {b}, v) ensures Unchanged(e, i', j, v) {
      assert Unchanged(e, i, j, v) && Unchanged(e, i, i', v);
    }
    forall x | UnreachedIndex(m, blocks + {b}, x) ensures UnchangedIndex(e, i', j, x) {
      assert UnchangedIndex(e, i, j, x) && UnchangedIndex(e, i, i', x);
    }
  }

  // ----- Between which moments a pair is asked about -----

  /**
   The executions looked at. AtOnce: those in which every phi is where its source is at the same
   moment, as if blocks were entered once. Turning: all executions, with the pairs of values a
   query can lead to, the blocks whose phis it looks through on the way to each, and conditions
   that never change.
   */
  datatype Turns =
    | AtOnce
    | Turning(asked: (Value, Value) -> bool, blocks: (Value, Value) -> set<Block>, steady: Cond -> bool)

  predicate Foreseen(u: Turns, v: Value, w: Value) {
    u.AtOnce? || u.asked(v, w)
  }

  function Passed(u: Turns, v: Value, w: Value): set<Block> {
    if u.AtOnce? then {} else u.blocks(v, w)
  }

  function After(u: Turns, blocks: set<Block>, b: Block): set<Block> {
    if u.AtOnce? then {} else blocks + {b}
  }

  /** From moments with the blocks between them to a pair: the same blocks lead there, or one of its values is the same at both. */
  ghost predicate LeadsTo(m: Model, u: Turns, blocks: set<Block>, v: Value, w: Value) {
    && Foreseen(u, v, w)
    && (Passed(u, v, w) == blocks || (Passed(u, v, w) == {} && (Unreached(m, blocks, v) || Unreached(m, blocks, w))))
  }

  /** Equal decompositions have unchanged variables, and a common base of fields is unchanged. */
  ghost predicate GepsSteady(m: Model, blocks: set<Block>, v: Value, w: Value) {
    && (WellFormed(v) && WellFormed(w) && Walked(m, v) == Walked(m, w) ==>
          forall x | x in Walked(m, v).vars :: UnreachedIndex(m, blocks, x.v))
    && (EndInFields(v, w) && v.base == w.base ==> v.base in m.values && Unreached(m, blocks, v.base))
  }

  /** What the walk from a pointer collects. */
  ghost function Walked(m: Model, v: Value): Collected
    requires WellFormed(v)
  {
    AfterWalk(v, MAX_LOOKUP_SEARCH_DEPTH, 64, m.mask, NOTHING)
  }

  ghost predicate PhiPairGood(m: Model, u: Turns, v: Value, w: Value) {
    m.node(v).Phi? ==>
      if PhisTogether(m, v, w) then
        && Passed(u, v, w) == {}
        && forall k | 0 <= k < |m.node(v).values| ::
             LeadsTo(m, u, {}, m.node(v).values[k], IncomingFor(m.node(w).values, m.node(w).blocks, m.node(v).blocks[k]))
      else forall x | x in m.node(v).values :: LeadsTo(m, u, After(u, Passed(u, v, w), m.node(v).block), w, x)
  }

  ghost predicate SelectPairGood(m: Model, u: Turns, v: Value, w: Value) {
    var blocks, n := Passed(u, v, w), m.node(v);
    n.Select? ==>
      if m.node(w).Select? && m.node(w).cond == n.cond then
        && (blocks == {} || (u.Turning? && u.steady(n.cond)))
        && LeadsTo(m, u, blocks, n.ifTrue, m.node(w).ifTrue) && LeadsTo(m, u, blocks, n.ifFalse, m.node(w).ifFalse)
      else LeadsTo(m, u, blocks, w, n.ifTrue) && LeadsTo(m, u, blocks, w, n.ifFalse)
  }

  /**
   All that a pair leads to is foreseen. Between different moments there are no two phis of one
   block, no selects on one changing condition, no changing variables in equal decompositions.
   */
  ghost predicate PairGood(m: Model, u: Turns, v: Value, w: Value) {
    var blocks := Passed(u, v, w);
    && Foreseen(u, w, v) && Passed(u, w, v) == blocks
    && Foreseen(u, Strip(v), Strip(w)) && Passed(u, Strip(v), Strip(w)) == blocks
    && (v.Gep? ==> LeadsTo(m, u, blocks, Under(v), Anchor(w)))
    && (v.Gep? && w.Gep? && blocks != {} ==> GepsSteady(m, blocks, v, w))
    && PhiPairGood(m, u, v, w) && SelectPairGood(m, u, v, w)
  }

  ghost predicate TurnsGood(m: Model, u: Turns) {
    forall v, w {:trigger PairGood(m, u, v, w)} | v in m.values && w in m.values && Foreseen(u, v, w) :: PairGood(m, u, v, w)
  }

  lemma AtOnceGood(m: Model)
    ensures TurnsGood(m, AtOnce)
  {
  }

  // ----- Which executions agree with the program and its helpers -----

  ghost predicate ApartObjects(mem: Memory, o: Object, p: Object) {
    || mem.length(o) == 0 || mem.length(p) == 0
    || mem.start(o) + mem.length(o) <= mem.start(p) || mem.start(p) + mem.length(p) <= mem.start(o)
  }

  /** Different objects share no memory, and none is longer than half the address space. */
  ghost predicate MemoryGood(mem: Memory) {
    && (forall o :: 0 <= mem.start(o) && mem.start(o) + mem.length(o) <= TWO64 && mem.length(o) <= TWO63)
    && (forall o, p | o != p :: ApartObjects(mem, o, p))
  }

  /** A pointer computed from another points into the same object. */
  ghost predicate HomeKept(e: Run, i: Time, v: Value) {
    Steps(v) ==> Home(e, i, v) == Home(e, i, Beneath(v))
  }

  /** A phi is where the incoming value was when its block was last entered. */
  ghost predicate PhiArrives(m: Model, e: Run, i: Time, v: Value) {
    m.node(v).Phi? ==>
      var b := m.node(v).block;
      && |m.node(v).values| == |m.node(v).blocks| && e.from(i, b) in m.node(v).blocks
      && SamePlace(e, i, v, e.entry(i, b), IncomingFor(m.node(v).values, m.node(v).blocks, e.from(i, b)))
  }

  /** A select is one of its arms. */
  ghost predicate SelectChooses(m: Model, e: Run, i: Time, v: Value) {
    var n := m.node(v);
    n.Select? ==> SamePlace(e, i, v, i, if e.at(i).chosen(n.cond) then n.ifTrue else n.ifFalse)
  }

  /** Between a moment and the last entry of a block, what the block does not reach is unchanged. */
  ghost predicate EntryLinked(m: Model, u: Turns, e: Run, i: Time, b: Block) {
    Linked(m, e, After(u, {}, b), i, e.entry(i, b))
  }

  ghost predicate ConditionsSteady(u: Turns, e: Run) {
    forall c, i, j | u.Turning? && u.steady(c) :: e.at(i).chosen(c) == e.at(j).chosen(c)
  }

  ghost predicate Respects(m: Model, u: Turns, e: Run) {
    && MemoryGood(e.memory) && ConditionsSteady(u, e)
    && (forall i, v {:trigger HomeKept(e, i, v)} :: HomeKept(e, i, v))
    && (forall i, v {:trigger PhiArrives(m, e, i, v)} | v in m.values :: PhiArrives(m, e, i, v))
    && (forall i, v {:trigger SelectChooses(m, e, i, v)} | v in m.values :: SelectChooses(m, e, i, v))
    && (forall i, b {:trigger EntryLinked(m, u, e, i, b)} :: EntryLinked(m, u, e, i, b))
  }

  /** What each test on a value says of the object it points into. */
  ghost predicate KindTrue(m: Model, origin: Object -> Value, v: Value, o: Object) {
    && (m.isIdentified(v) || m.isFunctionLocal(v) || m.isNonEscaping(v) ==> origin(o) == v)         // the value made the object
    && (m.isConstant(v) ==> m.isConstant(origin(o)))                                                // constants point to what constants made
    && (m.isArgument(v) ==> origin(o) == v || !m.isFunctionLocal(origin(o)))                        // callers know nothing of local objects
    && (m.isNull(v) ==> o == NULL_OBJECT) && (m.isNonNull(v) ==> o != NULL_OBJECT)
    && (m.isEscapeSource(v) ==> origin(o) == v || !m.isNonEscaping(origin(o)))                      // only what escapes comes back
  }

  /** What is taken from outside about one value is true. */
  ghost predicate ValueTrue(m: Model, e: Run, i: Time, v: Value) {
    && (m.isUndef(v) || !m.isPointer(v) || m.isDefaultNull(v) ==> Length(e, i, v) == 0)
    && KindTrue(m, e.memory.origin, v, Home(e, i, v))
    && forall n: nat | m.isSmallerThan(v, n) :: Length(e, i, v) < n
  }

  /** The next analysis of the chain is right about the moments it is asked about. */
  ghost predicate NextTrue(m: Model, e: Run, i: Time, v: Value, s: Size, j: Time, w: Value, t: Size) {
    && (m.next(Loc(v, s), Loc(w, t)) == NoAlias ==> WhollyApart(e, i, v, s, j, w, t))
    && (m.next(Loc(v, s), Loc(w, t)) == MustAlias ==> SamePlace(e, i, v, j, w))
  }

  ghost predicate HelpersTrue(m: Model, u: Turns, e: Run) {
    && (forall i, v {:trigger ValueTrue(m, e, i, v)} | v in m.values :: ValueTrue(m, e, i, v))
    && (forall i, v, s, j, w, t {:trigger NextTrue(m, e, i, v, s, j, w, t)} |
          v in m.values && w in m.values && Linked(m, e, Passed(u, v, w), i, j) :: NextTrue(m, e, i, v, s, j, w, t))
  }

  /**
   A GEP is computed as its inbounds form allows: from a base inside its object, without
   leaving the address space, and without overflow in an index below an extension.
   */
  ghost predicate GepComputed(m: Model, e: Run, i: Time, v: Value) {
    v.Gep? ==>
      && Start(e, i, v) <= At(e, i, Under(v)) <= Start(e, i, v) + Length(e, i, v) && 0 <= At(e, i, v) < TWO64
      && ExactPointer(v, MAX_LOOKUP_SEARCH_DEPTH, 64, m.mask, e.at(i).env)
  }

  /** The executions the answers speak of. */
  ghost predicate Covered(m: Model, u: Turns, e: Run) {
    && Respects(m, u, e) && HelpersTrue(m, u, e)
    && forall i, v {:trigger GepComputed(m, e, i, v)} | v in m.values :: GepComputed(m, e, i, v)
  }

  // ----- Walks keep object and place -----

  lemma {:induction false} StripStays(m: Model, u: Turns, e: Run, i: Time, v: Value)
    requires Respects(m, u, e) && WellFormed(v)
    ensures SamePlace(e, i, v, i, Strip(v))
  {
    if CanStrip(v) {
      assert HomeKept(e, i, v);
      StripStep(v, e.at(i).env);
      StripStays(m, u, e, i, Beneath(v));
    }
  }

  lemma {:induction false} SameHome(m: Model, u: Turns, e: Run, i: Time, v: Value, fuel: nat)
    requires Respects(m, u, e)
    ensures Home(e, i, GetUnderlyingObject(v, fuel)) == Home(e, i, v)
    decreases fuel
  {
    if fuel != 0 && Steps(v) {
      assert HomeKept(e, i, v);
      SameHome(m, u, e, i, Beneath(v), fuel - 1);
    }
  }

  lemma UnderHome(m: Model, u: Turns, e: Run, i: Time, v: Value)
    requires Respects(m, u, e)
    ensures Home(e, i, Under(v)) == Home(e, i, v) == Home(e, i, Anchor(v))
  {
    SameHome(m, u, e, i, v, MAX_LOOKUP_SEARCH_DEPTH);
  }

  // ----- Facts about the meaning -----

  /** Ranges of different objects share no byte, nor do ranges apart as a whole. */
  lemma WhollyIsApart(e: Run, i: Time, v: Value, s: Size, j: Time, w: Value, t: Size)
    requires MemoryGood(e.memory) && WhollyApart(e, i, v, s, j, w, t)
    ensures Apart(e, i, v, s, j, w, t)
  {
    forall n: nat, k: nat | Touches(e, i, v, s, n) && Touches(e, j, w, t, k) ensures Disjoint(Place(e, i, v), n, Place(e, j, w), k) {
      if n > 0 && k > 0 && Home(e, i, v) != Home(e, j, w) {
        assert ApartObjects(e.memory, Home(e, i, v), Home(e, j, w));
        RangesApart(Place(e, i, v), n, Place(e, j, w), k);
      }
    }
  }

  lemma RangesApart(a: int, n: nat, b: int, k: nat)
    requires 0 <= a && a + n <= TWO64 && 0 <= b && b + k <= TWO64 && (a + n <= b || b + k <= a)
    ensures Disjoint(a, n, b, k)
  {
    forall i, j | 0 <= i < n && 0 <= j < k ensures ByteAt(a, i) != ByteAt(b, j) {
      ModSmall(a + i, TWO64);
      ModSmall(b + j, TWO64);
    }
  }

  lemma NoByteSymmetric(e: Run, i: Time, v: Value, s: Size, j: Time, w: Value, t: Size)
    requires Apart(e, i, v, s, j, w, t)
    ensures Apart(e, j, w, t, i, v, s)
  {
    forall n: nat, k: nat | Touches(e, j, w, t, n) && Touches(e, i, v, s, k) ensures Disjoint(Place(e, j, w), n, Place(e, i, v), k) {
      DisjointSymmetric(Place(e, i, v), k, Place(e, j, w), n);
    }
  }

  lemma HoldsSymmetric(m: Model, e: Run, r: AliasResult, i: Time, v: Value, s: Size, j: Time, w: Value, t: Size)
    requires Holds(m, e, r, i, v, s, j, w, t)
    ensures Holds(m, e, r, j, w, t, i, v, s)
  {
    if r == NoAlias {
      NoByteSymmetric(e, i, v, s, j, w, t);
      if s.Known? && t.Known? && Disjoint(Place(e, i, v), s.bytes, Place(e, j, w), t.bytes) {
        DisjointSymmetric(Place(e, i, v), s.bytes, Place(e, j, w), t.bytes);
      }
    }
  }

  /** Values at the same place share their answers; where a claim about whole objects is needed there, it was needed here. */
  lemma HoldsOfSame(m: Model, e: Run, r: AliasResult, i: Time, v: Value, i': Time, v': Value, s: Size,
                    j: Time, w: Value, j': Time, w': Value, t: Size)
    requires Holds(m, e, r, i', v', s, j', w', t) && SamePlace(e, i, v, i', v') && SamePlace(e, j, w, j', w')
    requires NeedsWhole(m, v, s, w, t) ==> NeedsWhole(m, v', s, w', t)
    ensures Holds(m, e, r, i, v, s, j, w, t)
  {
    if r == NoAlias {
      forall n: nat, k: nat | Touches(e, i, v, s, n) && Touches(e, j, w, t, k) ensures Disjoint(Place(e, i, v), n, Place(e, j, w), k) {
        assert Touches(e, i', v', s, n) && Touches(e, j', w', t, k);
      }
    }
  }

  lemma ApartPlaces(a: int, n: nat, b: int, k: nat)
    requires Disjoint(a, n, b, k)
    ensures Disjoint(a % TWO64, n, b % TWO64, k)
  {
    forall i, j | 0 <= i < n && 0 <= j < k ensures ByteAt(a % TWO64, i) != ByteAt(b % TWO64, j) {
      SamePlaceByte(a, i);
      SamePlaceByte(b, j);
      assert ByteAt(a, i) != ByteAt(b, j);
    }
  }

  lemma SamePlaceByte(a: int, i: int)
    ensures ByteAt(a % TWO64, i) == ByteAt(a, i)
  {
    CongMod(a, TWO64);
    CongRefl(i, TWO64);
    CongAdd(a % TWO64, a, i, i, TWO64);
    SameByte(a % TWO64, i, a, i);
  }

  /** An answer about addresses is one about legal accesses. */
  lemma MeaningHolds(e: Run, r: AliasResult, i: Time, v: Value, s: Size, j: Time, w: Value, t: Size)
    requires WellFormed(v) && WellFormed(w) && Home(e, i, v) == Home(e, j, w)
    requires forall o :: e.memory.length(o) <= TWO63
    requires Meaning(r, At(e, i, v), s, At(e, j, w), t)
    ensures r == NoAlias ==> Apart(e, i, v, s, j, w, t)
    ensures r == MustAlias ==> SamePlace(e, i, v, j, w)
  {
    var a, b := At(e, i, v), At(e, j, w);
    CongModEq(a, b, TWO64);
    if r == NoAlias {
      forall n: nat, k: nat | Touches(e, i, v, s, n) && Touches(e, j, w, t, k) ensures Disjoint(Place(e, i, v), n, Place(e, j, w), k) {
        assert Accesses(n, s) && Accesses(k, t);
        ApartPlaces(a, n, b, k);
      }
    }
  }

  /** A merged answer claims no more than either part. */
  lemma MergeClaims(m: Model, e: Run, a: AliasResult, b: AliasResult, i: Time, v: Value, s: Size, j: Time, w: Value, t: Size)
    ensures Holds(m, e, a, i, v, s, j, w, t) ==> Holds(m, e, Merge(a, b), i, v, s, j, w, t)
    ensures Holds(m, e, b, i, v, s, j, w, t) ==> Holds(m, e, Merge(a, b), i, v, s, j, w, t)
  {
  }
}
