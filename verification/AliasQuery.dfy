/**
 The recursive alias query: aliasCheck, aliasGEP, aliasSelect and aliasPHI share a cache of
 location pairs, which ends the recursion and carries the speculation about phis.
 */
module AliasQuery {
  import opened AliasResults
  import opened GepModel
  import opened IndexDifference
  import opened OffsetRules
  import opened AliasGEP
  import opened QueryModel
  import opened QueryRuns
  import opened QueryRules
  import opened QueryAnswers

  /** The cache key of two locations: ordered by the position of their pointers. */
  function KeyOf(m: Model, v: Value, s: Size, w: Value, t: Size): LocPair {
    if m.position(v) > m.position(w) then LocPair(Loc(w, t), Loc(v, s)) else LocPair(Loc(v, s), Loc(w, t))
  }

  lemma KeySymmetric(m: Model, v: Value, s: Size, w: Value, t: Size)
    requires ProgramGood(m) && v in m.values && w in m.values && v != w
    ensures KeyOf(m, v, s, w, t) == KeyOf(m, w, t, v, s)
  {
  }

  ghost predicate EntryTrue(m: Model, u: Turns, k: LocPair, r: AliasResult) {
    Always(m, u, r, k.first.ptr, k.first.size, k.second.ptr, k.second.size)
  }

  lemma EntryMeans(m: Model, u: Turns, v: Value, s: Size, w: Value, t: Size, r: AliasResult)
    requires PairKnown(m, u, v, w)
    ensures EntryTrue(m, u, KeyOf(m, v, s, w, t), r) <==> Always(m, u, r, v, s, w, t)
  {
    KnownGood(m, u, v, w);
    AlwaysSymmetric(m, u, r, v, s, w, t);
    AlwaysSymmetric(m, u, r, w, t, v, s);
  }

  function Weight(rank: Value -> nat, k: LocPair): nat {
    rank(k.first.ptr) + rank(k.second.ptr)
  }

  /** The pairs being asked about weigh more than n. */
  ghost predicate Above(rank: Value -> nat, active: set<LocPair>, n: int) {
    forall k | k in active :: Weight(rank, k) > n
  }

  /** The set has every pair of the values at the sizes: a query leads to no other. */
  ghost predicate HasAllPairs(pairs: set<LocPair>, values: set<Value>, sizes: set<Size>) {
    forall v, s, w, t {:trigger LocPair(Loc(v, s), Loc(w, t))} | v in values && s in sizes && w in values && t in sizes ::
      LocPair(Loc(v, s), Loc(w, t)) in pairs
  }

  type Cache = map<LocPair, AliasResult>

  /** Every entry but those of pairs being asked about is true. */
  ghost predicate CacheTrue(m: Model, u: Turns, cache: Cache, active: set<LocPair>) {
    forall k {:trigger EntryTrue(m, u, k, cache[k])} | k in cache && k !in active :: EntryTrue(m, u, k, cache[k])
  }

  /** Old entries are as they were; some may be left out. */
  ghost predicate KeptBut(c0: Cache, c1: Cache, but: set<LocPair>) {
    forall k | k in c0 :: k in c1 && (k !in but ==> c1[k] == c0[k])
  }

  /** The rules gave the answer, in one order of the pair or the other. */
  ghost predicate Backed(m: Model, log: Log, k: LocPair, r: AliasResult) {
    ByRules(m, log, k.first.ptr, k.first.size, k.second.ptr, k.second.size, r)
  }

  /** Every entry comes from the rules, or from a query on the way. */
  ghost predicate CacheFollows(m: Model, log: Log, cache: Cache) {
    forall k {:trigger Backed(m, log, k, cache[k])} | k in cache ::
      Backed(m, log, k, cache[k]) || OnTheWay(m, k.first.ptr, k.second.ptr, cache[k])
  }

  /** Every entry but those of pairs being asked about comes from the rules. */
  ghost predicate CacheRuled(m: Model, log: Log, cache: Cache, active: set<LocPair>) {
    forall k {:trigger Backed(m, log, k, cache[k])} | k in cache && k !in active :: Backed(m, log, k, cache[k])
  }

  /** More answers do no harm to the cache. */
  lemma CacheMore(m: Model, log: Log, log': Log, cache: Cache, active: set<LocPair>)
    requires log <= log'
    ensures CacheFollows(m, log, cache) ==> CacheFollows(m, log', cache)
    ensures CacheRuled(m, log, cache, active) ==> CacheRuled(m, log', cache, active)
  {
    forall k | k in cache ensures Backed(m, log, k, cache[k]) ==> Backed(m, log', k, cache[k]) {
    }
  }

  /** The cached answer when there was one; otherwise the rules' answer, which is cached now. */
  ghost predicate CheckedAt(m: Model, c0: Cache, c1: Cache, log: Log, v: Value, s: Size, w: Value, t: Size, r: AliasResult) {
    var key := KeyOf(m, v, s, w, t);
    && key in c1 && c1[key] == r
    && if key in c0 then r == c0[key] else FirstWithGep(m, log, v, s, w, t, r)
  }

  /** The underlying objects of two values, in either order. */
  ghost predicate ObjectsOf(v: Value, w: Value, o1: Value, o2: Value) {
    (o1 == Under(v) && o2 == Under(w)) || (o1 == Under(w) && o2 == Under(v))
  }

  /** A true answer of the rules put over the entry of a pair being asked about: the pair is done with. */
  lemma CacheWith(m: Model, u: Turns, log: Log, cache: Cache, active: set<LocPair>, k: LocPair, r: AliasResult)
    requires CacheRuled(m, log, cache, active + {k}) && Backed(m, log, k, r)
    ensures CacheRuled(m, log, cache[k := r], active)
    ensures CacheTrue(m, u, cache, active + {k}) && EntryTrue(m, u, k, r) ==> CacheTrue(m, u, cache[k := r], active)
  {
    var c := cache[k := r];
    forall j | j in c && j !in active ensures Backed(m, log, j, c[j]) {
      assert j != k ==> Backed(m, log, j, cache[j]);
    }
    if CacheTrue(m, u, cache, active + {k}) && EntryTrue(m, u, k, r) {
      forall j | j in c && j !in active ensures EntryTrue(m, u, j, c[j]) {
        assert j != k ==> EntryTrue(m, u, j, cache[j]);
      }
    }
  }

  /** The entry of a pair being asked about may be anything. */
  lemma CacheOnTheWay(m: Model, u: Turns, log: Log, cache: Cache, active: set<LocPair>, k: LocPair, r: AliasResult)
    requires k in active && CacheRuled(m, log, cache, active)
    ensures CacheRuled(m, log, cache[k := r], active)
    ensures CacheTrue(m, u, cache, active) ==> CacheTrue(m, u, cache[k := r], active)
  {
    var c := cache[k := r];
    forall j | j in c && j !in active ensures Backed(m, log, j, c[j]) {
      assert Backed(m, log, j, cache[j]);
    }
    if CacheTrue(m, u, cache, active) {
      forall j | j in c && j !in active ensures EntryTrue(m, u, j, c[j]) {
        assert EntryTrue(m, u, j, cache[j]);
      }
    }
  }

  /** What is asked on the way weighs less than the pair: no nested query reads the entry of a pair being asked about. */
  lemma AskedBelow(m: Model, rank: Value -> nat, active: set<LocPair>, k: LocPair, x: Value, s: Size, y: Value, t: Size)
    requires Acyclic(m, rank) && Above(rank, active, Weight(rank, k) - 1)
    requires x in m.values && y in m.values && rank(x) + rank(y) < Weight(rank, k)
    ensures Above(rank, active, rank(Strip(x)) + rank(Strip(y))) && KeyOf(m, Strip(x), s, Strip(y), t) !in active
  {
    assert RankGood(m, rank, x) && RankGood(m, rank, y);
  }

  // ----- isValueEqualInPotentialCycles -----

  /** One value, which is no instruction or which no visited block leads to; with many visited blocks no instruction passes. */
  predicate EqualValue(m: Model, visited: set<Block>, v: Value, w: Value) {
    v == w && (!m.isInstruction(v) || visited == {} ||
               (|visited| <= MAX_NUM_PHI_BBS && forall b | b in visited :: !m.blockReaches(b, v)))
  }

  /** The same for an index. */
  predicate EqualIndex(m: Model, visited: set<Block>, x: Expr, y: Expr) {
    x == y && (!m.isIndexInstruction(x) || visited == {} ||
               (|visited| <= MAX_NUM_PHI_BBS && forall b | b in visited :: !m.blockReachesIndex(b, x)))
  }

  /** One place, at any two moments between which only the blocks were entered. */
  ghost predicate OnePlace(m: Model, blocks: set<Block>, v: Value, w: Value) {
    forall e: Run, i, j {:trigger Linked(m, e, blocks, i, j)} | Linked(m, e, blocks, i, j) :: SamePlace(e, i, v, j, w)
  }

  /** An execution in which v alone changes: it points into another object at every moment. */
  function Moving(v: Value): Run {
    Run(Memory(o => 0, o => 0, o => v), (i: Time) => Moment(Env(map[], map[]), x => if x == v then i else 0, c => true),
        (i: Time, b: Block) => i, (i: Time, b: Block) => b)
  }

  /**
   Values taken for equal have one place across the turns that the visited blocks belong to. The
   test is exact for a value and itself, up to the number of blocks it looks at.
   */
  lemma EqualExact(m: Model, visited: set<Block>, v: Value, w: Value)
    requires v in m.values
    ensures EqualValue(m, visited, v, w) ==> OnePlace(m, visited, v, w)
    ensures |visited| <= MAX_NUM_PHI_BBS ==> (EqualValue(m, visited, v, w) <==> v == w && OnePlace(m, visited, v, w))
    ensures |visited| > MAX_NUM_PHI_BBS ==> (EqualValue(m, visited, v, w) <==> v == w && !m.isInstruction(v))
  {
    if EqualValue(m, visited, v, w) {
      forall e: Run, i, j | Linked(m, e, visited, i, j) ensures SamePlace(e, i, v, j, w) {
        assert Unchanged(e, i, j, v);
      }
    } else if v == w {
      var e := Moving(v);
      assert visited != {} && !SamePlace(e, 0, v, 1, w);
      if |visited| <= MAX_NUM_PHI_BBS {
        assert Linked(m, e, visited, 0, 1);
      }
    }
  }

  /** Indices taken for equal have one value wherever only visited blocks were entered. */
  lemma EqualIndexHeeds(m: Model, visited: set<Block>)
    ensures Heeds(m, visited, (x: Expr, y: Expr) => EqualIndex(m, visited, x, y))
  {
  }

  /** The pair a query starts with: all it leads to is foreseen, and both values are taken at one moment. */
  ghost predicate AskedFirst(m: Model, u: Turns, v: Value, w: Value) {
    TurnsGood(m, u) && Foreseen(u, v, w) && Passed(u, v, w) == {}
  }

  /** The answer is true at every moment of every execution. */
  ghost predicate AlwaysNow(m: Model, u: Turns, r: AliasResult, v: Value, s: Size, w: Value, t: Size) {
    forall e: Run, i {:trigger Holds(m, e, r, i, v, s, i, w, t)} | Covered(m, u, e) :: Holds(m, e, r, i, v, s, i, w, t)
  }

  lemma TrueNow(m: Model, u: Turns, r: AliasResult, v: Value, s: Size, w: Value, t: Size)
    ensures Passed(u, v, w) == {} && AlwaysTrue(m, u, r, v, s, w, t) ==> AlwaysNow(m, u, r, v, s, w, t)
  {
    forall e: Run, i | Covered(m, u, e) ensures Linked(m, e, {}, i, i) {
      LinkedSame(m, e, i);
    }
  }

  /** What the tests before the cache decide is true. */
  lemma EarlyTrue(m: Model, u: Turns, visited: set<Block>, v: Value, s: Size, w: Value, t: Size, r: AliasResult)
    requires ProgramGood(m) && PairKnown(m, u, v, w) && Passed(u, v, w) <= visited
    requires EarlyAnswer(m, v, s, w, t, EqualValue(m, visited, Strip(v), Strip(w))) == Decided(r)
    ensures Always(m, u, r, v, s, w, t)
  {
    var v1, w1 := Strip(v), Strip(w);
    KnownGood(m, u, v, w);
    assert LeadsInside(m, v) && LeadsInside(m, w);
    AlwaysUnstripped(m, u, r, v, s, w, t);
    if s == Known(0) || t == Known(0) {
      EmptyAccess(m, u, v, s, w, t);
    } else if m.isUndef(v1) || m.isUndef(w1) {
      NoPointer(m, u, v1, s, w1, t);
    } else if EqualValue(m, visited, v1, w1) {
      SameValue(m, u, v1, s, t);
    } else {
      NothingShared(m, u, v1, s, w1, t);
    }
  }

  ghost function PhiBlocks(m: Model): set<Block> {
    set v | v in m.values && m.node(v).Phi? :: m.node(v).block
  }

  /** What a pair leads to weighs less and is asked about between the same moments. */
  ghost predicate Below(m: Model, u: Turns, rank: Value -> nat, v: Value, w: Value, x: Value, y: Value) {
    && x in m.values && y in m.values && (Acyclic(m, rank) ==> rank(x) + rank(y) < rank(v) + rank(w))
    && (TurnsGood(m, u) && Foreseen(u, v, w) ==> LeadsTo(m, u, Passed(u, v, w), x, y))
  }

  lemma ArmsBelow(m: Model, u: Turns, rank: Value -> nat, v: Value, w: Value)
    requires ProgramGood(m) && v in m.values && w in m.values && m.node(v).Select?
    ensures var n, n' := m.node(v), m.node(w);
            if n'.Select? && n'.cond == n.cond then Below(m, u, rank, v, w, n.ifTrue, n'.ifTrue) && Below(m, u, rank, v, w, n.ifFalse, n'.ifFalse)
            else Below(m, u, rank, v, w, w, n.ifTrue) && Below(m, u, rank, v, w, w, n.ifFalse)
  {
    assert LeadsInside(m, v) && LeadsInside(m, w);
    assert Acyclic(m, rank) ==> RankGood(m, rank, v) && RankGood(m, rank, w);
    assert TurnsGood(m, u) && Foreseen(u, v, w) ==> PairGood(m, u, v, w);
  }

  class BasicAliasAnalysis {
    const M: Model
    ghost const Rank: Value -> nat
    ghost const Turns: Turns
    var AliasCache: Cache
    var VisitedPhiBBs: set<Block>
    ghost var Sizes: set<Size>           // the access sizes of one query
    ghost var Pairs: set<LocPair>        // all pairs it may ask about
    ghost var Answers: Log               // the answers given while it runs

    constructor (m: Model, ghost rank: Value -> nat, ghost turns: Turns)
      ensures M == m && Rank == rank && Turns == turns && AliasCache == map[] && VisitedPhiBBs == {}
    {
      M, Rank, Turns, AliasCache, VisitedPhiBBs, Sizes, Pairs, Answers := m, rank, turns, map[], {}, {}, {}, {};
    }

    /** The pairs without a cache entry: what ends the recursion. */
    ghost function Unseen(): set<LocPair>
      reads this`Pairs, this`AliasCache
    {
      Pairs - AliasCache.Keys
    }

    ghost predicate Ready()
      reads this`Sizes, this`Pairs, this`Answers, this`AliasCache
    {
      && ProgramGood(M) && UNKNOWN_SIZE in Sizes && HasAllPairs(Pairs, M.values, Sizes)
      && AllFollow(M, Answers) && CacheFollows(M, Answers, AliasCache)
    }

    /** What a query leaves: old cache entries, one perhaps excepted, old answers and visited blocks stay, and only blocks of phis join. */
    twostate predicate Grows(but: set<LocPair>)
      reads this`AliasCache, this`Answers, this`VisitedPhiBBs
    {
      && KeptBut(old(AliasCache), AliasCache, but) && old(Answers) <= Answers
      && old(VisitedPhiBBs) <= VisitedPhiBBs <= old(VisitedPhiBBs) + PhiBlocks(M)
    }

    ghost predicate InQuery(v: Value, s: Size, w: Value, t: Size)
      reads this`Sizes
    {
      v in M.values && s in Sizes && w in M.values && t in Sizes
    }

    /**
     On a value graph without cycles: but for the pairs being asked about, which weigh more
     than n, the cache is true and comes from the rules, like every answer so far.
     */
    ghost predicate Trusting(active: set<LocPair>, n: int)
      reads this`AliasCache, this`Answers
    {
      && Acyclic(M, Rank) && TurnsGood(M, Turns) && Above(Rank, active, n)
      && CacheTrue(M, Turns, AliasCache, active) && CacheRuled(M, Answers, AliasCache, active) && AllRuled(M, Answers)
    }

    /** The blocks of the phis that were looked through on the way to the pair have been visited. */
    ghost predicate InTime(v: Value, w: Value)
      reads this`VisitedPhiBBs
    {
      Foreseen(Turns, v, w) && Passed(Turns, v, w) <= VisitedPhiBBs
    }

    /** A pair being asked about, and all that it asks weighs less. */
    ghost predicate Asking(v: Value, s: Size, w: Value, t: Size, active: set<LocPair>)
      reads this`AliasCache, this`Answers, this`VisitedPhiBBs
    {
      KeyOf(M, v, s, w, t) in active && Trusting(active, Rank(v) + Rank(w) - 1) && InTime(v, w)
    }

    /** isValueEqualInPotentialCycles. */
    predicate IsValueEqualInPotentialCycles(v: Value, w: Value)
      reads this`VisitedPhiBBs
    {
      EqualValue(M, VisitedPhiBBs, v, w)
    }

    /** An answer joins the others; it must follow from them. */
    ghost method Note(from: Source, v: Value, s: Size, w: Value, t: Size, r: AliasResult, active: set<LocPair>)
      requires Ready() && Follows(M, Answers, Answer(from, v, s, w, t, r))
      modifies this`Answers
      ensures Ready() && old(Answers) <= Answers && Told(Answers, from, v, s, w, t, r)
      ensures forall n | old(Trusting(active, n)) && old(Ruled(M, Answers, Answer(from, v, s, w, t, r))) :: Trusting(active, n)
    {
      AnswerAdded(M, Answers, Answer(from, v, s, w, t, r));
      CacheMore(M, Answers, Answers + {Answer(from, v, s, w, t, r)}, AliasCache, active);
      Answers := Answers + {Answer(from, v, s, w, t, r)};
    }

    /**
     alias: a query from an empty cache, which is cleared again. The recursion ends, and every
     answer on the way follows from others. On a value graph without cycles, all of whose pairs
     are foreseen, no query is answered by an entry on the way; and if GEPs off phis, selects and
     GEPs only step up, the answer is true at every moment of every execution.
     */
    method Alias(a: Loc, b: Loc) returns (r: AliasResult)
      requires ProgramGood(M) && a.ptr in M.values && b.ptr in M.values && AliasCache == map[] && VisitedPhiBBs == {}
      modifies this
      ensures AliasCache == map[] && VisitedPhiBBs == {}
      ensures AllFollow(M, Answers) && Told(Answers, Query, a.ptr, a.size, b.ptr, b.size, r)
      ensures var v, w := Strip(a.ptr), Strip(b.ptr);
              match EarlyAnswer(M, a.ptr, a.size, b.ptr, b.size, v == w)
              case Decided(x) => r == x
              case Undecided => FirstWithGep(M, Answers, v, a.size, w, b.size, r)
      ensures Acyclic(M, Rank) && AskedFirst(M, Turns, a.ptr, b.ptr) ==> AllRuled(M, Answers)
      ensures Acyclic(M, Rank) && AskedFirst(M, Turns, a.ptr, b.ptr) && NoDescent(M) ==>
                AlwaysNow(M, Turns, r, a.ptr, a.size, b.ptr, b.size)
    {
      Sizes, Answers := {a.size, b.size, UNKNOWN_SIZE}, {};
      Pairs := set v, s, w, t | v in M.values && s in Sizes && w in M.values && t in Sizes :: LocPair(Loc(v, s), Loc(w, t));
      r := AliasCheck(a.ptr, a.size, b.ptr, b.size, {});
      AliasCache, VisitedPhiBBs := map[], {};
      TrueNow(M, Turns, r, a.ptr, a.size, b.ptr, b.size);
    }

    /** aliasCheck. The answer is an early one, or the cache has it afterwards. */
    method AliasCheck(v: Value, s: Size, w: Value, t: Size, ghost active: set<LocPair>) returns (r: AliasResult)
      requires Ready() && InQuery(v, s, w, t)
      modifies this`AliasCache, this`VisitedPhiBBs, this`Answers
      ensures Ready() && Grows({}) && Told(Answers, Query, v, s, w, t, r)
      ensures match EarlyAnswer(M, v, s, w, t, old(IsValueEqualInPotentialCycles(Strip(v), Strip(w))))
              case Decided(a) => r == a
              case Undecided => CheckedAt(M, old(AliasCache), AliasCache, Answers, Strip(v), s, Strip(w), t, r)
      ensures old(Trusting(active, Rank(Strip(v)) + Rank(Strip(w))) && InTime(v, w)) ==>
                Trusting(active, Rank(Strip(v)) + Rank(Strip(w))) && Always(M, Turns, r, v, s, w, t)
      decreases Unseen(), 2
    {
      r := CheckPair(v, s, w, t, active);
      Note(Query, v, s, w, t, r, active);
    }

    /** The tests before the cache, then the cache. */
    method CheckPair(v: Value, s: Size, w: Value, t: Size, ghost active: set<LocPair>) returns (r: AliasResult)
      requires Ready() && InQuery(v, s, w, t)
      modifies this`AliasCache, this`VisitedPhiBBs, this`Answers
      ensures Ready() && Grows({}) && QueryDecides(M, Answers, v, s, w, t, r, true)
      ensures match EarlyAnswer(M, v, s, w, t, old(IsValueEqualInPotentialCycles(Strip(v), Strip(w))))
              case Decided(a) => r == a
              case Undecided => CheckedAt(M, old(AliasCache), AliasCache, Answers, Strip(v), s, Strip(w), t, r)
      ensures old(Trusting(active, Rank(Strip(v)) + Rank(Strip(w))) && InTime(v, w)) ==>
                Trusting(active, Rank(Strip(v)) + Rank(Strip(w))) && Always(M, Turns, r, v, s, w, t)
                && QueryDecides(M, Answers, v, s, w, t, r, false)
      decreases Unseen(), 1
    {
      var early := EarlyTests(v, s, w, t);
      if early.Decided? {
        return early.result;
      }
      assert LeadsInside(M, v) && LeadsInside(M, w);
      ghost var trusted := Trusting(active, Rank(Strip(v)) + Rank(Strip(w))) && InTime(v, w);
      if trusted {
        KnownGood(M, Turns, v, w);
      }
      r := CheckCache(Strip(v), s, Strip(w), t, active);
      if trusted {
        AlwaysUnstripped(M, Turns, r, v, s, w, t);
      }
    }

    /** The tests before the cache. What they decide is true, of the moments the pair is asked about. */
    method EarlyTests(v: Value, s: Size, w: Value, t: Size) returns (early: Early)
      requires ProgramGood(M) && v in M.values && w in M.values
      ensures early == EarlyAnswer(M, v, s, w, t, IsValueEqualInPotentialCycles(Strip(v), Strip(w)))
      ensures early.Decided? && TurnsGood(M, Turns) && InTime(v, w) ==> Always(M, Turns, early.result, v, s, w, t)
    {
      early := Undecided;
      if s == Known(0) || t == Known(0) {
        early := Decided(NoAlias);
      } else {
        var v1, w1 := Strip(v), Strip(w);
        if M.isUndef(v1) || M.isUndef(w1) {
          early := Decided(NoAlias);
        } else if IsValueEqualInPotentialCycles(v1, w1) {
          early := Decided(MustAlias);
        } else if !M.isPointer(v1) || !M.isPointer(w1) || ObjectsApart(M, v1, s, w1, t) {
          early := Decided(NoAlias);
        }
      }
      if early.Decided? && TurnsGood(M, Turns) && InTime(v, w) {
        EarlyTrue(M, Turns, VisitedPhiBBs, v, s, w, t, early.result);
      }
    }

    /** The part of aliasCheck at the cache. A hit changes nothing. */
    method CheckCache(v: Value, s: Size, w: Value, t: Size, ghost active: set<LocPair>) returns (r: AliasResult)
      requires Ready() && InQuery(v, s, w, t)
      modifies this`AliasCache, this`VisitedPhiBBs, this`Answers
      ensures Ready() && Grows({}) && CheckedAt(M, old(AliasCache), AliasCache, Answers, v, s, w, t, r)
      ensures old(KeyOf(M, v, s, w, t) in AliasCache) ==>
                AliasCache == old(AliasCache) && VisitedPhiBBs == old(VisitedPhiBBs) && Answers == old(Answers)
      ensures ByRules(M, Answers, v, s, w, t, r) || OnTheWay(M, v, w, r)
      ensures old(Trusting(active, Rank(v) + Rank(w)) && InTime(v, w)) ==>
                Trusting(active, Rank(v) + Rank(w)) && Always(M, Turns, r, v, s, w, t) && ByRules(M, Answers, v, s, w, t, r)
      decreases Unseen(), 0
    {
      var key := KeyOf(M, v, s, w, t);
      if key in AliasCache {
        r := AliasCache[key];
        assert Backed(M, Answers, key, r) || OnTheWay(M, key.first.ptr, key.second.ptr, r);
        if Trusting(active, Rank(v) + Rank(w)) && InTime(v, w) {
          EntryMeans(M, Turns, v, s, w, t, r);
        }
        return;
      }
      Begin(v, s, w, t, active);
      r := ClimbUses(v, s, w, t, active + {key});
      if old(Trusting(active, Rank(v) + Rank(w)) && InTime(v, w)) {
        Done(v, s, w, t, r, active);
      }
    }

    /** The entry made before the uses are climbed: MayAlias, for whoever asks again on the way. */
    method Begin(v: Value, s: Size, w: Value, t: Size, ghost active: set<LocPair>)
      requires Ready() && InQuery(v, s, w, t) && KeyOf(M, v, s, w, t) !in AliasCache
      modifies this`AliasCache
      ensures Ready() && AliasCache == old(AliasCache)[KeyOf(M, v, s, w, t) := MayAlias] && Unseen() < old(Unseen())
      ensures old(Trusting(active, Rank(v) + Rank(w)) && InTime(v, w)) ==> Asking(v, s, w, t, active + {KeyOf(M, v, s, w, t)})
    {
      var key := KeyOf(M, v, s, w, t);
      if Trusting(active, Rank(v) + Rank(w)) {
        CacheOnTheWay(M, Turns, Answers, AliasCache, active + {key}, key, MayAlias);
      }
      assert forall k | k in AliasCache :: Backed(M, Answers, k, AliasCache[k]) || OnTheWay(M, k.first.ptr, k.second.ptr, AliasCache[k]);
      assert key in Unseen();
      AliasCache := AliasCache[key := MayAlias];
      assert key !in Unseen();
    }

    /** The pair has its answer, which is true and comes from the rules. */
    lemma Done(v: Value, s: Size, w: Value, t: Size, r: AliasResult, active: set<LocPair>)
      requires v in M.values && w in M.values
      requires Above(Rank, active, Rank(v) + Rank(w)) && Asking(v, s, w, t, active + {KeyOf(M, v, s, w, t)})
      requires KeyOf(M, v, s, w, t) in AliasCache && AliasCache[KeyOf(M, v, s, w, t)] == r
      requires Always(M, Turns, r, v, s, w, t) && FirstWithGep(M, Answers, v, s, w, t, r)
      ensures Trusting(active, Rank(v) + Rank(w))
    {
      var key := KeyOf(M, v, s, w, t);
      EntryMeans(M, Turns, v, s, w, t, r);
      CacheWith(M, Turns, Answers, AliasCache, active, key, r);
      assert AliasCache[key := r] == AliasCache;
    }

    /** A pair being asked about, the other way round. */
    lemma Turned(v: Value, s: Size, w: Value, t: Size, active: set<LocPair>)
      requires ProgramGood(M) && v in M.values && w in M.values && v != w
      ensures Asking(v, s, w, t, active) <==> Asking(w, t, v, s, active)
    {
      KeySymmetric(M, v, s, w, t);
      if Asking(v, s, w, t, active) {
        KnownGood(M, Turns, v, w);
      } else if Asking(w, t, v, s, active) {
        KnownGood(M, Turns, w, v);
      }
    }

    lemma TurnedBack(asking: bool, r: AliasResult, v: Value, s: Size, w: Value, t: Size)
      requires v in M.values && w in M.values && (asking ==> TurnsGood(M, Turns) && InTime(v, w) && Always(M, Turns, r, w, t, v, s))
      ensures asking ==> Always(M, Turns, r, v, s, w, t)
    {
      if asking {
        KnownGood(M, Turns, v, w);
        AlwaysSymmetric(M, Turns, r, w, t, v, s);
      }
    }

    /** The part of aliasCheck behind the cache: GEPs, then phis, then selects, then the rest. The answer goes into the cache. */
    method ClimbUses(v: Value, s: Size, w: Value, t: Size, ghost active: set<LocPair>) returns (r: AliasResult)
      requires Ready() && InQuery(v, s, w, t)
      requires KeyOf(M, v, s, w, t) in AliasCache && AliasCache[KeyOf(M, v, s, w, t)] == MayAlias
      modifies this`AliasCache, this`VisitedPhiBBs, this`Answers
      ensures Ready() && Grows({KeyOf(M, v, s, w, t)}) && AliasCache[KeyOf(M, v, s, w, t)] == r
      ensures FirstWithGep(M, Answers, v, s, w, t, r)
      ensures old(Asking(v, s, w, t, active)) ==> Asking(v, s, w, t, active) && Always(M, Turns, r, v, s, w, t)
      decreases Unseen(), 13
    {
      if !v.Gep? && w.Gep? {
        KeySymmetric(M, v, s, w, t);
        Turned(v, s, w, t, active);
        r := ClimbGep(w, t, v, s, Under(w), Under(v), active);
        TurnedBack(old(Asking(v, s, w, t, active)), r, v, s, w, t);
      } else {
        r := ClimbGep(v, s, w, t, Under(v), Under(w), active);
      }
      Store(v, s, w, t, r, active);
    }

    /** AliasCache[Locs] = Result. */
    method Store(v: Value, s: Size, w: Value, t: Size, r: AliasResult, ghost active: set<LocPair>)
      requires Ready() && KeyOf(M, v, s, w, t) in AliasCache && FirstWithGep(M, Answers, v, s, w, t, r)
      modifies this`AliasCache
      ensures Ready() && AliasCache == old(AliasCache)[KeyOf(M, v, s, w, t) := r] && AliasCache.Keys == old(AliasCache).Keys
      ensures old(Asking(v, s, w, t, active)) ==> Asking(v, s, w, t, active)
    {
      var key := KeyOf(M, v, s, w, t);
      assert Backed(M, Answers, key, r);
      if Asking(v, s, w, t, active) {
        CacheOnTheWay(M, Turns, Answers, AliasCache, active, key, r);
      }
      assert forall k | k in AliasCache :: Backed(M, Answers, k, AliasCache[k]) || OnTheWay(M, k.first.ptr, k.second.ptr, AliasCache[k]);
      AliasCache := AliasCache[key := r];
    }

    method ClimbGep(v: Value, s: Size, w: Value, t: Size, o1: Value, o2: Value, ghost active: set<LocPair>) returns (r: AliasResult)
      requires Ready() && InQuery(v, s, w, t) && KeyOf(M, v, s, w, t) in AliasCache && o1 == Under(v) && o2 == Under(w)
      modifies this`AliasCache, this`VisitedPhiBBs, this`Answers
      ensures Ready() && Grows({KeyOf(M, v, s, w, t)}) && Told(Answers, FromGeps, v, s, w, t, r)
      ensures old(Asking(v, s, w, t, active)) ==> Asking(v, s, w, t, active) && Always(M, Turns, r, v, s, w, t)
      decreases Unseen(), 12
    {
      r := MayAlias;
      if v.Gep? {
        r := AliasGEP(v, s, w, t, o1, o2, active);
      }
      ghost var a := r;
      if r == MayAlias {
        r := NextPhi(v, s, w, t, o1, o2, active);
      }
      GepsFollow(M, Answers, v, s, w, t, a, r);
      Note(FromGeps, v, s, w, t, r, active);
    }

    /** A phi goes in front. */
    method NextPhi(v: Value, s: Size, w: Value, t: Size, o1: Value, o2: Value, ghost active: set<LocPair>) returns (r: AliasResult)
      requires Ready() && InQuery(v, s, w, t) && KeyOf(M, v, s, w, t) in AliasCache && ObjectsOf(v, w, o1, o2)
      modifies this`AliasCache, this`VisitedPhiBBs, this`Answers
      ensures Ready() && Grows({KeyOf(M, v, s, w, t)})
      ensures GoesOn(Answers, FromPhis, M.node(w).Phi? && !M.node(v).Phi?, v, s, w, t, r)
      ensures old(Asking(v, s, w, t, active)) ==> Asking(v, s, w, t, active) && Always(M, Turns, r, v, s, w, t)
      decreases Unseen(), 11
    {
      if M.node(w).Phi? && !M.node(v).Phi? {
        KeySymmetric(M, v, s, w, t);
        Turned(v, s, w, t, active);
        r := ClimbPhi(w, t, v, s, o1, o2, active);
        TurnedBack(old(Asking(v, s, w, t, active)), r, v, s, w, t);
      } else {
        r := ClimbPhi(v, s, w, t, o1, o2, active);
      }
    }

    /** The underlying objects are not swapped with the values any more. */
    method ClimbPhi(v: Value, s: Size, w: Value, t: Size, o1: Value, o2: Value, ghost active: set<LocPair>) returns (r: AliasResult)
      requires Ready() && InQuery(v, s, w, t) && KeyOf(M, v, s, w, t) in AliasCache && ObjectsOf(v, w, o1, o2)
      modifies this`AliasCache, this`VisitedPhiBBs, this`Answers
      ensures Ready() && Grows({KeyOf(M, v, s, w, t)}) && Told(Answers, FromPhis, v, s, w, t, r)
      ensures old(Asking(v, s, w, t, active)) ==> Asking(v, s, w, t, active) && Always(M, Turns, r, v, s, w, t)
      decreases Unseen(), 10
    {
      r := MayAlias;
      if M.node(v).Phi? {
        r := AliasPHI(v, s, w, t, active);
      }
      ghost var a := r;
      if r == MayAlias {
        r := NextSelect(v, s, w, t, o1, o2, active);
      }
      PhisFollow(M, Answers, v, s, w, t, a, r);
      Note(FromPhis, v, s, w, t, r, active);
    }

    /** A select goes in front. */
    method NextSelect(v: Value, s: Size, w: Value, t: Size, o1: Value, o2: Value, ghost active: set<LocPair>) returns (r: AliasResult)
      requires Ready() && InQuery(v, s, w, t) && ObjectsOf(v, w, o1, o2)
      modifies this`AliasCache, this`VisitedPhiBBs, this`Answers
      ensures Ready() && Grows({})
      ensures GoesOn(Answers, FromSelects, M.node(w).Select? && !M.node(v).Select?, v, s, w, t, r)
      ensures old(Asking(v, s, w, t, active)) ==> Asking(v, s, w, t, active) && Always(M, Turns, r, v, s, w, t)
      decreases Unseen(), 9
    {
      if M.node(w).Select? && !M.node(v).Select? {
        KeySymmetric(M, v, s, w, t);
        Turned(v, s, w, t, active);
        r := ClimbSelect(w, t, v, s, o1, o2, active);
        TurnedBack(old(Asking(v, s, w, t, active)), r, v, s, w, t);
      } else {
        r := ClimbSelect(v, s, w, t, o1, o2, active);
      }
    }

    method ClimbSelect(v: Value, s: Size, w: Value, t: Size, o1: Value, o2: Value, ghost active: set<LocPair>) returns (r: AliasResult)
      requires Ready() && InQuery(v, s, w, t) && ObjectsOf(v, w, o1, o2)
      modifies this`AliasCache, this`VisitedPhiBBs, this`Answers
      ensures Ready() && Grows({}) && Told(Answers, FromSelects, v, s, w, t, r)
      ensures old(Asking(v, s, w, t, active)) ==> Asking(v, s, w, t, active) && Always(M, Turns, r, v, s, w, t)
      decreases Unseen(), 8
    {
      if M.node(v).Select? {
        r := AliasSelect(v, s, w, t, active);
        if r == MayAlias {
          r := TheRest(v, s, w, t, o1, o2);
        }
      } else {
        r := TheRest(v, s, w, t, o1, o2);
      }
      Note(FromSelects, v, s, w, t, r, active);
    }

    /** An access to the whole object of both pointers, or the rest of the chain. */
    method TheRest(v: Value, s: Size, w: Value, t: Size, o1: Value, o2: Value) returns (r: AliasResult)
      requires v in M.values && w in M.values && ObjectsOf(v, w, o1, o2)
      ensures r == RestOf(M, v, s, w, t) && Always(M, Turns, r, v, s, w, t)
    {
      if o1 == o2 && ((s.Known? && M.isWholeObject(o1, s.bytes)) || (t.Known? && M.isWholeObject(o2, t.bytes))) {
        NoClaim(M, Turns, PartialAlias, v, s, w, t);
        return PartialAlias;
      }
      FromNext(M, Turns, v, s, w, t);
      r := M.next(Loc(v, s), Loc(w, t));
    }

    /** aliasGEP: the bases first, then the rules for fields and offsets. */
    method AliasGEP(v: Value, s: Size, w: Value, t: Size, u1: Value, u2: Value, ghost active: set<LocPair>) returns (r: AliasResult)
      requires Ready() && InQuery(v, s, w, t) && v.Gep? && u1 == Under(v) && u2 == Under(w)
      modifies this`AliasCache, this`VisitedPhiBBs, this`Answers
      ensures Ready() && Grows({}) && Told(Answers, GepRule, v, s, w, t, r)
      ensures old(Asking(v, s, w, t, active)) ==> Asking(v, s, w, t, active) && Always(M, Turns, r, v, s, w, t)
      decreases Unseen(), 7
    {
      if w.Gep? {
        r := TwoGeps(v, s, w, t, u1, u2, active);
      } else {
        r := GepAndOther(v, s, w, t, u1, active);
      }
      Note(GepRule, v, s, w, t, r, active);
    }

    /** The rules for fields and offsets, with what is known of the bases. Indices are equal only where no visited block leads to them. */
    method AskGepRules(v: Value, s: Size, w: Value, t: Size, base: AliasResult, precise: AliasResult) returns (r: AliasResult)
      requires ProgramGood(M) && v in M.values && w in M.values && v.Gep?
      ensures Settles(M, v, s, w, t, base, precise, r) && GepOutcome(M, VisitedPhiBBs, QuestionOf(v, s, w, t, base, precise), r)
    {
      QuestionGood(M, v, s, w, t, base, precise);
      var visited := VisitedPhiBBs;
      var eqv := (x: Expr, y: Expr) => EqualIndex(M, visited, x, y);
      EqualIndexHeeds(M, visited);
      ghost var why;
      r, why := Decide(QuestionOf(v, s, w, t, base, precise), M.mask, eqv);
      assert Heeds(M, visited, eqv) && Outcome(QuestionOf(v, s, w, t, base, precise), r, why, M.mask, eqv);
      assert GepOutcome(M, visited, QuestionOf(v, s, w, t, base, precise), r);
    }

    /** A query on the way to the answer for a pair. */
    method Ask(x: Value, s': Size, y: Value, t': Size, ghost v: Value, ghost s: Size, ghost w: Value, ghost t: Size, ghost active: set<LocPair>)
      returns (r: AliasResult)
      requires Ready() && InQuery(x, s', y, t') && (Acyclic(M, Rank) ==> Rank(x) + Rank(y) < Rank(v) + Rank(w))
      requires TurnsGood(M, Turns) && InTime(v, w) ==> InTime(x, y)
      modifies this`AliasCache, this`VisitedPhiBBs, this`Answers
      ensures Ready() && Grows({}) && Told(Answers, Query, x, s', y, t', r)
      ensures old(Asking(v, s, w, t, active)) ==> Asking(v, s, w, t, active) && Always(M, Turns, r, x, s', y, t')
      decreases Unseen(), 3, 0
    {
      if Asking(v, s, w, t, active) {
        AskedBelow(M, Rank, active, KeyOf(M, v, s, w, t), x, s', y, t');
      }
      r := AliasCheck(x, s', y, t', active);
    }

    method TwoGeps(v: Value, s: Size, w: Value, t: Size, u1: Value, u2: Value, ghost active: set<LocPair>) returns (r: AliasResult)
      requires Ready() && InQuery(v, s, w, t) && v.Gep? && w.Gep? && u1 == Under(v) && u2 == Under(w)
      modifies this`AliasCache, this`VisitedPhiBBs, this`Answers
      ensures Ready() && Grows({}) && GepDecides(M, Answers, v, s, w, t, r)
      ensures old(Asking(v, s, w, t, active)) ==> Asking(v, s, w, t, active) && Always(M, Turns, r, v, s, w, t)
      decreases Unseen(), 5
    {
      assert LeadsInside(M, v) && LeadsInside(M, w);
      assert Acyclic(M, Rank) ==> RankGood(M, Rank, v) && RankGood(M, Rank, w);
      assert TurnsGood(M, Turns) && Foreseen(Turns, v, w) ==> PairGood(M, Turns, v, w);
      var baseAlias := Ask(u1, UNKNOWN_SIZE, u2, UNKNOWN_SIZE, v, s, w, t, active);
      var preciseBaseAlias := MayAlias;
      if baseAlias == MayAlias && s == t {
        preciseBaseAlias := Ask(u1, s, u2, t, v, s, w, t, active);
        assert Told(Answers, Query, u1, UNKNOWN_SIZE, u2, UNKNOWN_SIZE, baseAlias);
      }
      r := AskGepRules(v, s, w, t, baseAlias, preciseBaseAlias);
      if old(Asking(v, s, w, t, active)) {
        GepAnswerTrue(M, Turns, v, s, w, t, baseAlias, preciseBaseAlias, VisitedPhiBBs, r);
      }
    }

    method GepAndOther(v: Value, s: Size, w: Value, t: Size, u1: Value, ghost active: set<LocPair>) returns (r: AliasResult)
      requires Ready() && InQuery(v, s, w, t) && v.Gep? && !w.Gep? && u1 == Under(v)
      modifies this`AliasCache, this`VisitedPhiBBs, this`Answers
      ensures Ready() && Grows({}) && GepDecides(M, Answers, v, s, w, t, r)
      ensures old(Asking(v, s, w, t, active)) ==> Asking(v, s, w, t, active) && Always(M, Turns, r, v, s, w, t)
      decreases Unseen(), 5
    {
      if s == UNKNOWN_SIZE && t == UNKNOWN_SIZE {
        NoClaim(M, Turns, MayAlias, v, s, w, t);
        return MayAlias;
      }
      assert LeadsInside(M, v);
      assert Acyclic(M, Rank) ==> RankGood(M, Rank, v);
      assert TurnsGood(M, Turns) && Foreseen(Turns, v, w) ==> PairGood(M, Turns, v, w);
      var baseAlias := Ask(u1, UNKNOWN_SIZE, w, t, v, s, w, t, active);
      r := AskGepRules(v, s, w, t, baseAlias, MayAlias);
      if old(Asking(v, s, w, t, active)) {
        GepAnswerTrue(M, Turns, v, s, w, t, baseAlias, MayAlias, VisitedPhiBBs, r);
      }
    }

    /** aliasSelect. */
    method AliasSelect(v: Value, s: Size, w: Value, t: Size, ghost active: set<LocPair>) returns (r: AliasResult)
      requires Ready() && InQuery(v, s, w, t) && M.node(v).Select?
      modifies this`AliasCache, this`VisitedPhiBBs, this`Answers
      ensures Ready() && Grows({}) && Told(Answers, SelectRule, v, s, w, t, r)
      ensures old(Asking(v, s, w, t, active)) ==> Asking(v, s, w, t, active) && Always(M, Turns, r, v, s, w, t)
      decreases Unseen(), 7
    {
      if M.node(w).Select? && M.node(v).cond == M.node(w).cond {
        r := SelectsArmByArm(v, s, w, t, active);
      } else {
        r := SelectBothArms(v, s, w, t, active);
      }
      Note(SelectRule, v, s, w, t, r, active);
    }

    method SelectsArmByArm(v: Value, s: Size, w: Value, t: Size, ghost active: set<LocPair>) returns (r: AliasResult)
      requires Ready() && InQuery(v, s, w, t) && M.node(v).Select? && M.node(w).Select? && M.node(v).cond == M.node(w).cond
      modifies this`AliasCache, this`VisitedPhiBBs, this`Answers
      ensures Ready() && Grows({}) && SelectDecides(M, Answers, v, s, w, t, r)
      ensures old(Asking(v, s, w, t, active)) ==> Asking(v, s, w, t, active) && Always(M, Turns, r, v, s, w, t)
      decreases Unseen(), 5
    {
      var node, other := M.node(v), M.node(w);
      ArmsBelow(M, Turns, Rank, v, w);
      var alias := Ask(node.ifTrue, s, other.ifTrue, t, v, s, w, t, active);
      if alias == MayAlias {
        NoClaim(M, Turns, MayAlias, v, s, w, t);
        return MayAlias;
      }
      var thisAlias := Ask(node.ifFalse, s, other.ifFalse, t, v, s, w, t, active);
      if old(Asking(v, s, w, t, active)) {
        SelectsTogether(M, Turns, v, s, w, t, alias, thisAlias);
      }
      ArmsTold(Answers, node.ifTrue, s, other.ifTrue, t, node.ifFalse, s, other.ifFalse, t, alias, thisAlias);
      r := Merge(thisAlias, alias);
    }

    method SelectBothArms(v: Value, s: Size, w: Value, t: Size, ghost active: set<LocPair>) returns (r: AliasResult)
      requires Ready() && InQuery(v, s, w, t) && M.node(v).Select? && !(M.node(w).Select? && M.node(v).cond == M.node(w).cond)
      modifies this`AliasCache, this`VisitedPhiBBs, this`Answers
      ensures Ready() && Grows({}) && SelectDecides(M, Answers, v, s, w, t, r)
      ensures old(Asking(v, s, w, t, active)) ==> Asking(v, s, w, t, active) && Always(M, Turns, r, v, s, w, t)
      decreases Unseen(), 5
    {
      var node := M.node(v);
      ArmsBelow(M, Turns, Rank, v, w);
      var alias := Ask(w, t, node.ifTrue, s, v, s, w, t, active);
      if alias == MayAlias {
        NoClaim(M, Turns, MayAlias, v, s, w, t);
        return MayAlias;
      }
      var thisAlias := Ask(w, t, node.ifFalse, s, v, s, w, t, active);
      if old(Asking(v, s, w, t, active)) {
        SelectAgainst(M, Turns, v, s, w, t, alias, thisAlias);
      }
      ArmsTold(Answers, w, t, node.ifTrue, s, w, t, node.ifFalse, s, alias, thisAlias);
      r := Merge(thisAlias, alias);
    }

    /** aliasPHI; the entry of the pair of phis is in the cache under its ordered key. */
    method AliasPHI(v: Value, s: Size, w: Value, t: Size, ghost active: set<LocPair>) returns (r: AliasResult)
      requires Ready() && InQuery(v, s, w, t) && M.node(v).Phi? && KeyOf(M, v, s, w, t) in AliasCache
      modifies this`AliasCache, this`VisitedPhiBBs, this`Answers
      ensures Ready() && Grows({KeyOf(M, v, s, w, t)}) && Told(Answers, PhiRule, v, s, w, t, r) && M.node(v).block in VisitedPhiBBs
      ensures old(Asking(v, s, w, t, active)) ==> Asking(v, s, w, t, active) && Always(M, Turns, r, v, s, w, t)
      decreases Unseen(), 7
    {
      VisitedPhiBBs := VisitedPhiBBs + {M.node(v).block};
      assert ValueGood(M, v) && ValueGood(M, w);
      if M.node(w).Phi? && M.node(w).block == M.node(v).block {
        r := PhiAgainstPhi(v, s, w, t, active);
      } else {
        r := PhiAgainstValue(v, s, w, t, active);
      }
      Note(PhiRule, v, s, w, t, r, active);
    }

    /** Two phis of one block: their values edge by edge, while the cache pretends that the phis do not alias. */
    method PhiAgainstPhi(v: Value, s: Size, w: Value, t: Size, ghost active: set<LocPair>) returns (r: AliasResult)
      requires Ready() && InQuery(v, s, w, t) && PhisTogether(M, v, w) && KeyOf(M, v, s, w, t) in AliasCache
      modifies this`AliasCache, this`VisitedPhiBBs, this`Answers
      ensures Ready() && Grows({KeyOf(M, v, s, w, t)}) && EdgesDecide(M, Answers, v, s, w, t, r)
      ensures AliasCache[KeyOf(M, v, s, w, t)] == if r == NoAlias then NoAlias else old(AliasCache)[KeyOf(M, v, s, w, t)]
      ensures old(Asking(v, s, w, t, active)) ==> Asking(v, s, w, t, active) && Always(M, Turns, r, v, s, w, t)
      decreases Unseen(), 5
    {
      var locs := KeyOf(M, v, s, w, t);
      ghost var log := Answers;
      var origAliasResult := AliasCache[locs];
      assert Backed(M, log, locs, origAliasResult) || OnTheWay(M, locs.first.ptr, locs.second.ptr, origAliasResult);
      SetEntry(v, s, w, t, NoAlias, active);
      r := PhiEdges(v, s, w, t, active);
      NoClaim(M, Turns, MayAlias, v, s, w, t);
      if r != NoAlias {
        CacheMore(M, log, Answers, map[locs := origAliasResult], {});
        assert Backed(M, log, locs, map[locs := origAliasResult][locs]) || OnTheWay(M, locs.first.ptr, locs.second.ptr, origAliasResult);
        SetEntry(v, s, w, t, origAliasResult, active);
      }
      if r == NoAlias && old(Asking(v, s, w, t, active)) {
        PhiPairs(M, Turns, NoAlias, v, s, w, t);
      }
    }

    /** AliasCache[Locs] = r, for a pair being asked about. */
    method SetEntry(v: Value, s: Size, w: Value, t: Size, r: AliasResult, ghost active: set<LocPair>)
      requires Ready() && KeyOf(M, v, s, w, t) in AliasCache
      requires Backed(M, Answers, KeyOf(M, v, s, w, t), r) || OnTheWay(M, v, w, r)
      modifies this`AliasCache
      ensures Ready() && AliasCache == old(AliasCache)[KeyOf(M, v, s, w, t) := r] && AliasCache.Keys == old(AliasCache).Keys
      ensures old(Asking(v, s, w, t, active)) ==> Asking(v, s, w, t, active)
    {
      var key := KeyOf(M, v, s, w, t);
      if Asking(v, s, w, t, active) {
        CacheOnTheWay(M, Turns, Answers, AliasCache, active, key, r);
      }
      assert forall k | k in AliasCache :: Backed(M, Answers, k, AliasCache[k]) || OnTheWay(M, k.first.ptr, k.second.ptr, AliasCache[k]);
      AliasCache := AliasCache[key := r];
    }

    /** The loop over the edges; it stops at the first pair of values that may alias. */
    method PhiEdges(v: Value, s: Size, w: Value, t: Size, ghost active: set<LocPair>) returns (r: AliasResult)
      requires Ready() && InQuery(v, s, w, t) && PhisTogether(M, v, w)
      modifies this`AliasCache, this`VisitedPhiBBs, this`Answers
      ensures Ready() && Grows({}) && EdgesDecide(M, Answers, v, s, w, t, r)
      ensures old(Asking(v, s, w, t, active)) ==>
                Asking(v, s, w, t, active) && (r == NoAlias ==> EdgesHold(M, Turns, NoAlias, v, s, w, t, |M.node(v).values|))
      decreases Unseen(), 4
    {
      ghost var asking := Asking(v, s, w, t, active);
      r := NoAlias;
      for i := 0 to |M.node(v).values|
        invariant Ready() && Grows({}) && r == NoAlias && EdgesTold(M, Answers, v, s, w, t, i)
        invariant asking ==> Asking(v, s, w, t, active) && EdgesHold(M, Turns, NoAlias, v, s, w, t, i)
      {
        ghost var before := Answers;
        var thisAlias := PhiEdge(v, s, w, t, i, active);
        r := Merge(thisAlias, r);
        if r == MayAlias {
          return;
        }
        EdgesMore(M, before, Answers, v, s, w, t, i);
        OneMoreEdgeTold(M, Answers, v, s, w, t, i);
        if asking {
          OneMoreEdge(M, Turns, NoAlias, v, s, w, t, i);
        }
      }
    }

    /** The query for one edge of two phis. */
    method PhiEdge(v: Value, s: Size, w: Value, t: Size, i: nat, ghost active: set<LocPair>) returns (r: AliasResult)
      requires Ready() && InQuery(v, s, w, t) && PhisTogether(M, v, w) && i < |M.node(v).values|
      modifies this`AliasCache, this`VisitedPhiBBs, this`Answers
      ensures Ready() && Grows({}) && EdgeTold(M, Answers, v, s, w, t, i, r)
      ensures old(Asking(v, s, w, t, active)) ==> Asking(v, s, w, t, active) && EdgeHolds(M, Turns, r, v, s, w, t, i)
      decreases Unseen(), 3, 1
    {
      var x, y := M.node(v).values[i], IncomingFor(M.node(w).values, M.node(w).blocks, M.node(v).blocks[i]);
      assert x in M.node(v).values;
      assert LeadsInside(M, v) && LeadsInside(M, w);
      assert TurnsGood(M, Turns) && Foreseen(Turns, v, w) ==> PairGood(M, Turns, v, w) && PhiPairGood(M, Turns, v, w);
      assert Acyclic(M, Rank) ==> RankGood(M, Rank, v) && RankGood(M, Rank, w);
      r := Ask(x, s, y, t, v, s, w, t, active);
    }

    /** A phi and a value that is no phi of its block; the block is among the visited ones. */
    ghost predicate Looked(v: Value, w: Value)
      reads this`VisitedPhiBBs
    {
      M.node(v).Phi? && !PhisTogether(M, v, w) && M.node(v).block in VisitedPhiBBs
    }

    /** A phi against anything else: all its different sources must agree. */
    method PhiAgainstValue(v: Value, s: Size, w: Value, t: Size, ghost active: set<LocPair>) returns (r: AliasResult)
      requires Ready() && InQuery(v, s, w, t) && M.node(v).Phi? && PhiGood(M, v) && Looked(v, w)
      modifies this`AliasCache, this`VisitedPhiBBs, this`Answers
      ensures Ready() && Grows({}) && SourcesDecide(M, Answers, v, s, w, t, r)
      ensures old(Asking(v, s, w, t, active)) ==> Asking(v, s, w, t, active) && Always(M, Turns, r, v, s, w, t)
      decreases Unseen(), 6
    {
      var srcs, hasPhi := UniqueSources(v);
      if hasPhi {
        NoClaim(M, Turns, MayAlias, v, s, w, t);
        return MayAlias;
      }
      r := MergeSources(v, s, w, t, srcs, active);
      if old(Asking(v, s, w, t, active)) {
        if r == MayAlias {
          NoClaim(M, Turns, MayAlias, v, s, w, t);
        } else {
          PhiSources(M, Turns, r, v, srcs, s, w, t);
        }
      }
      SameSources(Answers, srcs, M.node(v).values, s, w, t, r);
    }

    /** The first source, then the others until the answer is MayAlias. */
    method MergeSources(v: Value, s: Size, w: Value, t: Size, srcs: seq<Value>, ghost active: set<LocPair>) returns (r: AliasResult)
      requires Ready() && InQuery(v, s, w, t) && Looked(v, w) && srcs != [] && forall x | x in srcs :: x in M.node(v).values
      modifies this`AliasCache, this`VisitedPhiBBs, this`Answers
      ensures Ready() && Grows({}) && SourcesAgree(Answers, srcs, s, w, t, r)
      ensures old(Asking(v, s, w, t, active)) ==>
                Asking(v, s, w, t, active) && (r != MayAlias ==> SourcesHold(M, Turns, r, srcs, s, w, t))
      decreases Unseen(), 5
    {
      ghost var asking := Asking(v, s, w, t, active);
      r := Source(v, s, w, t, srcs[0], active);
      FirstSource(Answers, srcs[0], s, w, t, r);
      assert srcs[..1] == [srcs[0]];
      if r == MayAlias {
        SourcesMore(Answers, Answers, srcs[..1], srcs, s, w, t, r);
        return;
      }
      for i := 1 to |srcs|
        invariant Ready() && Grows({}) && SourcesAgree(Answers, srcs[..i], s, w, t, r)
        invariant asking ==> Asking(v, s, w, t, active) && SourcesHold(M, Turns, r, srcs[..i], s, w, t)
      {
        r := MergeSource(v, s, w, t, srcs, i, r, active);
        if r == MayAlias {
          SourcesMore(Answers, Answers, srcs[..i + 1], srcs, s, w, t, r);
          return;
        }
      }
      assert srcs[..|srcs|] == srcs;
    }

    /** One more source. */
    method MergeSource(v: Value, s: Size, w: Value, t: Size, srcs: seq<Value>, i: nat, before: AliasResult, ghost active: set<LocPair>)
      returns (r: AliasResult)
      requires Ready() && InQuery(v, s, w, t) && Looked(v, w) && 0 < i < |srcs| && srcs[i] in M.node(v).values
      requires SourcesAgree(Answers, srcs[..i], s, w, t, before)
      modifies this`AliasCache, this`VisitedPhiBBs, this`Answers
      ensures Ready() && Grows({}) && SourcesAgree(Answers, srcs[..i + 1], s, w, t, r)
      ensures old(Asking(v, s, w, t, active)) && SourcesHold(M, Turns, before, srcs[..i], s, w, t) ==>
                Asking(v, s, w, t, active) && SourcesHold(M, Turns, r, srcs[..i + 1], s, w, t)
      decreases Unseen(), 4
    {
      ghost var answers, asking := Answers, Asking(v, s, w, t, active) && SourcesHold(M, Turns, before, srcs[..i], s, w, t);
      var thisAlias := Source(v, s, w, t, srcs[i], active);
      r := Merge(thisAlias, before);
      if asking {
        SourcesMerged(M, Turns, thisAlias, before, srcs, i, s, w, t);
      }
      NextSource(answers, Answers, srcs[..i], srcs[i], s, w, t, before, thisAlias);
      assert srcs[..i] + [srcs[i]] == srcs[..i + 1];
    }

    /** The different incoming values, unless one of them is a phi. */
    method UniqueSources(v: Value) returns (srcs: seq<Value>, hasPhi: bool)
      requires M.node(v).Phi? && PhiGood(M, v)
      ensures hasPhi <==> exists x :: x in M.node(v).values && M.node(x).Phi?
      ensures !hasPhi ==> srcs != [] && forall x :: x in srcs <==> x in M.node(v).values
      ensures forall i, j | 0 <= i < j < |srcs| :: srcs[i] != srcs[j]
    {
      var values := M.node(v).values;
      srcs := [];
      for i := 0 to |values|
        invariant forall x :: x in srcs <==> x in values[..i]
        invariant forall j | 0 <= j < i :: !M.node(values[j]).Phi?
        invariant forall j, k | 0 <= j < k < |srcs| :: srcs[j] != srcs[k]
      {
        assert values[..i + 1] == values[..i] + [values[i]];
        if M.node(values[i]).Phi? {
          return srcs, true;
        }
        if values[i] !in srcs {
          srcs := srcs + [values[i]];
        }
      }
      assert values[..|values|] == values && values[0] in srcs;
      hasPhi := false;
    }

    /** The query for one source of a phi. */
    method Source(v: Value, s: Size, w: Value, t: Size, src: Value, ghost active: set<LocPair>) returns (r: AliasResult)
      requires Ready() && InQuery(v, s, w, t) && Looked(v, w) && src in M.node(v).values
      modifies this`AliasCache, this`VisitedPhiBBs, this`Answers
      ensures Ready() && Grows({}) && SourceTold(Answers, src, s, w, t, r)
      ensures old(Asking(v, s, w, t, active)) ==> Asking(v, s, w, t, active) && Always(M, Turns, r, w, t, src, s)
      decreases Unseen(), 3, 1
    {
      assert LeadsInside(M, v);
      assert Acyclic(M, Rank) ==> RankGood(M, Rank, v);
      assert TurnsGood(M, Turns) && Foreseen(Turns, v, w) ==> PairGood(M, Turns, v, w) && PhiPairGood(M, Turns, v, w);
      r := Ask(w, t, src, s, v, s, w, t, active);
    }
  }

  lemma SourcesMerged(m: Model, u: Turns, a: AliasResult, b: AliasResult, srcs: seq<Value>, i: nat, s: Size, w: Value, t: Size)
    requires i < |srcs| && SourcesHold(m, u, b, srcs[..i], s, w, t) && Always(m, u, a, w, t, srcs[i], s)
    ensures SourcesHold(m, u, Merge(a, b), srcs[..i + 1], s, w, t)
  {
    assert srcs[..i + 1] == srcs[..i] + [srcs[i]];
    forall v | v in srcs[..i + 1] ensures Always(m, u, Merge(a, b), w, t, v, s) {
      if v in srcs[..i] {
        MergeKeeps(m, u, b, a, w, t, v, s);
      } else {
        MergeKeeps(m, u, a, b, w, t, v, s);
      }
    }
  }
}
