/**
 The answers given while a query runs, and the rules by which each follows from answers that
 other queries gave: what every step of the recursion must do with what it is told.
 */
module QueryAnswers {
  import opened AliasResults
  import opened GepModel
  import opened OffsetRules
  import opened AliasGEP
  import opened QueryModel
  import opened QueryRules

  /** Who answered: a whole query, one of the rules, or the part of a query from a rule on. */
  datatype Source = Query | GepRule | PhiRule | SelectRule | FromGeps | FromPhis | FromSelects

  datatype Answer = Answer(from: Source, v: Value, s: Size, w: Value, t: Size, result: AliasResult)

  type Log = set<Answer>

  ghost predicate Told(log: Log, from: Source, v: Value, s: Size, w: Value, t: Size, r: AliasResult) {
    Answer(from, v, s, w, t, r) in log
  }

  // ----- aliasSelect -----

  ghost predicate BothArms(log: Log, v: Value, s: Size, w: Value, t: Size, v': Value, s': Size, w': Value, t': Size, r: AliasResult) {
    exists a {:trigger Told(log, Query, v, s, w, t, a)} ::
      && Told(log, Query, v, s, w, t, a)
      && if a == MayAlias then r == MayAlias
         else exists b {:trigger Told(log, Query, v', s', w', t', b)} :: Told(log, Query, v', s', w', t', b) && r == Merge(b, a)
  }

  /** Selects on one condition are compared arm by arm, any other value with both arms. */
  ghost predicate SelectDecides(m: Model, log: Log, v: Value, s: Size, w: Value, t: Size, r: AliasResult) {
    && m.node(v).Select?
    && var n := m.node(v);
       if m.node(w).Select? && n.cond == m.node(w).cond
       then BothArms(log, n.ifTrue, s, m.node(w).ifTrue, t, n.ifFalse, s, m.node(w).ifFalse, t, r)
       else BothArms(log, w, t, n.ifTrue, s, w, t, n.ifFalse, s, r)
  }

  lemma ArmsTold(log: Log, v: Value, s: Size, w: Value, t: Size, v': Value, s': Size, w': Value, t': Size, a: AliasResult, b: AliasResult)
    requires Told(log, Query, v, s, w, t, a) && (a != MayAlias ==> Told(log, Query, v', s', w', t', b))
    ensures BothArms(log, v, s, w, t, v', s', w', t', if a == MayAlias then MayAlias else Merge(b, a))
  {
  }

  // ----- aliasPHI -----

  ghost predicate EdgeTold(m: Model, log: Log, v: Value, s: Size, w: Value, t: Size, i: nat, r: AliasResult)
    requires PhisTogether(m, v, w) && i < |m.node(v).values|
  {
    Told(log, Query, m.node(v).values[i], s, IncomingFor(m.node(w).values, m.node(w).blocks, m.node(v).blocks[i]), t, r)
  }

  ghost predicate EdgesTold(m: Model, log: Log, v: Value, s: Size, w: Value, t: Size, n: nat)
    requires PhisTogether(m, v, w) && n <= |m.node(v).values|
  {
    forall i {:trigger EdgeTold(m, log, v, s, w, t, i, NoAlias)} | 0 <= i < n :: EdgeTold(m, log, v, s, w, t, i, NoAlias)
  }

  ghost predicate SomeEdgeTold(m: Model, log: Log, v: Value, s: Size, w: Value, t: Size)
    requires PhisTogether(m, v, w)
  {
    exists i, a {:trigger EdgeTold(m, log, v, s, w, t, i, a)} :: 0 <= i < |m.node(v).values| && a != NoAlias && EdgeTold(m, log, v, s, w, t, i, a)
  }

  /** Phis of one block do not alias exactly when no edge brings values that may; otherwise they may. */
  ghost predicate EdgesDecide(m: Model, log: Log, v: Value, s: Size, w: Value, t: Size, r: AliasResult)
    requires PhisTogether(m, v, w)
  {
    if r == NoAlias then EdgesTold(m, log, v, s, w, t, |m.node(v).values|) else r == MayAlias && SomeEdgeTold(m, log, v, s, w, t)
  }

  lemma EdgesMore(m: Model, log: Log, log': Log, v: Value, s: Size, w: Value, t: Size, n: nat)
    requires PhisTogether(m, v, w) && n <= |m.node(v).values| && log <= log' && EdgesTold(m, log, v, s, w, t, n)
    ensures EdgesTold(m, log', v, s, w, t, n)
  {
    forall i | 0 <= i < n ensures EdgeTold(m, log', v, s, w, t, i, NoAlias) {
      assert EdgeTold(m, log, v, s, w, t, i, NoAlias);
    }
  }

  lemma OneMoreEdgeTold(m: Model, log: Log, v: Value, s: Size, w: Value, t: Size, n: nat)
    requires PhisTogether(m, v, w) && n < |m.node(v).values| && EdgesTold(m, log, v, s, w, t, n) && EdgeTold(m, log, v, s, w, t, n, NoAlias)
    ensures EdgesTold(m, log, v, s, w, t, n + 1)
  {
  }

  ghost predicate SourceTold(log: Log, src: Value, s: Size, w: Value, t: Size, r: AliasResult) {
    Told(log, Query, w, t, src, s, r)
  }

  ghost predicate AllSourcesTold(log: Log, srcs: seq<Value>, s: Size, w: Value, t: Size, r: AliasResult) {
    forall x {:trigger SourceTold(log, x, s, w, t, r)} | x in srcs :: SourceTold(log, x, s, w, t, r)
  }

  ghost predicate SomeToldNot(log: Log, srcs: seq<Value>, s: Size, w: Value, t: Size, not: AliasResult) {
    exists x, a {:trigger SourceTold(log, x, s, w, t, a)} :: x in srcs && a != not && SourceTold(log, x, s, w, t, a)
  }

  /** NoAlias or MustAlias when all sources say so, anything weaker only when not all say NoAlias and not all say MustAlias. */
  ghost predicate SourcesAgree(log: Log, srcs: seq<Value>, s: Size, w: Value, t: Size, r: AliasResult) {
    if r == NoAlias || r == MustAlias then AllSourcesTold(log, srcs, s, w, t, r)
    else SomeToldNot(log, srcs, s, w, t, NoAlias) && SomeToldNot(log, srcs, s, w, t, MustAlias)
  }

  /** A phi against another value: what all its sources agree on; a phi of phis gives up. */
  ghost predicate SourcesDecide(m: Model, log: Log, v: Value, s: Size, w: Value, t: Size, r: AliasResult)
    requires m.node(v).Phi?
  {
    if exists x :: x in m.node(v).values && m.node(x).Phi? then r == MayAlias else SourcesAgree(log, m.node(v).values, s, w, t, r)
  }

  ghost predicate PhiDecides(m: Model, log: Log, v: Value, s: Size, w: Value, t: Size, r: AliasResult) {
    && m.node(v).Phi?
    && if PhisTogether(m, v, w) then EdgesDecide(m, log, v, s, w, t, r) else SourcesDecide(m, log, v, s, w, t, r)
  }

  lemma FirstSource(log: Log, src: Value, s: Size, w: Value, t: Size, r: AliasResult)
    requires SourceTold(log, src, s, w, t, r)
    ensures SourcesAgree(log, [src], s, w, t, r)
  {
  }

  lemma NextSource(log: Log, log': Log, srcs: seq<Value>, x: Value, s: Size, w: Value, t: Size, r: AliasResult, a: AliasResult)
    requires log <= log' && srcs != [] && SourcesAgree(log, srcs, s, w, t, r) && SourceTold(log', x, s, w, t, a)
    ensures SourcesAgree(log', srcs + [x], s, w, t, Merge(a, r))
  {
    SourcesMore(log, log', srcs, srcs + [x], s, w, t, r);
    assert srcs[0] in srcs && x in srcs + [x];
    if r == NoAlias || r == MustAlias {
      assert SourceTold(log, srcs[0], s, w, t, r);
      assert SourceTold(log', srcs[0], s, w, t, r) && srcs[0] in srcs + [x];
      forall y | y in srcs + [x] && a == r ensures SourceTold(log', y, s, w, t, r) {
        assert y in srcs ==> SourceTold(log, y, s, w, t, r);
      }
    }
  }

  lemma SourcesMore(log: Log, log': Log, srcs: seq<Value>, more: seq<Value>, s: Size, w: Value, t: Size, r: AliasResult)
    requires log <= log' && SourcesAgree(log, srcs, s, w, t, r) && forall x | x in srcs :: x in more
    ensures r == NoAlias || r == MustAlias ==> AllSourcesTold(log', srcs, s, w, t, r)
    ensures r != NoAlias && r != MustAlias ==> SomeToldNot(log', more, s, w, t, NoAlias) && SomeToldNot(log', more, s, w, t, MustAlias)
  {
    if r == NoAlias || r == MustAlias {
      forall x | x in srcs ensures SourceTold(log', x, s, w, t, r) {
        assert SourceTold(log, x, s, w, t, r);
      }
    } else {
      var x, a :| x in srcs && a != NoAlias && SourceTold(log, x, s, w, t, a);
      assert SourceTold(log', x, s, w, t, a) && x in more;
      var y, b :| y in srcs && b != MustAlias && SourceTold(log, y, s, w, t, b);
      assert SourceTold(log', y, s, w, t, b) && y in more;
    }
  }

  lemma SameSources(log: Log, srcs: seq<Value>, values: seq<Value>, s: Size, w: Value, t: Size, r: AliasResult)
    requires SourcesAgree(log, srcs, s, w, t, r) && forall x :: x in srcs <==> x in values
    ensures SourcesAgree(log, values, s, w, t, r)
  {
    SourcesMore(log, log, srcs, values, s, w, t, r);
  }

  // ----- aliasGEP -----

  /** The rules for GEPs, asked with what is known of the bases. */
  ghost predicate Settles(m: Model, v: Value, s: Size, w: Value, t: Size, base: AliasResult, precise: AliasResult, r: AliasResult) {
    var q := QuestionOf(v, s, w, t, base, precise);
    q.Valid() && exists visited {:trigger GepOutcome(m, visited, q, r)} :: GepOutcome(m, visited, q, r)
  }

  ghost predicate BaseDecides(m: Model, log: Log, v: Value, s: Size, w: Value, t: Size, base: AliasResult, r: AliasResult) {
    if base == MayAlias && s == t then
      exists precise {:trigger Told(log, Query, Under(v), s, Under(w), t, precise)} ::
        Told(log, Query, Under(v), s, Under(w), t, precise) && Settles(m, v, s, w, t, base, precise, r)
    else Settles(m, v, s, w, t, base, MayAlias, r)
  }

  /** GEPs: the bases, at their sizes too where that may help, and then the rules. */
  ghost predicate GepDecides(m: Model, log: Log, v: Value, s: Size, w: Value, t: Size, r: AliasResult) {
    && v.Gep?
    && if w.Gep? then
         exists base {:trigger Told(log, Query, Under(v), UNKNOWN_SIZE, Under(w), UNKNOWN_SIZE, base)} ::
           Told(log, Query, Under(v), UNKNOWN_SIZE, Under(w), UNKNOWN_SIZE, base) && BaseDecides(m, log, v, s, w, t, base, r)
       else if s == UNKNOWN_SIZE && t == UNKNOWN_SIZE then r == MayAlias
       else
         exists base {:trigger Told(log, Query, Under(v), UNKNOWN_SIZE, w, t, base)} ::
           Told(log, Query, Under(v), UNKNOWN_SIZE, w, t, base) && Settles(m, v, s, w, t, base, MayAlias, r)
  }

  // ----- Behind the cache -----

  /** The tests of aliasCheck before the cache. equal says that the stripped values are one value at one time. */
  function EarlyAnswer(m: Model, v: Value, s: Size, w: Value, t: Size, equal: bool): Early {
    var v1, w1 := Strip(v), Strip(w);
    if s == Known(0) || t == Known(0) || m.isUndef(v1) || m.isUndef(w1) then Decided(NoAlias)
    else if equal then Decided(MustAlias)
    else if !m.isPointer(v1) || !m.isPointer(w1) || ObjectsApart(m, v1, s, w1, t) then Decided(NoAlias)
    else Undecided
  }

  /** One access covers the whole object of both pointers, or the rest of the chain decides. */
  function RestOf(m: Model, v: Value, s: Size, w: Value, t: Size): AliasResult {
    if Under(v) == Under(w) && ((s.Known? && m.isWholeObject(Under(v), s.bytes)) || (t.Known? && m.isWholeObject(Under(w), t.bytes)))
    then PartialAlias
    else m.next(Loc(v, s), Loc(w, t))
  }

  /** What the early tests must decide, of two pointers that are not one value. */
  lemma EarlyDecides(m: Model, v: Value, s: Size, w: Value, t: Size)
    ensures var v1, w1 := Strip(v), Strip(w);
            var o, p := Under(v1), Under(w1);
            && (s == Known(0) || t == Known(0) || m.isUndef(v1) || m.isUndef(w1) || !m.isPointer(v1) || !m.isPointer(w1)
                || m.isDefaultNull(o) || m.isDefaultNull(p) || (o != p && KindsApart(m, o, p))
                || (s.Known? && m.isSmallerThan(p, s.bytes)) || (t.Known? && m.isSmallerThan(o, t.bytes)) ==>
                  EarlyAnswer(m, v, s, w, t, false) == Decided(NoAlias))
  {
  }

  /** An access to the whole of a common object makes the rest answer PartialAlias. */
  lemma CoveringIsPartial(m: Model, v: Value, s: Size, w: Value, t: Size)
    requires CoversObject(m, v, s, w, t)
    ensures RestOf(m, v, s, w, t) == PartialAlias
  {
  }

  ghost predicate SelectsDecide(m: Model, log: Log, v: Value, s: Size, w: Value, t: Size, r: AliasResult) {
    if m.node(v).Select? then
      exists a {:trigger Told(log, SelectRule, v, s, w, t, a)} ::
        Told(log, SelectRule, v, s, w, t, a) && r == if a != MayAlias then a else RestOf(m, v, s, w, t)
    else r == RestOf(m, v, s, w, t)
  }

  /** The part that goes on, with a value of the kind it looks at in front. */
  ghost predicate GoesOn(log: Log, from: Source, swap: bool, v: Value, s: Size, w: Value, t: Size, r: AliasResult) {
    if swap then Told(log, from, w, t, v, s, r) else Told(log, from, v, s, w, t, r)
  }

  ghost predicate PhisDecide(m: Model, log: Log, v: Value, s: Size, w: Value, t: Size, r: AliasResult) {
    var swap := m.node(w).Select? && !m.node(v).Select?;
    if m.node(v).Phi? then
      exists a {:trigger Told(log, PhiRule, v, s, w, t, a)} ::
        Told(log, PhiRule, v, s, w, t, a) && if a != MayAlias then r == a else GoesOn(log, FromSelects, swap, v, s, w, t, r)
    else GoesOn(log, FromSelects, swap, v, s, w, t, r)
  }

  ghost predicate GepsDecide(m: Model, log: Log, v: Value, s: Size, w: Value, t: Size, r: AliasResult) {
    var swap := m.node(w).Phi? && !m.node(v).Phi?;
    if v.Gep? then
      exists a {:trigger Told(log, GepRule, v, s, w, t, a)} ::
        Told(log, GepRule, v, s, w, t, a) && if a != MayAlias then r == a else GoesOn(log, FromPhis, swap, v, s, w, t, r)
    else GoesOn(log, FromPhis, swap, v, s, w, t, r)
  }

  /** The answer behind the cache, for the pair with a GEP in front when there is one. */
  ghost predicate FirstWithGep(m: Model, log: Log, v: Value, s: Size, w: Value, t: Size, r: AliasResult) {
    GoesOn(log, FromGeps, !v.Gep? && w.Gep?, v, s, w, t, r)
  }

  // ----- Whole queries -----

  /** The rules gave the answer, now or when the cache was filled, in one order of the pair or the other. */
  ghost predicate ByRules(m: Model, log: Log, v: Value, s: Size, w: Value, t: Size, r: AliasResult) {
    FirstWithGep(m, log, v, s, w, t, r) || FirstWithGep(m, log, w, t, v, s, r)
  }

  /** What the cache says of a pair while it is being asked about: MayAlias, or NoAlias of two phis under speculation. */
  ghost predicate OnTheWay(m: Model, v: Value, w: Value, r: AliasResult) {
    r == MayAlias || (r == NoAlias && m.node(v).Phi? && m.node(w).Phi? && m.node(v).block == m.node(w).block)
  }

  /** A query is answered by an early test, or by the rules, or, if that is possible, by an entry on the way. */
  ghost predicate QueryDecides(m: Model, log: Log, v: Value, s: Size, w: Value, t: Size, r: AliasResult, onTheWay: bool) {
    var v1, w1 := Strip(v), Strip(w);
    || (v1 == w1 && EarlyAnswer(m, v, s, w, t, true) == Decided(r))
    || ((v1 != w1 || m.isInstruction(v1))
        && match EarlyAnswer(m, v, s, w, t, false)
           case Decided(a) => r == a
           case Undecided => ByRules(m, log, v1, s, w1, t, r) || (onTheWay && OnTheWay(m, v1, w1, r)))
  }

  /** No query was answered by an entry on the way. */
  ghost predicate Ruled(m: Model, log: Log, x: Answer) {
    x.from == Query ==> QueryDecides(m, log, x.v, x.s, x.w, x.t, x.result, false)
  }

  ghost predicate AllRuled(m: Model, log: Log) {
    forall x {:trigger Ruled(m, log, x)} | x in log :: Ruled(m, log, x)
  }

  // ----- Every answer follows from others -----

  ghost predicate Follows(m: Model, log: Log, x: Answer) {
    match x.from
    case Query => QueryDecides(m, log, x.v, x.s, x.w, x.t, x.result, true)
    case GepRule => GepDecides(m, log, x.v, x.s, x.w, x.t, x.result)
    case PhiRule => PhiDecides(m, log, x.v, x.s, x.w, x.t, x.result)
    case SelectRule => SelectDecides(m, log, x.v, x.s, x.w, x.t, x.result)
    case FromGeps => GepsDecide(m, log, x.v, x.s, x.w, x.t, x.result)
    case FromPhis => PhisDecide(m, log, x.v, x.s, x.w, x.t, x.result)
    case FromSelects => SelectsDecide(m, log, x.v, x.s, x.w, x.t, x.result)
  }

  /** The rule's answer stands unless it is MayAlias; then, or without the rule, the next part answers. */
  lemma GepsFollow(m: Model, log: Log, v: Value, s: Size, w: Value, t: Size, a: AliasResult, r: AliasResult)
    requires v.Gep? ==> Told(log, GepRule, v, s, w, t, a)
    requires if v.Gep? && a != MayAlias then r == a
             else GoesOn(log, FromPhis, m.node(w).Phi? && !m.node(v).Phi?, v, s, w, t, r)
    ensures Follows(m, log, Answer(FromGeps, v, s, w, t, r))
  {
  }

  lemma PhisFollow(m: Model, log: Log, v: Value, s: Size, w: Value, t: Size, a: AliasResult, r: AliasResult)
    requires m.node(v).Phi? ==> Told(log, PhiRule, v, s, w, t, a)
    requires if m.node(v).Phi? && a != MayAlias then r == a
             else GoesOn(log, FromSelects, m.node(w).Select? && !m.node(v).Select?, v, s, w, t, r)
    ensures Follows(m, log, Answer(FromPhis, v, s, w, t, r))
  {
  }

  /** All answers follow from answers that were given. */
  ghost predicate AllFollow(m: Model, log: Log) {
    forall x {:trigger Follows(m, log, x)} | x in log :: Follows(m, log, x)
  }

  lemma AnswerAdded(m: Model, log: Log, x: Answer)
    requires AllFollow(m, log) && Follows(m, log, x)
    ensures AllFollow(m, log + {x})
    ensures AllRuled(m, log) && Ruled(m, log, x) ==> AllRuled(m, log + {x})
  {
    if AllRuled(m, log) && Ruled(m, log, x) {
      forall y | y in log + {x} ensures Ruled(m, log + {x}, y) {
        assert Ruled(m, log, y);
      }
    }
    forall y | y in log + {x} ensures Follows(m, log + {x}, y) {
      assert Follows(m, log, y);
      FollowsMore(m, log, log + {x}, y);
    }
  }

  /** More answers do not undo what others decided. */
  lemma FollowsMore(m: Model, log: Log, log': Log, x: Answer)
    requires log <= log' && Follows(m, log, x)
    ensures Follows(m, log', x)
  {
    match x.from
    case Query =>
    case GepRule => GepMore(m, log, log', x.v, x.s, x.w, x.t, x.result);
    case PhiRule => PhiMore(m, log, log', x.v, x.s, x.w, x.t, x.result);
    case SelectRule => SelectMore(m, log, log', x.v, x.s, x.w, x.t, x.result);
    case FromGeps =>
      if x.v.Gep? {
        var a :| Told(log, GepRule, x.v, x.s, x.w, x.t, a) &&
          if a != MayAlias then x.result == a
          else GoesOn(log, FromPhis, m.node(x.w).Phi? && !m.node(x.v).Phi?, x.v, x.s, x.w, x.t, x.result);
        assert Told(log', GepRule, x.v, x.s, x.w, x.t, a);
      }
    case FromPhis =>
      if m.node(x.v).Phi? {
        var a :| Told(log, PhiRule, x.v, x.s, x.w, x.t, a) &&
          if a != MayAlias then x.result == a
          else GoesOn(log, FromSelects, m.node(x.w).Select? && !m.node(x.v).Select?, x.v, x.s, x.w, x.t, x.result);
        assert Told(log', PhiRule, x.v, x.s, x.w, x.t, a);
      }
    case FromSelects =>
      if m.node(x.v).Select? {
        var a :| Told(log, SelectRule, x.v, x.s, x.w, x.t, a) && x.result == if a != MayAlias then a else RestOf(m, x.v, x.s, x.w, x.t);
        assert Told(log', SelectRule, x.v, x.s, x.w, x.t, a);
      }
  }

  lemma SelectMore(m: Model, log: Log, log': Log, v: Value, s: Size, w: Value, t: Size, r: AliasResult)
    requires log <= log' && SelectDecides(m, log, v, s, w, t, r)
    ensures SelectDecides(m, log', v, s, w, t, r)
  {
    var n := m.node(v);
    if m.node(w).Select? && n.cond == m.node(w).cond {
      ArmsMore(log, log', n.ifTrue, s, m.node(w).ifTrue, t, n.ifFalse, s, m.node(w).ifFalse, t, r);
    } else {
      ArmsMore(log, log', w, t, n.ifTrue, s, w, t, n.ifFalse, s, r);
    }
  }

  lemma ArmsMore(log: Log, log': Log, v: Value, s: Size, w: Value, t: Size, v': Value, s': Size, w': Value, t': Size, r: AliasResult)
    requires log <= log' && BothArms(log, v, s, w, t, v', s', w', t', r)
    ensures BothArms(log', v, s, w, t, v', s', w', t', r)
  {
    var a :| Told(log, Query, v, s, w, t, a) &&
      if a == MayAlias then r == MayAlias else exists b :: Told(log, Query, v', s', w', t', b) && r == Merge(b, a);
    if a == MayAlias {
      ArmsTold(log', v, s, w, t, v', s', w', t', a, a);
    } else {
      var b :| Told(log, Query, v', s', w', t', b) && r == Merge(b, a);
      ArmsTold(log', v, s, w, t, v', s', w', t', a, b);
    }
  }

  lemma GepMore(m: Model, log: Log, log': Log, v: Value, s: Size, w: Value, t: Size, r: AliasResult)
    requires log <= log' && GepDecides(m, log, v, s, w, t, r)
    ensures GepDecides(m, log', v, s, w, t, r)
  {
    var u1, u2 := Under(v), Under(w);
    if w.Gep? {
      var base :| Told(log, Query, u1, UNKNOWN_SIZE, u2, UNKNOWN_SIZE, base) && BaseDecides(m, log, v, s, w, t, base, r);
      assert Told(log', Query, u1, UNKNOWN_SIZE, u2, UNKNOWN_SIZE, base);
      if base == MayAlias && s == t {
        var precise :| Told(log, Query, u1, s, u2, t, precise) && Settles(m, v, s, w, t, base, precise, r);
        assert Told(log', Query, u1, s, u2, t, precise);
      }
    } else if !(s == UNKNOWN_SIZE && t == UNKNOWN_SIZE) {
      var base :| Told(log, Query, u1, UNKNOWN_SIZE, w, t, base) && Settles(m, v, s, w, t, base, MayAlias, r);
      assert Told(log', Query, u1, UNKNOWN_SIZE, w, t, base);
    }
  }

  lemma PhiMore(m: Model, log: Log, log': Log, v: Value, s: Size, w: Value, t: Size, r: AliasResult)
    requires log <= log' && PhiDecides(m, log, v, s, w, t, r)
    ensures PhiDecides(m, log', v, s, w, t, r)
  {
    if PhisTogether(m, v, w) {
      if r == NoAlias {
        EdgesMore(m, log, log', v, s, w, t, |m.node(v).values|);
      } else {
        var i, a :| 0 <= i < |m.node(v).values| && a != NoAlias && EdgeTold(m, log, v, s, w, t, i, a);
        assert EdgeTold(m, log', v, s, w, t, i, a);
      }
    } else if !(exists x :: x in m.node(v).values && m.node(x).Phi?) {
      SourcesMore(log, log', m.node(v).values, m.node(v).values, s, w, t, r);
    }
  }
}
