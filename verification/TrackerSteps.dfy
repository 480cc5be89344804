/** The steps of the tracker's operations as changes of state, and what each keeps. */
module TrackerSteps {
  import opened AliasResults
  import opened AliasGroups
  import opened TrackerState
  import opened Wrappers

  lemma LinkedAgain(st: State, st': State)
    requires st'.rep.Keys == st'.sets.Keys && st'.rank.Keys == st'.sets.Keys && st'.added.Keys == st'.recs.Keys
    requires forall s | s in st'.sets :: ForwardGood(st', s) && ListGood(st', s) && KindGood(st', s)
    requires forall p | p in st'.recs :: RecGood(st', p)
    ensures Linked(st')
  {
  }

  /** A set whose list, instructions and kind stay, like the records in its list, keeps its contents. */
  lemma SameGroup(st: State, st': State, t: SetId)
    requires HasContents(st, t) && t in st'.sets
    requires st'.sets[t].list == st.sets[t].list && st'.sets[t].unknownInsts == st.sets[t].unknownInsts && st'.sets[t].may == st.sets[t].may
    requires forall p | p in st.sets[t].list ::
               p in st'.recs && p in st'.added && st'.recs[p].size == st.recs[p].size && st'.added[p] == st.added[p]
    ensures HasContents(st', t) && Contents(st', t) == Contents(st, t)
  {
    assert EntriesOf(st', st'.sets[t].list) == EntriesOf(st, st.sets[t].list);
  }

  // ----- getEntryFor -----

  ghost function EntryMade(st: State, p: Ptr): State {
    st.(recs := st.recs[p := PointerRec(None, 0)], added := st.added[p := 0])
  }

  lemma EntryMadeLinked(st: State, p: Ptr)
    requires Linked(st) && p !in st.recs
    ensures Linked(EntryMade(st, p))
  {
    var st' := EntryMade(st, p);
    forall s | s in st'.sets ensures ForwardGood(st', s) && KindGood(st', s) && ListGood(st', s) {
      assert ForwardGood(st, s) && KindGood(st, s) && ListGood(st, s);
    }
    forall q | q in st'.recs ensures RecGood(st', q) {
      assert q != p ==> RecGood(st, q);
    }
  }

  lemma EntryMadeCounts(st: State, p: Ptr)
    requires CountedBut(st, None) && p !in st.recs
    ensures CountedBut(EntryMade(st, p), None)
  {
    var st' := EntryMade(st, p);
    forall s | s in st'.sets ensures CountGood(st', s) {
      assert CountGood(st, s);
      assert RecRefs(st', s) == RecRefs(st, s) && SetRefs(st', s) == SetRefs(st, s);
    }
  }

  lemma EntryMadeView(st: State, p: Ptr)
    requires Linked(st) && p !in st.recs
    ensures View(EntryMade(st, p)) == View(st)
  {
    var st' := EntryMade(st, p);
    ViewOfLinked(st);
    EntryMadeLinked(st, p);
    ViewOfLinked(st');
    forall s | s in Roots(st) ensures HasContents(st', s) && HasContents(st, s) && Contents(st', s) == Contents(st, s) {
      LinkedHasContents(st, s);
      SameGroup(st, st', s);
    }
  }

  // ----- new AliasSet -----

  ghost function SetMade(st: State, s: SetId): State {
    st.(sets := st.sets[s := AliasSet(None, [], [], 0, false)], rep := st.rep[s := s], rank := st.rank[s := 0])
  }

  /** A set whose count is right, though it may still be zero. */
  ghost predicate Settled(st: State, s: SetId) {
    Linked(st) && CountedBut(st, Some(s)) && s in Roots(st) && st.sets[s].refCount == References(st, s)
  }

  lemma ValidSettled(st: State, s: SetId)
    requires Valid(st) && s in Roots(st)
    ensures Settled(st, s)
  {
    assert CountGood(st, s);
  }

  lemma SetMadeLinked(st: State, s: SetId)
    requires Linked(st) && s !in st.sets
    ensures Linked(SetMade(st, s))
  {
    var st' := SetMade(st, s);
    forall t | t in st'.sets ensures ForwardGood(st', t) && KindGood(st', t) && ListGood(st', t) {
      assert t != s ==> ForwardGood(st, t) && KindGood(st, t) && ListGood(st, t);
    }
    forall q | q in st'.recs ensures RecGood(st', q) {
      assert RecGood(st, q);
    }
  }

  lemma SetMadeView(st: State, s: SetId)
    requires Linked(st) && s !in st.sets
    ensures View(SetMade(st, s)) == View(st)[s := Group([], [], false)]
  {
    var st' := SetMade(st, s);
    SetMadeLinked(st, s);
    ViewOfLinked(st);
    ViewOfLinked(st');
    assert Roots(st') == Roots(st) + {s};
    forall t | t in Roots(st) ensures HasContents(st', t) && HasContents(st, t) && Contents(st', t) == Contents(st, t) {
      LinkedHasContents(st, t);
      SameGroup(st, st', t);
    }
  }

  lemma SetMadeCounts(st: State, s: SetId)
    requires Valid(st) && s !in st.sets
    ensures CountedBut(SetMade(st, s), Some(s)) && References(SetMade(st, s), s) == 0
  {
    var st' := SetMade(st, s);
    forall t | t in st.sets ensures CountGood(st', t) {
      assert CountGood(st, t);
      assert RecRefs(st', t) == RecRefs(st, t) && SetRefs(st', t) == SetRefs(st, t);
    }
    forall p | p in st.recs ensures st.recs[p].set_ != Some(s) {
      assert RecGood(st, p);
    }
    forall t | t in st.sets ensures st.sets[t].forward != Some(s) {
      assert ForwardGood(st, t);
    }
    assert RecRefs(st', s) == {} && SetRefs(st', s) == {};
  }

  lemma SetMadeGood(st: State, s: SetId)
    requires Valid(st) && s !in st.sets
    ensures Settled(SetMade(st, s), s) && View(SetMade(st, s)) == View(st)[s := Group([], [], false)]
  {
    SetMadeLinked(st, s);
    SetMadeCounts(st, s);
    SetMadeView(st, s);
  }

  // ----- addUnknownInst -----

  ghost function InstAdded(st: State, s: SetId, i: Inst): State
    requires s in st.sets
  {
    var a := st.sets[s];
    st.(sets := st.sets[s := a.(unknownInsts := a.unknownInsts + [i], may := true,
                                refCount := a.refCount + if a.unknownInsts == [] then 1 else 0)])
  }

  lemma InstAddedLinked(st: State, s: SetId, i: Inst)
    requires Linked(st) && s in Roots(st)
    ensures Linked(InstAdded(st, s, i))
  {
    var st' := InstAdded(st, s, i);
    forall t | t in st'.sets ensures ForwardGood(st', t) && KindGood(st', t) {
      assert ForwardGood(st, t) && KindGood(st, t);
    }
    forall t | t in st'.sets ensures ListGood(st', t) {
      assert ListGood(st, t);
    }
    forall q | q in st'.recs ensures RecGood(st', q) {
      assert RecGood(st, q);
    }
  }

  lemma InstAddedCounts(st: State, s: SetId, i: Inst)
    requires Settled(st, s)
    ensures CountedBut(InstAdded(st, s, i), None)
  {
    var st' := InstAdded(st, s, i);
    forall t | t in st'.sets ensures CountGood(st', t) {
      assert t != s ==> CountGood(st, t);
      assert RecRefs(st', t) == RecRefs(st, t) && SetRefs(st', t) == SetRefs(st, t);
    }
  }

  lemma InstAddedView(st: State, s: SetId, i: Inst)
    requires Linked(st) && s in View(st)
    ensures View(InstAdded(st, s, i)) == View(st)[s := WithInst(View(st)[s], i)]
  {
    var st' := InstAdded(st, s, i);
    InstAddedLinked(st, s, i);
    ViewOfLinked(st);
    ViewOfLinked(st');
    assert Roots(st') == Roots(st);
    forall t | t in Roots(st) && t != s ensures HasContents(st', t) && HasContents(st, t) && Contents(st', t) == Contents(st, t) {
      LinkedHasContents(st, t);
      SameGroup(st, st', t);
    }
    assert EntriesOf(st', st.sets[s].list) == EntriesOf(st, st.sets[s].list);
  }

  lemma InstAddedGood(st: State, s: SetId, i: Inst)
    requires Settled(st, s) && s in View(st)
    ensures Valid(InstAdded(st, s, i)) && View(InstAdded(st, s, i)) == View(st)[s := WithInst(View(st)[s], i)]
  {
    InstAddedLinked(st, s, i);
    InstAddedCounts(st, s, i);
    InstAddedView(st, s, i);
  }

  // ----- addPointer -----

  /** The first entry of a must set takes the maximum size. */
  ghost function GrownRecs(aa: Oracle, st: State, s: SetId, loc: Loc, known: bool): map<Ptr, PointerRec>
    requires HasContents(st, s)
  {
    var list := st.sets[s].list;
    if !st.sets[s].may && !known && list != [] && aa.alias(Loc(list[0], st.recs[list[0]].size), loc) == MustAlias
       && loc.size > st.recs[list[0]].size then
      st.recs[list[0] := st.recs[list[0]].(size := loc.size)]
    else st.recs
  }

  ghost function PointerAdded(aa: Oracle, st: State, s: SetId, loc: Loc, known: bool): State
    requires HasContents(st, s)
  {
    var a := st.sets[s];
    State(st.sets[s := a.(list := a.list + [loc.ptr], refCount := a.refCount + 1,
                          may := WithPointer(aa, Contents(st, s), loc, known).may)],
          GrownRecs(aa, st, s, loc, known)[loc.ptr := PointerRec(Some(s), loc.size)],
          st.rep, st.rank, st.added[loc.ptr := loc.size])
  }

  lemma NotListed(st: State, p: Ptr)
    requires Linked(st) && p in st.recs && st.recs[p].set_ == None
    ensures forall s | s in st.sets :: p !in st.sets[s].list
  {
    forall s | s in st.sets ensures p !in st.sets[s].list {
      assert ListGood(st, s);
    }
  }

  /** The records keep the sets they name. */
  lemma GrownKeepsSets(aa: Oracle, st: State, s: SetId, loc: Loc, known: bool)
    requires HasContents(st, s)
    ensures GrownRecs(aa, st, s, loc, known).Keys == st.recs.Keys
    ensures forall q | q in st.recs :: GrownRecs(aa, st, s, loc, known)[q].set_ == st.recs[q].set_
  {
  }

  lemma PointerAddedLinked(aa: Oracle, st: State, s: SetId, loc: Loc, known: bool)
    requires Linked(st) && s in Roots(st) && loc.ptr in st.recs && st.recs[loc.ptr].set_ == None
    ensures HasContents(st, s) && Linked(PointerAdded(aa, st, s, loc, known))
  {
    LinkedHasContents(st, s);
    GrownKeepsSets(aa, st, s, loc, known);
    NotListed(st, loc.ptr);
    var st' := PointerAdded(aa, st, s, loc, known);
    assert ForwardGood(st, s);
    forall t | t in st'.sets ensures ForwardGood(st', t) && KindGood(st', t) {
      assert ForwardGood(st, t) && KindGood(st, t);
    }
    forall t | t in st'.sets ensures ListGood(st', t) {
      assert ListGood(st, t);
    }
    forall q | q in st'.recs ensures RecGood(st', q) {
      assert RecGood(st, q);
    }
  }

  lemma PointerAddedCounts(aa: Oracle, st: State, s: SetId, loc: Loc, known: bool)
    requires Settled(st, s) && HasContents(st, s) && loc.ptr in st.recs && st.recs[loc.ptr].set_ == None
    ensures CountedBut(PointerAdded(aa, st, s, loc, known), None)
  {
    var st' := PointerAdded(aa, st, s, loc, known);
    GrownKeepsSets(aa, st, s, loc, known);
    assert RecRefs(st', s) == RecRefs(st, s) + {loc.ptr} && loc.ptr !in RecRefs(st, s);
    forall t | t in st'.sets ensures CountGood(st', t) {
      assert SetRefs(st', t) == SetRefs(st, t);
      if t != s {
        assert CountGood(st, t);
        assert RecRefs(st', t) == RecRefs(st, t);
      }
    }
  }

  lemma PointerAddedView(aa: Oracle, st: State, s: SetId, loc: Loc, known: bool)
    requires Linked(st) && s in View(st) && loc.ptr in st.recs && st.recs[loc.ptr].set_ == None
    ensures HasContents(st, s)
    ensures View(PointerAdded(aa, st, s, loc, known)) == View(st)[s := WithPointer(aa, View(st)[s], loc, known)]
  {
    var st' := PointerAdded(aa, st, s, loc, known);
    PointerAddedLinked(aa, st, s, loc, known);
    ViewOfLinked(st);
    ViewOfLinked(st');
    assert Roots(st') == Roots(st);
    NotListed(st, loc.ptr);
    assert ListGood(st, s);
    forall t | t in Roots(st) && t != s ensures HasContents(st', t) && HasContents(st, t) && Contents(st', t) == Contents(st, t) {
      LinkedHasContents(st, t);
      assert ListGood(st, t);
      SameGroup(st, st', t);
    }
    GrownContents(aa, st, s, loc, known);
  }

  /** The entries of the set itself: the old ones, the first maybe grown, and the new one. */
  lemma GrownContents(aa: Oracle, st: State, s: SetId, loc: Loc, known: bool)
    requires HasContents(st, s) && ListGood(st, s) && loc.ptr !in st.sets[s].list
    ensures HasContents(PointerAdded(aa, st, s, loc, known), s)
    ensures Contents(PointerAdded(aa, st, s, loc, known), s) == WithPointer(aa, Contents(st, s), loc, known)
  {
    var st' := PointerAdded(aa, st, s, loc, known);
    var list := st.sets[s].list;
    var es, w := EntriesOf(st, list), WithPointer(aa, Contents(st, s), loc, known);
    var es' := EntriesOf(st', list + [loc.ptr]);
    assert |es'| == |w.entries|;
    forall i | 0 <= i < |es'| ensures es'[i] == w.entries[i] {
      if i < |list| {
        assert list[i] in list;
        assert i > 0 ==> list[i] != list[0];
      }
    }
  }

  lemma PointerAddedGood(aa: Oracle, st: State, s: SetId, loc: Loc, known: bool)
    requires Settled(st, s) && s in View(st) && loc.ptr in st.recs && st.recs[loc.ptr].set_ == None
    ensures HasContents(st, s) && Valid(PointerAdded(aa, st, s, loc, known))
    ensures View(PointerAdded(aa, st, s, loc, known)) == View(st)[s := WithPointer(aa, View(st)[s], loc, known)]
  {
    PointerAddedLinked(aa, st, s, loc, known);
    PointerAddedCounts(aa, st, s, loc, known);
    PointerAddedView(aa, st, s, loc, known);
  }

  // ----- mergeSetIn -----

  function Max(a: nat, b: nat): nat { if a > b then a else b }

  /** Everything of t moves to s, and t forwards to s; t may keep a reference too many. */
  ghost function SetsMerged(aa: Oracle, st: State, s: SetId, t: SetId): State
    requires HasContents(st, s) && HasContents(st, t) && s in st.rank && t in st.rank
  {
    var a, b := st.sets[s], st.sets[t];
    var gain := if a.unknownInsts == [] && b.unknownInsts != [] then 1 else 0;
    st.(sets := st.sets[s := AliasSet(None, a.list + b.list, a.unknownInsts + b.unknownInsts, a.refCount + gain + 1,
                                      Merged(aa, Contents(st, s), Contents(st, t)).may)]
                       [t := AliasSet(Some(s), [], [], b.refCount, b.may)],
        rep := map u | u in st.rep :: if st.rep[u] == t then s else st.rep[u],
        rank := st.rank[s := Max(st.rank[s], st.rank[t] + 1)])
  }

  lemma MergedForwards(aa: Oracle, st: State, s: SetId, t: SetId)
    requires Linked(st) && s in Roots(st) && t in Roots(st) && s != t && HasContents(st, s) && HasContents(st, t)
    ensures forall u | u in st.sets :: ForwardGood(SetsMerged(aa, st, s, t), u) && KindGood(SetsMerged(aa, st, s, t), u)
  {
    var st' := SetsMerged(aa, st, s, t);
    assert ForwardGood(st, s) && ForwardGood(st, t) && KindGood(st, s) && KindGood(st, t);
    forall u | u in st.sets ensures ForwardGood(st', u) && KindGood(st', u) {
      assert ForwardGood(st, u) && KindGood(st, u);
    }
  }

  lemma MergedLists(aa: Oracle, st: State, s: SetId, t: SetId)
    requires Linked(st) && s in Roots(st) && t in Roots(st) && s != t && HasContents(st, s) && HasContents(st, t)
    ensures forall u | u in st.sets :: ListGood(SetsMerged(aa, st, s, t), u)
    ensures forall p | p in st.recs :: RecGood(SetsMerged(aa, st, s, t), p)
  {
    var st' := SetsMerged(aa, st, s, t);
    assert ForwardGood(st, s) && ForwardGood(st, t) && ListGood(st, s) && ListGood(st, t);
    forall u | u in st.sets ensures ListGood(st', u) {
      assert ListGood(st, u);
      if u == s {
        AppendNoDup(st.sets[s].list, st.sets[t].list);
      }
    }
    forall p | p in st.recs ensures RecGood(st', p) {
      assert RecGood(st, p);
    }
  }

  lemma AppendNoDup<T>(a: seq<T>, b: seq<T>)
    requires NoDup(a) && NoDup(b) && forall x | x in a :: x !in b
    ensures NoDup(a + b)
  {
    forall i, j | 0 <= i < j < |a + b| ensures (a + b)[i] != (a + b)[j] {
      if i < |a| {
        assert a[i] in a;
        if j >= |a| {
          assert b[j - |a|] in b;
        }
      }
    }
  }

  lemma MergedLinked(aa: Oracle, st: State, s: SetId, t: SetId)
    requires Linked(st) && s in Roots(st) && t in Roots(st) && s != t && HasContents(st, s) && HasContents(st, t)
    ensures Linked(SetsMerged(aa, st, s, t))
  {
    MergedForwards(aa, st, s, t);
    MergedLists(aa, st, s, t);
    MergedKeys(aa, st, s, t);
    LinkedAgain(st, SetsMerged(aa, st, s, t));
  }

  lemma MergedKeys(aa: Oracle, st: State, s: SetId, t: SetId)
    requires HasContents(st, s) && HasContents(st, t) && s in st.rank && t in st.rank
    ensures var st' := SetsMerged(aa, st, s, t);
            && st'.sets.Keys == st.sets.Keys && st'.rep.Keys == st.rep.Keys && st'.rank.Keys == st.rank.Keys
            && st'.added == st.added && st'.recs == st.recs
  {
  }

  /** Only the new forwarding pointer changes who refers to whom. */
  lemma MergedRefs(aa: Oracle, st: State, s: SetId, t: SetId)
    requires s in Roots(st) && t in Roots(st) && s != t && HasContents(st, s) && HasContents(st, t) && s in st.rank && t in st.rank
    ensures var st' := SetsMerged(aa, st, s, t);
            && |SetRefs(st', s)| == |SetRefs(st, s)| + 1
            && (forall u | u in st.sets :: RecRefs(st', u) == RecRefs(st, u))
            && (forall u | u in st.sets && u != s :: SetRefs(st', u) == SetRefs(st, u))
  {
    var st' := SetsMerged(aa, st, s, t);
    MergedKeys(aa, st, s, t);
    assert SetRefs(st', s) == SetRefs(st, s) + {t} && t !in SetRefs(st, s);
    forall u | u in st.sets && u != s ensures SetRefs(st', u) == SetRefs(st, u) {
      OtherRefs(aa, st, s, t, u);
    }
  }

  lemma OtherRefs(aa: Oracle, st: State, s: SetId, t: SetId, u: SetId)
    requires s in Roots(st) && t in Roots(st) && s != t && u != s && HasContents(st, s) && HasContents(st, t) && s in st.rank && t in st.rank
    ensures SetRefs(SetsMerged(aa, st, s, t), u) == SetRefs(st, u)
  {
  }

  lemma MergedCounts(aa: Oracle, st: State, s: SetId, t: SetId)
    requires Valid(st) && s in Roots(st) && t in Roots(st) && s != t && HasContents(st, s) && HasContents(st, t)
    ensures CountedBut(SetsMerged(aa, st, s, t), Some(t))
    ensures if st.sets[t].unknownInsts == [] then CountGood(SetsMerged(aa, st, s, t), t) else Excess(SetsMerged(aa, st, s, t), t)
  {
    var st' := SetsMerged(aa, st, s, t);
    MergedRefs(aa, st, s, t);
    assert CountGood(st, s) && CountGood(st, t);
    forall u | u in st'.sets && u != t ensures CountGood(st', u) {
      assert CountGood(st, u);
    }
  }

  lemma MergedView(aa: Oracle, st: State, s: SetId, t: SetId)
    requires Linked(st) && s in View(st) && t in View(st) && s != t
    ensures HasContents(st, s) && HasContents(st, t)
    ensures View(SetsMerged(aa, st, s, t)) == (View(st) - {t})[s := Merged(aa, View(st)[s], View(st)[t])]
  {
    var st' := SetsMerged(aa, st, s, t);
    MergedLinked(aa, st, s, t);
    ViewOfLinked(st);
    ViewOfLinked(st');
    assert Roots(st') == Roots(st) - {t};
    forall u | u in Roots(st') && u != s ensures HasContents(st', u) && HasContents(st, u) && Contents(st', u) == Contents(st, u) {
      LinkedHasContents(st, u);
      SameGroup(st, st', u);
    }
    MergedContents(aa, st, s, t);
  }

  lemma MergedContents(aa: Oracle, st: State, s: SetId, t: SetId)
    requires HasContents(st, s) && HasContents(st, t) && s in st.rank && t in st.rank && s != t
    ensures HasContents(SetsMerged(aa, st, s, t), s)
    ensures Contents(SetsMerged(aa, st, s, t), s) == Merged(aa, Contents(st, s), Contents(st, t))
  {
    var st' := SetsMerged(aa, st, s, t);
    var la, lb := st.sets[s].list, st.sets[t].list;
    assert EntriesOf(st', la + lb) == EntriesOf(st, la) + EntriesOf(st, lb);
  }

  lemma MergedGood(aa: Oracle, st: State, s: SetId, t: SetId)
    requires Valid(st) && s in View(st) && t in View(st) && s != t
    ensures HasContents(st, s) && HasContents(st, t) && s in Roots(SetsMerged(aa, st, s, t))
    ensures Linked(SetsMerged(aa, st, s, t)) && CountedBut(SetsMerged(aa, st, s, t), Some(t))
    ensures if st.sets[t].unknownInsts == [] then Valid(SetsMerged(aa, st, s, t)) else Excess(SetsMerged(aa, st, s, t), t)
    ensures View(SetsMerged(aa, st, s, t)) == (View(st) - {t})[s := Merged(aa, View(st)[s], View(st)[t])]
  {
    MergedLinked(aa, st, s, t);
    MergedCounts(aa, st, s, t);
    MergedView(aa, st, s, t);
  }

  // ----- deleteValue -----

  /** Removal from a list without duplicates. */
  function Without<T(==, !new)>(list: seq<T>, s: T): (r: seq<T>)
    requires NoDup(list)
    ensures NoDup(r) && forall t :: t in r <==> t in list && t != s
  {
    if list == [] then []
    else
      assert forall t :: t in list <==> t == list[0] || t in list[1..];
      if list[0] == s then
        assert forall i | 0 < i < |list| :: list[i] == list[1..][i - 1];
        list[1..]
      else
        var r := Without(list[1..], s);
        assert forall i | 0 <= i < |r| :: r[i] in r;
        [list[0]] + r
  }

  /** The record of p leaves its list and the map. */
  ghost function RecordErased(st: State, s: SetId, p: Ptr, rest: seq<Ptr>): State
    requires s in st.sets
  {
    State(st.sets[s := st.sets[s].(list := rest)], st.recs - {p}, st.rep, st.rank, st.added - {p})
  }

  lemma RecordErasedLinked(st: State, s: SetId, p: Ptr, rest: seq<Ptr>)
    requires Linked(st) && s in Roots(st) && p in st.sets[s].list
    requires NoDup(rest) && forall q :: q in rest <==> q in st.sets[s].list && q != p
    ensures Linked(RecordErased(st, s, p, rest))
  {
    var st' := RecordErased(st, s, p, rest);
    assert ListGood(st, s);
    forall t | t in st'.sets ensures ForwardGood(st', t) && KindGood(st', t) {
      assert ForwardGood(st, t) && KindGood(st, t);
    }
    forall t | t in st'.sets ensures ListGood(st', t) {
      assert ListGood(st, t);
    }
    forall q | q in st'.recs ensures RecGood(st', q) {
      assert RecGood(st, q);
    }
  }

  lemma RecordErasedCounts(st: State, s: SetId, p: Ptr, rest: seq<Ptr>)
    requires Valid(st) && s in Roots(st) && p in st.recs && st.recs[p].set_ == Some(s)
    ensures CountedBut(RecordErased(st, s, p, rest), Some(s)) && Excess(RecordErased(st, s, p, rest), s)
  {
    var st' := RecordErased(st, s, p, rest);
    assert CountGood(st, s);
    assert RecRefs(st', s) == RecRefs(st, s) - {p} && p in RecRefs(st, s);
    forall t | t in st.sets ensures SetRefs(st', t) == SetRefs(st, t) {
    }
    forall t | t in st'.sets && t != s ensures CountGood(st', t) {
      assert CountGood(st, t);
      assert RecRefs(st', t) == RecRefs(st, t);
    }
  }
}
