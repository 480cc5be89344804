/** The states of an alias set tracker and what every operation keeps of them. */
module TrackerState {
  import opened AliasGroups
  import opened Wrappers

  type SetId(==, !new)

  type Target = Option<SetId>

  /** An AliasSet object. The list holds the pointers whose records are linked into it, in order. */
  datatype AliasSet = AliasSet(forward: Target, list: seq<Ptr>, unknownInsts: seq<Inst>, refCount: nat, may: bool)

  /** A PointerRec object; one per pointer. */
  datatype PointerRec = PointerRec(set_: Target, size: nat)

  /**
   The objects of a tracker by identity, with three ghosts: the set each one finally forwards
   to, a rank that grows along forwarding, and the size each pointer was added with.
   */
  datatype State = State(sets: map<SetId, AliasSet>, recs: map<Ptr, PointerRec>,
                         rep: map<SetId, SetId>, rank: map<SetId, nat>, added: map<Ptr, nat>)

  // ----- Links -----

  /** Forwarding leads up in rank to rep, and a set that forwards holds nothing. */
  ghost predicate ForwardGood(st: State, s: SetId)
    requires s in st.sets
  {
    && s in st.rep && s in st.rank && st.rep[s] in st.sets && st.sets[st.rep[s]].forward == None
    && match st.sets[s].forward
       case None => st.rep[s] == s
       case Some(f) =>
         && f in st.sets && f in st.rank && st.rank[s] < st.rank[f] && f in st.rep && st.rep[s] == st.rep[f]
         && st.sets[s].list == [] && st.sets[s].unknownInsts == []
  }

  /** The records in a list name, finally, its set. */
  ghost predicate ListGood(st: State, s: SetId)
    requires s in st.sets
  {
    && NoDup(st.sets[s].list)
    && forall p | p in st.sets[s].list ::
         p in st.recs && st.recs[p].set_.Some? && st.recs[p].set_.value in st.sets
         && st.recs[p].set_.value in st.rep && st.rep[st.recs[p].set_.value] == s
  }

  /** A must set has no unknown instructions. */
  ghost predicate KindGood(st: State, s: SetId)
    requires s in st.sets
  {
    !st.sets[s].may ==> st.sets[s].unknownInsts == []
  }

  /** A record is in the list of the set its own set finally forwards to. */
  ghost predicate RecGood(st: State, p: Ptr)
    requires p in st.recs
  {
    st.recs[p].set_.Some? ==>
      var s := st.recs[p].set_.value;
      s in st.sets && s in st.rep && st.rep[s] in st.sets && p in st.sets[st.rep[s]].list
  }

  ghost predicate Linked(st: State) {
    && st.rep.Keys == st.sets.Keys && st.rank.Keys == st.sets.Keys && st.added.Keys == st.recs.Keys
    && (forall s {:trigger ForwardGood(st, s)} | s in st.sets :: ForwardGood(st, s))
    && (forall s {:trigger ListGood(st, s)} | s in st.sets :: ListGood(st, s))
    && (forall s {:trigger KindGood(st, s)} | s in st.sets :: KindGood(st, s))
    && (forall p {:trigger RecGood(st, p)} | p in st.recs :: RecGood(st, p))
  }

  // ----- Reference counts -----

  ghost function RecRefs(st: State, s: SetId): set<Ptr> {
    set p | p in st.recs && st.recs[p].set_ == Some(s)
  }

  ghost function SetRefs(st: State, s: SetId): set<SetId> {
    set t | t in st.sets && st.sets[t].forward == Some(s)
  }

  /** Records naming the set, plus sets forwarding to it, plus one for unknown instructions. */
  ghost function References(st: State, s: SetId): nat
    requires s in st.sets
  {
    |RecRefs(st, s)| + |SetRefs(st, s)| + if st.sets[s].unknownInsts == [] then 0 else 1
  }

  ghost predicate CountGood(st: State, s: SetId)
    requires s in st.sets
  {
    st.sets[s].refCount == References(st, s) > 0
  }

  /** All reference counts are right and positive; one set may be left out. */
  ghost predicate CountedBut(st: State, but: Target) {
    forall s {:trigger CountGood(st, s)} | s in st.sets && Some(s) != but :: CountGood(st, s)
  }

  ghost predicate Excess(st: State, s: SetId) {
    s in st.sets && st.sets[s].refCount == References(st, s) + 1
  }

  /** The structural invariant. */
  ghost predicate Valid(st: State) {
    Linked(st) && CountedBut(st, None)
  }

  // ----- A set without references goes -----

  ghost function Retired(st: State, s: SetId): State {
    st.(sets := st.sets - {s}, rep := st.rep - {s}, rank := st.rank - {s})
  }

  /** The sets of higher rank; forwarding makes it smaller. */
  ghost function Above(st: State, s: SetId): set<SetId>
    requires s in st.rank
  {
    set t | t in st.rank && st.rank[t] > st.rank[s]
  }

  lemma AboveShrinks(st: State, s: SetId, f: SetId)
    requires s in st.rank && f in st.rank && st.rank[s] < st.rank[f]
    ensures Above(st, f) < Above(st, s)
  {
    assert f in Above(st, s) && f !in Above(st, f);
  }

  lemma NotForwarding(st: State, s: SetId, t: SetId)
    requires Linked(st) && s in st.sets && t in st.sets && t != s && SetRefs(st, s) == {}
    ensures st.rep[t] != s && st.sets[t].forward != Some(s)
    decreases Above(st, t)
  {
    assert ForwardGood(st, t);
    assert t !in SetRefs(st, s);
    if st.sets[t].forward.Some? {
      AboveShrinks(st, t, st.sets[t].forward.value);
      NotForwarding(st, s, st.sets[t].forward.value);
    }
  }

  lemma EmptySeq<T>(s: seq<T>)
    ensures (forall x :: x !in s) ==> s == []
  {
    assert |s| == 0 || s[0] in s;
  }

  lemma NoneForwardsTo(st: State, s: SetId)
    requires Linked(st) && s in st.sets && SetRefs(st, s) == {} && RecRefs(st, s) == {}
    ensures st.sets[s].list == []
    ensures forall t | t in st.sets && t != s :: st.rep[t] != s && st.sets[t].forward != Some(s)
    ensures forall p | p in st.recs :: st.recs[p].set_ != Some(s)
  {
    forall t | t in st.sets && t != s ensures st.rep[t] != s && st.sets[t].forward != Some(s) {
      NotForwarding(st, s, t);
    }
    assert forall p | p in st.recs :: p !in RecRefs(st, s);
    assert ListGood(st, s);
    EmptySeq(st.sets[s].list);
  }

  lemma RetireLinked(st: State, s: SetId)
    requires Linked(st) && s in st.sets && SetRefs(st, s) == {} && RecRefs(st, s) == {}
    ensures Linked(Retired(st, s))
  {
    var st' := Retired(st, s);
    NoneForwardsTo(st, s);
    forall t | t in st'.sets ensures ForwardGood(st', t) && KindGood(st', t) {
      assert ForwardGood(st, t) && KindGood(st, t);
    }
    forall t | t in st'.sets ensures ListGood(st', t) {
      assert ListGood(st, t);
    }
    forall p | p in st'.recs ensures RecGood(st', p) {
      assert RecGood(st, p);
    }
  }

  /** Only the set it forwarded to notices. */
  lemma RetireCounts(st: State, s: SetId)
    requires Linked(st) && s in st.sets && SetRefs(st, s) == {} && RecRefs(st, s) == {} && CountedBut(st, Some(s))
    ensures CountedBut(Retired(st, s), st.sets[s].forward)
    ensures st.sets[s].forward.Some? ==> Excess(Retired(st, s), st.sets[s].forward.value)
  {
    var st' := Retired(st, s);
    forall t | t in st'.sets ensures RecRefs(st', t) == RecRefs(st, t) && SetRefs(st', t) == SetRefs(st, t) - {s} {
    }
    forall t | t in st'.sets && Some(t) != st.sets[s].forward ensures CountGood(st', t) {
      assert CountGood(st, t);
      assert s !in SetRefs(st, t);
    }
    if st.sets[s].forward.Some? {
      var f := st.sets[s].forward.value;
      assert ForwardGood(st, s);
      assert CountGood(st, f);
      assert s in SetRefs(st, f);
    }
  }

  // ----- What a reader sees: the groups of the sets that do not forward -----

  ghost function EntriesOf(st: State, ps: seq<Ptr>): (es: seq<Entry>)
    requires forall p | p in ps :: p in st.recs && p in st.added
    ensures |es| == |ps| && forall i | 0 <= i < |ps| :: es[i] == Entry(ps[i], st.added[ps[i]], st.recs[ps[i]].size)
  {
    seq(|ps|, i requires 0 <= i < |ps| => Entry(ps[i], st.added[ps[i]], st.recs[ps[i]].size))
  }

  ghost predicate HasContents(st: State, s: SetId) {
    s in st.sets && forall p | p in st.sets[s].list :: p in st.recs && p in st.added
  }

  ghost function Contents(st: State, s: SetId): Group
    requires HasContents(st, s)
  {
    Group(EntriesOf(st, st.sets[s].list), st.sets[s].unknownInsts, st.sets[s].may)
  }

  lemma LinkedHasContents(st: State, s: SetId)
    requires Linked(st) && s in st.sets
    ensures HasContents(st, s)
  {
    assert ListGood(st, s);
  }

  ghost function Roots(st: State): set<SetId> {
    set s | s in st.sets && st.sets[s].forward == None
  }

  ghost function View(st: State): map<SetId, Group> {
    map s | s in Roots(st) && HasContents(st, s) :: Contents(st, s)
  }

  lemma ViewOfLinked(st: State)
    requires Linked(st)
    ensures View(st).Keys == Roots(st)
  {
    forall s | s in Roots(st) ensures s in View(st) {
      LinkedHasContents(st, s);
    }
  }

  /** A set that does not forward holds something: references cannot come from nowhere. */
  lemma RootsHoldSomething(st: State, s: SetId)
    requires Valid(st) && s in Roots(st)
    ensures st.sets[s].list != [] || st.sets[s].unknownInsts != []
  {
    if st.sets[s].unknownInsts == [] {
      var p := SomeMember(st, s);
      assert ForwardGood(st, s);
    }
  }

  /** Following references down, from forwarding set to forwarding set, ends at a record. */
  lemma SomeMember(st: State, s: SetId) returns (p: Ptr)
    requires Valid(st) && s in st.sets && st.sets[s].unknownInsts == []
    ensures s in st.rep && st.rep[s] in st.sets && p in st.sets[st.rep[s]].list
    decreases st.rank[s]
  {
    assert CountGood(st, s);
    assert ForwardGood(st, s);
    if RecRefs(st, s) != {} {
      p :| p in RecRefs(st, s);
      assert RecGood(st, p);
    } else {
      assert SetRefs(st, s) != {};
      var t :| t in SetRefs(st, s);
      assert ForwardGood(st, t);
      p := SomeMember(st, t);
    }
  }

  // ----- Changes of reference counts only -----

  ghost predicate SameButCounts(st: State, st': State) {
    && st'.recs == st.recs && st'.rep == st.rep && st'.rank == st.rank && st'.added == st.added
    && st'.sets.Keys == st.sets.Keys
    && forall t | t in st.sets :: st'.sets[t] == st.sets[t].(refCount := st'.sets[t].refCount)
  }

  lemma CountsIrrelevant(st: State, st': State)
    requires SameButCounts(st, st')
    ensures Linked(st) ==> Linked(st')
    ensures forall t :: RecRefs(st', t) == RecRefs(st, t) && SetRefs(st', t) == SetRefs(st, t)
    ensures View(st') == View(st)
  {
    forall t ensures RecRefs(st', t) == RecRefs(st, t) && SetRefs(st', t) == SetRefs(st, t) {
    }
    if Linked(st) {
      forall t | t in st'.sets ensures ForwardGood(st', t) && KindGood(st', t) && ListGood(st', t) {
        assert ForwardGood(st, t) && KindGood(st, t) && ListGood(st, t);
      }
      forall p | p in st'.recs ensures RecGood(st', p) {
        assert RecGood(st, p);
      }
    }
    SameContents(st, st');
  }

  /** Equal lists, records and kinds give equal views. */
  lemma SameContents(st: State, st': State)
    requires st'.added == st.added && (forall p | p in st.recs :: p in st'.recs && st'.recs[p].size == st.recs[p].size)
    requires st'.recs.Keys == st.recs.Keys && Roots(st') == Roots(st)
    requires forall t | t in Roots(st) ::
               st'.sets[t].list == st.sets[t].list && st'.sets[t].unknownInsts == st.sets[t].unknownInsts && st'.sets[t].may == st.sets[t].may
    ensures View(st') == View(st)
  {
    forall t | t in Roots(st) ensures HasContents(st', t) == HasContents(st, t) {
    }
    forall t | t in View(st) ensures View(st')[t] == View(st)[t] {
      assert EntriesOf(st', st'.sets[t].list) == EntriesOf(st, st.sets[t].list);
    }
  }

  /** What dropping a reference to s may have done. */
  ghost predicate Shrunk(st: State, st': State, s: SetId)
    requires s in st.sets
  {
    && st'.recs == st.recs && st'.added == st.added
    && st'.sets.Keys <= st.sets.Keys && st'.sets.Keys <= st'.rep.Keys && st'.sets.Keys <= st'.rank.Keys
    && st.sets.Keys <= st.rep.Keys && st.sets.Keys <= st.rank.Keys
    && (forall t | t in st'.sets ::
          st'.sets[t] == st.sets[t].(refCount := st'.sets[t].refCount) && st'.rep[t] == st.rep[t] && st'.rank[t] == st.rank[t])
    && (forall t | t in st.sets && t !in st'.sets ::
          st.rank[t] >= st.rank[s] && st.sets[t].list == [] && st.sets[t].unknownInsts == [])
    && (st.sets[s].forward == None || st.sets[s].forward.value in st'.sets ==> OthersStay(st, st', s))
  }

  ghost predicate OthersStay(st: State, st': State, s: SetId) {
    forall t | t in st.sets && t != s :: t in st'.sets
  }

  lemma ShrunkTrans(st: State, s: SetId, f: SetId, st2: State)
    requires s in st.sets && st.sets[s].forward == Some(f) && f in st.sets
    requires Linked(st) && st.sets[s].list == [] && st.sets[s].unknownInsts == []
    requires f in Retired(st, s).sets && Shrunk(Retired(st, s), st2, f) && Linked(st2)
    ensures Shrunk(st, st2, s) && s !in st2.sets
  {
    assert ForwardGood(st, s);
    if f in st2.sets {
      assert ForwardGood(st2, f);
      assert st2.sets[f].forward == st.sets[f].forward;
      assert OthersStay(Retired(st, s), st2, f);
      assert OthersStay(st, st2, s);
    }
  }

  // ----- Path compression -----

  /** s forwards straight to d, which gains a reference. */
  ghost function Redirected(st: State, s: SetId, d: SetId): State
    requires s in st.sets && d in st.sets && s != d
  {
    st.(sets := st.sets[d := st.sets[d].(refCount := st.sets[d].refCount + 1)][s := st.sets[s].(forward := Some(d))])
  }

  lemma RedirectLinked(st: State, s: SetId, f: SetId)
    requires Valid(st) && s in st.sets && st.sets[s].forward == Some(f) && f in st.sets && f in st.rep && f != st.rep[f]
    requires st.sets[f].forward == Some(st.rep[f])
    ensures s in st.rep && st.rep[s] == st.rep[f] && st.rep[s] in st.sets && st.rep[s] != s
    ensures Linked(Redirected(st, s, st.rep[s]))
  {
    assert ForwardGood(st, s) && ForwardGood(st, f);
    var st' := Redirected(st, s, st.rep[s]);
    forall t | t in st'.sets ensures ForwardGood(st', t) && KindGood(st', t) {
      assert ForwardGood(st, t) && KindGood(st, t);
    }
    forall t | t in st'.sets ensures ListGood(st', t) {
      assert ListGood(st, t);
    }
    forall p | p in st'.recs ensures RecGood(st', p) {
      assert RecGood(st, p);
    }
  }

  lemma RedirectGood(st: State, s: SetId, f: SetId)
    requires Valid(st) && s in st.sets && st.sets[s].forward == Some(f) && f in st.sets && f in st.rep && f != st.rep[f]
    requires st.sets[f].forward == Some(st.rep[f])
    ensures s in st.rep && st.rep[s] == st.rep[f] && st.rep[s] in st.sets && st.rep[s] != s
    ensures var st' := Redirected(st, s, st.rep[s]); Linked(st') && CountedBut(st', Some(f)) && Excess(st', f)
  {
    assert ForwardGood(st, s);
    RedirectLinked(st, s, f);
    RedirectCounts(st, s, f, st.rep[s]);
  }

  lemma RedirectCounts(st: State, s: SetId, f: SetId, d: SetId)
    requires CountedBut(st, None) && s in st.sets && st.sets[s].forward == Some(f) && f in st.sets && d in st.sets
    requires s != d && s != f && f != d
    ensures CountedBut(Redirected(st, s, d), Some(f)) && Excess(Redirected(st, s, d), f)
  {
    var st' := Redirected(st, s, d);
    forall t | t in st.sets ensures RecRefs(st', t) == RecRefs(st, t) {
    }
    assert SetRefs(st', d) == SetRefs(st, d) + {s} && s !in SetRefs(st, d);
    assert SetRefs(st', f) == SetRefs(st, f) - {s} && s in SetRefs(st, f);
    forall t | t in st'.sets && t != f ensures CountGood(st', t) {
      assert CountGood(st, t);
      if t != d {
        assert SetRefs(st', t) == SetRefs(st, t);
      }
    }
    assert CountGood(st, f);
  }

  /** What following forwarding pointers from s may have done: shortcuts from s upwards, and loss of sets passed over. */
  ghost predicate Compressed(st: State, st': State, s: SetId)
    requires s in st.rank
  {
    && st'.recs == st.recs && st'.added == st.added && CompressedSets(st, st', s)
  }

  ghost predicate CompressedSets(st: State, st': State, s: SetId)
    requires s in st.rank
  {
    && s in st'.sets && st'.sets.Keys <= st.sets.Keys
    && st.sets.Keys <= st.rep.Keys && st.sets.Keys <= st.rank.Keys && st'.sets.Keys <= st'.rep.Keys && st'.sets.Keys <= st'.rank.Keys
    && (forall t {:trigger CompressedAt(st, st', s, t)} | t in st'.sets :: CompressedAt(st, st', s, t))
    && (forall t | t in st.sets && t !in st'.sets :: st.rank[t] > st.rank[s] && st.sets[t].forward.Some?)
  }

  ghost predicate CompressedAt(st: State, st': State, s: SetId, t: SetId)
    requires s in st.rank && t in st.sets && t in st'.sets && t in st.rep && t in st.rank && t in st'.rep && t in st'.rank
  {
    && st'.rep[t] == st.rep[t] && st'.rank[t] == st.rank[t]
    && st'.sets[t].list == st.sets[t].list && st'.sets[t].unknownInsts == st.sets[t].unknownInsts && st'.sets[t].may == st.sets[t].may
    && (st'.sets[t].forward == st.sets[t].forward
        || (st.sets[t].forward.Some? && st'.sets[t].forward == Some(st.rep[t]) && st.rank[t] >= st.rank[s]))
  }

  lemma CompressedView(st: State, st': State, s: SetId)
    requires s in st.rank && Compressed(st, st', s)
    ensures View(st') == View(st)
  {
    forall t | t in st'.sets ensures CompressedAt(st, st', s, t) {
    }
    assert Roots(st') == Roots(st);
    SameContents(st, st');
  }

  lemma CompressedSelf(st: State, s: SetId)
    requires Linked(st) && s in st.sets
    ensures Compressed(st, st, s)
  {
  }

  /** The situation after compressing from f on: s still forwards to f, which forwards to their common end. */
  ghost predicate Passable(st: State, st1: State, s: SetId, f: SetId) {
    && Linked(st) && Valid(st1) && s in st.sets && st.sets[s].forward == Some(f) && f in st.rank && s in st.rank
    && Compressed(st, st1, f) && s in st1.sets && st1.sets[s].forward == Some(f) && f in st1.sets && f in st1.rep
    && st1.sets[f].forward == Some(st1.rep[f]) && f != st1.rep[f]
    && s in st1.rep && st1.rep[s] in st1.sets && s != st1.rep[s] && st1.rep[s] == st1.rep[f]
  }

  /** Sets lost on the way forwarded, and lie above s. */
  lemma LostOnTheWay(st: State, st1: State, st2: State, s: SetId, f: SetId, t: SetId)
    requires Passable(st, st1, s, f)
    requires f in Redirected(st1, s, st1.rep[s]).sets && Shrunk(Redirected(st1, s, st1.rep[s]), st2, f)
    requires t in st.sets && t !in st2.sets
    ensures t in st.rank && st.rank[t] > st.rank[s] && st.sets[t].forward.Some?
  {
    assert ForwardGood(st, s);
    if t in st1.sets {
      assert CompressedAt(st, st1, f, t) && CompressedAt(st, st1, f, f);
      if st1.sets[t].forward == None {
        RootsHoldSomething(st1, t);
      }
    }
  }

  lemma StepAt(st: State, st1: State, st2: State, s: SetId, f: SetId, t: SetId)
    requires Passable(st, st1, s, f)
    requires f in Redirected(st1, s, st1.rep[s]).sets && Shrunk(Redirected(st1, s, st1.rep[s]), st2, f) && t in st2.sets
    ensures t in st.sets && t in st.rep && t in st.rank && t in st2.rep && t in st2.rank && CompressedAt(st, st2, s, t)
  {
    assert ForwardGood(st, s);
    assert t in st1.sets;
    assert CompressedAt(st, st1, f, t) && CompressedAt(st, st1, f, f) && CompressedAt(st, st1, f, s);
  }

  /** Redirecting after compressing further up, then dropping the set passed over. */
  lemma CompressedStep(st: State, st1: State, st2: State, s: SetId, f: SetId)
    requires Passable(st, st1, s, f) && Linked(st2)
    requires f in Redirected(st1, s, st1.rep[s]).sets && Shrunk(Redirected(st1, s, st1.rep[s]), st2, f)
    ensures Compressed(st, st2, s) && st2.sets[s].forward == Some(st1.rep[s]) && st2.rep[s] == st1.rep[s]
  {
    var st' := Redirected(st1, s, st1.rep[s]);
    assert ForwardGood(st1, s);
    assert s in st2.sets by {
      assert st'.rank[s] < st'.rank[f];
    }
    forall t | t in st.sets && t !in st2.sets ensures st.rank[t] > st.rank[s] && st.sets[t].forward.Some? {
      LostOnTheWay(st, st1, st2, s, f, t);
    }
    forall t | t in st2.sets ensures t in st.sets && CompressedAt(st, st2, s, t) {
      StepAt(st, st1, st2, s, f, t);
    }
  }

  lemma CompressedUp(st: State, st1: State, s: SetId, f: SetId)
    requires Linked(st) && s in st.sets && st.sets[s].forward == Some(f) && f in st.rank && Compressed(st, st1, f)
    ensures s in st1.sets && st1.sets[s].forward == Some(f) && Compressed(st, st1, s)
    ensures s in st1.rep && s in st1.rank && st1.rep[s] == st.rep[s]
  {
    assert ForwardGood(st, s);
    assert s in st1.sets;
    assert CompressedAt(st, st1, f, s);
    forall t | t in st1.sets ensures CompressedAt(st, st1, s, t) {
      assert CompressedAt(st, st1, f, t);
    }
  }

  // ----- Moving a record's reference -----

  /** The record of p names d, which gains a reference. */
  ghost function Renamed(st: State, p: Ptr, d: SetId): State
    requires p in st.recs && d in st.sets
  {
    st.(recs := st.recs[p := st.recs[p].(set_ := Some(d))],
        sets := st.sets[d := st.sets[d].(refCount := st.sets[d].refCount + 1)])
  }

  lemma RenameLinked(st: State, p: Ptr, a: SetId)
    requires Linked(st) && p in st.recs && st.recs[p].set_ == Some(a) && a in st.sets && a in st.rep && st.rep[a] in st.sets
    ensures Linked(Renamed(st, p, st.rep[a]))
  {
    var d := st.rep[a];
    var st' := Renamed(st, p, d);
    assert ForwardGood(st, a) && ForwardGood(st, d);
    forall t | t in st'.sets ensures ForwardGood(st', t) && KindGood(st', t) {
      assert ForwardGood(st, t) && KindGood(st, t);
    }
    forall t | t in st'.sets ensures ListGood(st', t) {
      assert ListGood(st, t);
    }
    forall q | q in st'.recs ensures RecGood(st', q) {
      assert RecGood(st, q) && RecGood(st, p);
    }
  }

  lemma RenameGood(st: State, p: Ptr, a: SetId)
    requires Valid(st) && p in st.recs && st.recs[p].set_ == Some(a) && a in st.sets && a in st.rep && st.rep[a] in st.sets && st.rep[a] != a
    ensures var st' := Renamed(st, p, st.rep[a]);
            Linked(st') && CountedBut(st', Some(a)) && Excess(st', a) && View(st') == View(st)
  {
    RenameLinked(st, p, a);
    RenameCounts(st, p, a, st.rep[a]);
    SameContents(st, Renamed(st, p, st.rep[a]));
  }

  lemma RenameCounts(st: State, p: Ptr, a: SetId, d: SetId)
    requires CountedBut(st, None) && p in st.recs && st.recs[p].set_ == Some(a) && a in st.sets && d in st.sets && d != a
    ensures CountedBut(Renamed(st, p, d), Some(a)) && Excess(Renamed(st, p, d), a)
  {
    var st' := Renamed(st, p, d);
    forall t | t in st.sets ensures SetRefs(st', t) == SetRefs(st, t) {
    }
    assert RecRefs(st', d) == RecRefs(st, d) + {p} && p !in RecRefs(st, d);
    assert RecRefs(st', a) == RecRefs(st, a) - {p} && p in RecRefs(st, a);
    forall t | t in st'.sets && t != a ensures CountGood(st', t) {
      assert CountGood(st, t);
      if t != d {
        assert RecRefs(st', t) == RecRefs(st, t);
      }
    }
    assert CountGood(st, a);
  }

  // ----- The width of the count -----

  lemma SubsetSize<T>(a: set<T>, b: set<T>)
    requires a <= b
    ensures |a| <= |b|
  {
    assert b == a + (b - a);
  }

  /** A count never exceeds the number of records and sets: 28 bits hold it while those together stay below 2^28. */
  lemma CountFits(st: State, s: SetId)
    requires Valid(st) && s in st.sets
    ensures 0 < st.sets[s].refCount <= |st.recs| + |st.sets|
  {
    assert CountGood(st, s);
    SubsetSize(RecRefs(st, s), st.recs.Keys);
    assert s !in SetRefs(st, s) by {
      assert ForwardGood(st, s);
    }
    SubsetSize(SetRefs(st, s) + {s}, st.sets.Keys);
    assert |SetRefs(st, s) + {s}| == |SetRefs(st, s)| + 1;
    assert |st.recs.Keys| == |st.recs| && |st.sets.Keys| == |st.sets|;
  }
}
