/** Removal of values from a tracker: what leaves which group. */
module TrackerRemovals {
  import opened AliasGroups
  import opened TrackerState
  import opened TrackerSteps
  import opened AliasPartition
  import opened Wrappers

  /** The value being deleted may be an instruction too. */
  datatype DeletedInst = NoInst | Deleted(inst: Inst)

  // ----- Instructions -----

  /** All occurrences of the instruction are gone, and only they. */
  ghost predicate InstFreed(before: seq<Inst>, after: seq<Inst>, i: Inst) {
    i !in after && forall x | x != i :: multiset(after)[x] == multiset(before)[x]
  }

  /** The loop of removeUnknownInst: the last entry moves into the gap, and is looked at again. */
  method DropInst(insts: seq<Inst>, i: Inst) returns (r: seq<Inst>)
    ensures InstFreed(insts, r, i)
  {
    r := insts;
    var k := 0;
    while k < |r|
      invariant 0 <= k <= |r| && forall j | 0 <= j < k :: r[j] != i
      invariant forall x | x != i :: multiset(r)[x] == multiset(insts)[x]
      decreases |r| - k
    {
      if r[k] == i {
        FillGap(r, k, i);
        r := r[k := r[|r| - 1]][..|r| - 1];
      } else {
        k := k + 1;
      }
    }
  }

  lemma FillGap(r: seq<Inst>, k: nat, i: Inst)
    requires k < |r| && r[k] == i
    ensures forall x | x != i :: multiset(r[k := r[|r| - 1]][..|r| - 1])[x] == multiset(r)[x]
  {
    var n := |r| - 1;
    var q := r[k := r[n]];
    assert q == q[..n] + [r[n]];
    forall x | x != i ensures multiset(q[..n])[x] == multiset(r)[x] {
      assert multiset(q)[x] == multiset(q[..n])[x] + multiset([r[n]])[x];
      assert multiset(q)[x] == multiset(r)[x] + multiset([r[n]])[x];
    }
  }

  lemma FreedToNothing(before: seq<Inst>, i: Inst)
    requires InstFreed(before, [], i)
    ensures forall x | x in before :: x == i
  {
    forall x | x in before ensures x == i {
      assert multiset(before)[x] > 0;
    }
  }

  lemma FreedNothing(insts: seq<Inst>, i: Inst)
    ensures InstFreed([], insts, i) ==> insts == []
  {
    if insts != [] {
      assert multiset(insts)[insts[0]] > 0;
    }
  }

  ghost function InstsLeft(st: State, s: SetId, rest: seq<Inst>): State
    requires s in st.sets
  {
    st.(sets := st.sets[s := st.sets[s].(unknownInsts := rest)])
  }

  lemma InstsLeftLinked(st: State, s: SetId, rest: seq<Inst>, i: Inst)
    requires Linked(st) && s in Roots(st) && InstFreed(st.sets[s].unknownInsts, rest, i)
    ensures Linked(InstsLeft(st, s, rest))
  {
    var st' := InstsLeft(st, s, rest);
    FreedNothing(rest, i);
    forall t | t in st'.sets ensures ForwardGood(st', t) && KindGood(st', t) {
      assert ForwardGood(st, t) && KindGood(st, t);
    }
    forall t | t in st'.sets ensures ListGood(st', t) {
      assert ListGood(st, t);
    }
    forall q | q in st'.recs ensures RecGood(st', q) {
      assert RecGood(st, q);
    }
  }

  lemma InstsLeftCounts(st: State, s: SetId, rest: seq<Inst>, i: Inst)
    requires Valid(st) && s in Roots(st) && InstFreed(st.sets[s].unknownInsts, rest, i)
    ensures CountedBut(InstsLeft(st, s, rest), Some(s))
    ensures if st.sets[s].unknownInsts != [] && rest == [] then Excess(InstsLeft(st, s, rest), s)
            else CountedBut(InstsLeft(st, s, rest), None)
  {
    var st' := InstsLeft(st, s, rest);
    FreedNothing(rest, i);
    forall t | t in st'.sets ensures RecRefs(st', t) == RecRefs(st, t) && SetRefs(st', t) == SetRefs(st, t) {
    }
    assert CountGood(st, s);
    forall t | t in st'.sets && t != s ensures CountGood(st', t) {
      assert CountGood(st, t);
    }
    if !(st.sets[s].unknownInsts != [] && rest == []) {
      assert CountGood(st', s);
    }
  }

  lemma InstsLeftView(st: State, s: SetId, rest: seq<Inst>)
    requires Linked(st) && s in View(st) && Linked(InstsLeft(st, s, rest))
    ensures View(InstsLeft(st, s, rest)) == View(st)[s := View(st)[s].(insts := rest)]
  {
    var st' := InstsLeft(st, s, rest);
    ViewOfLinked(st);
    ViewOfLinked(st');
    assert Roots(st') == Roots(st);
    forall t | t in Roots(st) && t != s ensures HasContents(st', t) && HasContents(st, t) && Contents(st', t) == Contents(st, t) {
      LinkedHasContents(st, t);
      SameGroup(st, st', t);
    }
    assert EntriesOf(st', st.sets[s].list) == EntriesOf(st, st.sets[s].list);
  }

  lemma InstsLeftGood(st: State, s: SetId, rest: seq<Inst>, i: Inst)
    requires Valid(st) && s in View(st) && InstFreed(st.sets[s].unknownInsts, rest, i)
    ensures Linked(InstsLeft(st, s, rest)) && CountedBut(InstsLeft(st, s, rest), Some(s))
    ensures if st.sets[s].unknownInsts != [] && rest == [] then Excess(InstsLeft(st, s, rest), s) else Valid(InstsLeft(st, s, rest))
    ensures View(InstsLeft(st, s, rest)) == View(st)[s := View(st)[s].(insts := rest)]
  {
    InstsLeftLinked(st, s, rest, i);
    InstsLeftCounts(st, s, rest, i);
    InstsLeftView(st, s, rest);
  }

  /** Dropping a reference to a set that does not forward removes at most that set, and only if it holds nothing. */
  lemma RootDropped(st1: State, st2: State, s: SetId)
    requires Linked(st1) && Linked(st2) && s in Roots(st1) && Shrunk(st1, st2, s)
    ensures st1.sets.Keys - {s} <= st2.sets.Keys
    ensures View(st2) == if s in st2.sets then View(st1) else View(st1) - {s}
    ensures s in View(st1) && (s !in st2.sets ==> View(st1)[s].entries == [] && View(st1)[s].insts == [])
  {
    assert OthersStay(st1, st2, s);
    ViewOfLinked(st1);
    ViewOfLinked(st2);
    assert Roots(st2) == if s in st2.sets then Roots(st1) else Roots(st1) - {s};
    forall t | t in Roots(st2) ensures HasContents(st2, t) && HasContents(st1, t) && Contents(st2, t) == Contents(st1, t) {
      LinkedHasContents(st1, t);
      SameGroup(st1, st2, t);
    }
  }

  /** The instruction leaves one group, which may go. */
  ghost predicate InstLeaves(v0: Groups, v: Groups, s: SetId, i: Inst) {
    s in v0 &&
    if s in v then v == v0[s := v0[s].(insts := v[s].insts)] && InstFreed(v0[s].insts, v[s].insts, i)
    else v == v0 - {s} && v0[s].entries == [] && forall x | x in v0[s].insts :: x == i
  }

  lemma InstLeft(v0: Groups, s: SetId, i: Inst, rest: seq<Inst>)
    requires s in v0 && InstFreed(v0[s].insts, rest, i)
    ensures InstLeaves(v0, v0[s := v0[s].(insts := rest)], s, i)
  {
  }

  lemma LastInstLeft(v0: Groups, s: SetId, i: Inst, gone: bool)
    requires s in v0 && InstFreed(v0[s].insts, [], i) && (gone ==> v0[s].entries == [])
    ensures var v1 := v0[s := v0[s].(insts := [])]; InstLeaves(v0, if gone then v1 - {s} else v1, s, i)
  {
    if gone {
      FreedToNothing(v0[s].insts, i);
      assert v0[s := v0[s].(insts := [])] - {s} == v0 - {s};
    }
  }

  ghost predicate InstGoing(v0: Groups, v: Groups, i: Inst, seen: seq<SetId>) {
    && (forall s | s in v ::
          && s in v0 && v[s].entries == v0[s].entries && v[s].may == v0[s].may
          && if s in seen then InstFreed(v0[s].insts, v[s].insts, i) else v[s].insts == v0[s].insts)
    && (forall s | s in v0 && s !in v :: v0[s].entries == [] && forall x | x in v0[s].insts :: x == i)
  }

  /** The instruction has left every group. */
  ghost predicate InstGone(v0: Groups, v: Groups, i: Inst) {
    && (forall s | s in v ::
          s in v0 && v[s].entries == v0[s].entries && v[s].may == v0[s].may && InstFreed(v0[s].insts, v[s].insts, i))
    && (forall s | s in v0 && s !in v :: v0[s].entries == [] && forall x | x in v0[s].insts :: x == i)
  }

  lemma InstGoingStep(v0: Groups, v: Groups, v': Groups, i: Inst, seen: seq<SetId>, cur: SetId)
    requires InstGoing(v0, v, i, seen) && cur !in seen
    requires if cur in v then InstLeaves(v, v', cur, i) else v' == v
    ensures InstGoing(v0, v', i, seen + [cur])
  {
  }

  // ----- Records -----

  /** The entries without the one for p. */
  ghost function WithoutEntry(es: seq<Entry>, p: Ptr): seq<Entry> {
    if es == [] then []
    else if es[0].ptr == p then es[1..]
    else [es[0]] + WithoutEntry(es[1..], p)
  }

  lemma {:induction false} WithoutEntryAbsent(es: seq<Entry>, p: Ptr)
    requires forall k | 0 <= k < |es| :: es[k].ptr != p
    ensures WithoutEntry(es, p) == es
    decreases |es|
  {
    if es != [] {
      WithoutEntryAbsent(es[1..], p);
    }
  }

  lemma {:induction false} WithoutEntryOfList(st: State, st': State, list: seq<Ptr>, p: Ptr)
    requires NoDup(list) && (forall q | q in list :: q in st.recs && q in st.added)
    requires forall q | q in list && q != p :: q in st'.recs && q in st'.added && st'.recs[q].size == st.recs[q].size && st'.added[q] == st.added[q]
    ensures EntriesOf(st', Without(list, p)) == WithoutEntry(EntriesOf(st, list), p)
    decreases |list|
  {
    if list != [] {
      var tail := list[1..];
      TailOf(st, list);
      if list[0] == p {
        assert EntriesOf(st', tail) == EntriesOf(st, tail);
      } else {
        WithoutEntryOfList(st, st', tail, p);
        EntriesFrom(st', list[0], Without(tail, p));
      }
    }
  }

  /** The rest of a list, and its entries. */
  lemma TailOf(st: State, list: seq<Ptr>)
    requires list != [] && NoDup(list) && forall q | q in list :: q in st.recs && q in st.added
    ensures NoDup(list[1..]) && list[0] in list && (forall q | q in list[1..] :: q in list && q != list[0])
    ensures EntriesOf(st, list)[1..] == EntriesOf(st, list[1..])
  {
    assert forall k | 0 <= k < |list| - 1 :: list[1..][k] == list[k + 1];
  }

  lemma EntriesFrom(st: State, p: Ptr, rest: seq<Ptr>)
    requires p in st.recs && p in st.added && forall q | q in rest :: q in st.recs && q in st.added
    ensures EntriesOf(st, [p] + rest) == EntriesOf(st, [p]) + EntriesOf(st, rest)
  {
  }

  lemma RecordErasedView(st: State, s: SetId, p: Ptr)
    requires Linked(st) && s in View(st) && p in st.recs && p in st.sets[s].list && NoDup(st.sets[s].list)
    requires Linked(RecordErased(st, s, p, Without(st.sets[s].list, p)))
    ensures View(RecordErased(st, s, p, Without(st.sets[s].list, p))) ==
              View(st)[s := View(st)[s].(entries := WithoutEntry(View(st)[s].entries, p))]
  {
    var st' := RecordErased(st, s, p, Without(st.sets[s].list, p));
    ViewOfLinked(st);
    ViewOfLinked(st');
    assert Roots(st') == Roots(st);
    assert ListGood(st, s);
    forall t | t in Roots(st) && t != s ensures HasContents(st', t) && HasContents(st, t) && Contents(st', t) == Contents(st, t) {
      LinkedHasContents(st, t);
      assert ListGood(st, t);
      SameGroup(st, st', t);
    }
    WithoutEntryOfList(st, st', st.sets[s].list, p);
  }

  lemma RecordErasedGood(st: State, s: SetId, p: Ptr)
    requires Valid(st) && s in Roots(st) && p in st.recs && st.recs[p].set_ == Some(s) && p in st.sets[s].list && NoDup(st.sets[s].list)
    ensures s in View(st)
    ensures var st' := RecordErased(st, s, p, Without(st.sets[s].list, p));
            && Linked(st') && CountedBut(st', Some(s)) && Excess(st', s) && s in Roots(st')
            && View(st') == View(st)[s := View(st)[s].(entries := WithoutEntry(View(st)[s].entries, p))]
  {
    ViewOfLinked(st);
    RecordErasedLinked(st, s, p, Without(st.sets[s].list, p));
    RecordErasedCounts(st, s, p, Without(st.sets[s].list, p));
    RecordErasedView(st, s, p);
  }

  /** The entry of p leaves one group, which may go. */
  ghost predicate EntryLeaves(v0: Groups, v: Groups, s: SetId, p: Ptr) {
    s in v0 &&
    if s in v then v == v0[s := v0[s].(entries := WithoutEntry(v0[s].entries, p))]
    else v == v0 - {s} && WithoutEntry(v0[s].entries, p) == [] && v0[s].insts == []
  }

  lemma EntryLeft(v0: Groups, s: SetId, p: Ptr, gone: bool)
    requires s in v0 && (gone ==> WithoutEntry(v0[s].entries, p) == [] && v0[s].insts == [])
    ensures var v1 := v0[s := v0[s].(entries := WithoutEntry(v0[s].entries, p))];
            EntryLeaves(v0, if gone then v1 - {s} else v1, s, p)
  {
    if gone {
      assert v0[s := v0[s].(entries := [])] - {s} == v0 - {s};
    }
  }

  // ----- deleteValue as a whole -----

  ghost predicate InstsAfter(before: seq<Inst>, after: seq<Inst>, inst: DeletedInst) {
    if inst.Deleted? && inst.inst.MayReadOrWrite() then InstFreed(before, after, inst.inst) else after == before
  }

  /** Every group loses the entry of p and the instruction, and nothing else; groups go only when nothing is left. */
  ghost predicate ValueGone(v0: Groups, v: Groups, p: Ptr, inst: DeletedInst) {
    && (forall s | s in v ::
          && s in v0 && v[s].entries == WithoutEntry(v0[s].entries, p) && v[s].may == v0[s].may
          && InstsAfter(v0[s].insts, v[s].insts, inst))
    && (forall s | s in v0 && s !in v ::
          WithoutEntry(v0[s].entries, p) == [] && forall x | x in v0[s].insts :: inst == Deleted(x))
  }

  /** The first half of deleteValue. */
  ghost predicate InstsGone(v0: Groups, v: Groups, inst: DeletedInst) {
    if inst.Deleted? && inst.inst.MayReadOrWrite() then InstGone(v0, v, inst.inst) else v == v0
  }

  lemma NotInGroup(st: State, p: Ptr, t: SetId)
    requires Linked(st) && t in View(st) && p !in st.sets[t].list
    ensures WithoutEntry(View(st)[t].entries, p) == View(st)[t].entries
  {
    assert forall k | 0 <= k < |st.sets[t].list| :: st.sets[t].list[k] in st.sets[t].list;
    WithoutEntryAbsent(View(st)[t].entries, p);
  }

  /** A pointer is in the list of no set but the one it resolves to. */
  lemma ElsewhereAbsent(st: State, p: Ptr, s: SetId)
    requires Linked(st) && p in st.recs && st.recs[p].set_ == Some(s) && s in Roots(st)
    ensures forall t | t in View(st) && t != s :: WithoutEntry(View(st)[t].entries, p) == View(st)[t].entries
  {
    assert ForwardGood(st, s);
    forall t | t in View(st) && t != s ensures WithoutEntry(View(st)[t].entries, p) == View(st)[t].entries {
      assert ListGood(st, t);
      NotInGroup(st, p, t);
    }
  }

  lemma NowhereListed(st: State, p: Ptr)
    requires Linked(st) && p !in st.recs
    ensures forall t | t in View(st) :: WithoutEntry(View(st)[t].entries, p) == View(st)[t].entries
  {
    forall t | t in View(st) ensures WithoutEntry(View(st)[t].entries, p) == View(st)[t].entries {
      assert ListGood(st, t);
      NotInGroup(st, p, t);
    }
  }

  lemma AbsentGone(v0: Groups, v: Groups, p: Ptr, inst: DeletedInst)
    requires InstsGone(v0, v, inst)
    requires forall t | t in v :: WithoutEntry(v[t].entries, p) == v[t].entries
    ensures ValueGone(v0, v, p, inst)
  {
  }

  lemma PresentGone(v0: Groups, v1: Groups, v: Groups, p: Ptr, s: SetId, inst: DeletedInst)
    requires InstsGone(v0, v1, inst) && EntryLeaves(v1, v, s, p)
    requires forall t | t in v1 && t != s :: WithoutEntry(v1[t].entries, p) == v1[t].entries
    ensures ValueGone(v0, v, p, inst)
  {
    if s !in v && inst.Deleted? && inst.inst.MayReadOrWrite() {
      FreedToNothing(v0[s].insts, inst.inst);
    }
  }
}
