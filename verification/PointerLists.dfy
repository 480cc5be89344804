/**
 The lists of pointer records of the alias sets: singly linked lists in which each record also
 knows the field that points to it, so that records are appended, removed and whole lists
 moved without a walk. The fields of all sets and records are kept by identity.
 */
module PointerLists {
  import opened AliasGroups
  import opened TrackerState
  import opened TrackerSteps
  import opened Wrappers

  /** A pointer to a record, or none. */
  datatype Link = Null | To(rec: Ptr)

  /** A pointer to a field that holds such a pointer: the head of a set's list, or the next field of a record. */
  datatype Slot = NoSlot | Head(owner: SetId) | Next(rec: Ptr)

  /** PtrList and PtrListEnd of the sets, PrevInList and NextInList of the records. */
  datatype Links = Links(head: map<SetId, Link>, end: map<SetId, Slot>, prev: map<Ptr, Slot>, next: map<Ptr, Link>)

  // ----- Which list the links spell -----

  /** The links of the record at place i. */
  ghost predicate LinksAt(l: Links, s: SetId, list: seq<Ptr>, i: nat)
    requires i < |list|
  {
    && list[i] in l.prev && l.prev[list[i]] == (if i == 0 then Head(s) else Next(list[i - 1]))
    && list[i] in l.next && l.next[list[i]] == if i + 1 < |list| then To(list[i + 1]) else Null
  }

  ghost predicate Recorded(l: Links, list: seq<Ptr>) {
    forall p | p in list :: p in l.prev && p in l.next
  }

  ghost predicate EndsGood(l: Links, s: SetId, list: seq<Ptr>) {
    && s in l.head && l.head[s] == (if list == [] then Null else To(list[0]))
    && s in l.end && l.end[s] == if list == [] then Head(s) else Next(list[|list| - 1])
  }

  /** From the head along next, and back along prev, the set's list is this one, and its end is where the next record goes. */
  ghost predicate Spells(l: Links, s: SetId, list: seq<Ptr>) {
    && NoDup(list) && Recorded(l, list) && EndsGood(l, s, list)
    && forall i {:trigger LinksAt(l, s, list, i)} | 0 <= i < |list| :: LinksAt(l, s, list, i)
  }

  /** A record without a set is not linked to another. */
  ghost predicate Free(recs: map<Ptr, PointerRec>, l: Links, p: Ptr)
    requires p in recs
  {
    recs[p].set_ == None ==> p in l.prev && p in l.next && l.next[p] == Null
  }

  /** The links spell the list of every set. */
  ghost predicate Coupled(sets: map<SetId, AliasSet>, recs: map<Ptr, PointerRec>, l: Links) {
    && (forall s {:trigger Spells(l, s, sets[s].list)} | s in sets :: Spells(l, s, sets[s].list))
    && (forall p {:trigger Free(recs, l, p)} | p in recs :: Free(recs, l, p))
  }

  /** The fields of other sets and of records not among these are as they were. */
  ghost predicate Untouched(l: Links, l': Links, sets: set<SetId>, recs: set<Ptr>) {
    && (forall t | t !in sets && t in l.head && t in l.end :: t in l'.head && t in l'.end && l'.head[t] == l.head[t] && l'.end[t] == l.end[t])
    && (forall p | p !in recs && p in l.prev && p in l.next :: p in l'.prev && p in l'.next && l'.prev[p] == l.prev[p] && l'.next[p] == l.next[p])
  }

  lemma OthersSpelled(l: Links, l': Links, sets: set<SetId>, recs: set<Ptr>, t: SetId, list: seq<Ptr>)
    requires Untouched(l, l', sets, recs) && Spells(l, t, list) && t !in sets && forall p | p in list :: p !in recs
    ensures Spells(l', t, list)
  {
    forall i | 0 <= i < |list| ensures LinksAt(l', t, list, i) {
      assert LinksAt(l, t, list, i) && list[i] in list;
    }
  }

  /** Lists of different sets share no record, and a record without a set is in none. */
  ghost predicate Separate(sets: map<SetId, AliasSet>, recs: map<Ptr, PointerRec>) {
    && (forall s, t, p | s in sets && t in sets && s != t && p in sets[s].list :: p !in sets[t].list)
    && (forall s, p | s in sets && p in sets[s].list :: p in recs && recs[p].set_ != None)
  }

  lemma LinkedSeparate(st: State)
    requires Linked(st)
    ensures Separate(st.sets, st.recs)
  {
    forall s, t, p | s in st.sets && t in st.sets && s != t && p in st.sets[s].list ensures p !in st.sets[t].list {
      assert ListGood(st, s) && ListGood(st, t);
    }
    forall s, p | s in st.sets && p in st.sets[s].list ensures p in st.recs && st.recs[p].set_ != None {
      assert ListGood(st, s);
    }
  }

  /** Sets that went, or changed otherwise than in their lists. */
  lemma StillCoupled(sets: map<SetId, AliasSet>, recs: map<Ptr, PointerRec>, sets': map<SetId, AliasSet>, recs': map<Ptr, PointerRec>, l: Links)
    requires Coupled(sets, recs, l) && forall t | t in sets' :: t in sets && sets'[t].list == sets[t].list
    requires forall p | p in recs' :: p in recs && (recs'[p].set_ == None ==> recs[p].set_ == None)
    ensures Coupled(sets', recs', l)
  {
    forall t | t in sets' ensures Spells(l, t, sets'[t].list) {
      assert Spells(l, t, sets[t].list);
    }
    forall p | p in recs' ensures Free(recs', l, p) {
      assert Free(recs, l, p);
    }
  }

  /** After the links of some sets, and of records in their lists, changed: those sets' lists are what is left to show. */
  lemma CoupledAgain(sets: map<SetId, AliasSet>, recs: map<Ptr, PointerRec>, sets': map<SetId, AliasSet>, recs': map<Ptr, PointerRec>,
                     l: Links, l': Links, changed: set<SetId>, moved: set<Ptr>)
    requires Coupled(sets, recs, l) && Untouched(l, l', changed, moved)
    requires forall t | t in sets' && t !in changed :: t in sets && sets'[t].list == sets[t].list && forall p | p in sets[t].list :: p !in moved
    requires forall t | t in sets' && t in changed :: Spells(l', t, sets'[t].list)
    requires forall p | p in recs' && recs'[p].set_ == None :: if p in moved then Free(recs', l', p) else p in recs && recs[p].set_ == None
    ensures Coupled(sets', recs', l')
  {
    forall t | t in sets' ensures Spells(l', t, sets'[t].list) {
      if t !in changed {
        assert Spells(l, t, sets[t].list);
        OthersSpelled(l, l', changed, moved, t, sets[t].list);
      }
    }
    forall p | p in recs' ensures Free(recs', l', p) {
      if p !in moved && recs'[p].set_ == None {
        assert Free(recs, l, p);
      }
    }
  }

  // ----- Chains -----

  lemma AppendedChain(l: Links, l': Links, s: SetId, list: seq<Ptr>, e: Ptr)
    requires Spells(l, s, list) && e !in list && e in l'.prev && e in l'.next
    requires forall p | p in list && p != list[|list| - 1] :: p in l'.prev && p in l'.next && l'.prev[p] == l.prev[p] && l'.next[p] == l.next[p]
    requires list != [] ==> var z := list[|list| - 1]; z in l'.prev && z in l'.next && l'.prev[z] == l.prev[z] && l'.next[z] == To(e)
    requires l'.prev[e] == l.end[s] && l'.next[e] == Null
    requires s in l'.head && l'.head[s] == (if list == [] then To(e) else l.head[s]) && s in l'.end && l'.end[s] == Next(e)
    ensures Spells(l', s, list + [e])
  {
    var new_ := list + [e];
    forall i | 0 <= i < |new_| ensures LinksAt(l', s, new_, i) {
      if i < |list| {
        assert LinksAt(l, s, list, i) && list[i] in list;
        assert i < |list| - 1 ==> list[i] != list[|list| - 1];
      }
    }
  }

  lemma SplicedChain(l: Links, l': Links, s: SetId, t: SetId, a: seq<Ptr>, b: seq<Ptr>)
    requires Spells(l, s, a) && Spells(l, t, b) && b != [] && s != t && forall p | p in a :: p !in b
    requires forall p | p in a || p in b :: p in l'.prev && p in l'.next
    requires forall p | p in a || p in b :: l'.prev[p] == if p == b[0] then l.end[s] else l.prev[p]
    requires forall p | p in a || p in b :: l'.next[p] == if a != [] && p == a[|a| - 1] then To(b[0]) else l.next[p]
    requires s in l'.head && l'.head[s] == (if a == [] then To(b[0]) else l.head[s]) && s in l'.end && l'.end[s] == l.end[t]
    ensures Spells(l', s, a + b)
  {
    AppendNoDup(a, b);
    forall i | 0 <= i < |a + b| ensures LinksAt(l', s, a + b, i) {
      if i < |a| {
        assert LinksAt(l, s, a, i) && a[i] in a && b[0] in b;
      } else {
        assert LinksAt(l, t, b, i - |a|) && b[i - |a|] in b;
        assert a != [] ==> a[|a| - 1] in a;
      }
    }
  }

  lemma ErasedChain(l: Links, l': Links, s: SetId, m: seq<Ptr>, k: nat, r: seq<Ptr>)
    requires Spells(l, s, m) && k < |m| && r == m[..k] + m[k + 1..]
    requires forall p | p in m :: p in l'.prev && p in l'.next
    requires forall p | p in m && p != m[k] :: l'.prev[p] == if k + 1 < |m| && p == m[k + 1] then l.prev[m[k]] else l.prev[p]
    requires forall p | p in m && p != m[k] :: l'.next[p] == if k > 0 && p == m[k - 1] then l.next[m[k]] else l.next[p]
    requires s in l'.head && l'.head[s] == (if k == 0 then l.next[m[0]] else l.head[s])
    requires s in l'.end && l'.end[s] == if k == |m| - 1 then l.prev[m[k]] else l.end[s]
    ensures Spells(l', s, r)
  {
    NoDupWithout(m, k);
    assert LinksAt(l, s, m, k);
    forall i | 0 <= i < |r| ensures LinksAt(l', s, r, i) {
      ErasedLink(l, l', s, m, k, r, i);
    }
    assert k + 1 < |m| ==> r != [];
  }

  lemma ErasedLink(l: Links, l': Links, s: SetId, m: seq<Ptr>, k: nat, r: seq<Ptr>, i: nat)
    requires Spells(l, s, m) && k < |m| && r == m[..k] + m[k + 1..] && i < |r|
    requires forall p | p in m :: p in l'.prev && p in l'.next
    requires forall p | p in m && p != m[k] :: l'.prev[p] == if k + 1 < |m| && p == m[k + 1] then l.prev[m[k]] else l.prev[p]
    requires forall p | p in m && p != m[k] :: l'.next[p] == if k > 0 && p == m[k - 1] then l.next[m[k]] else l.next[p]
    ensures LinksAt(l', s, r, i)
  {
    var j := if i < k then i else i + 1;
    assert LinksAt(l, s, m, j) && LinksAt(l, s, m, k) && m[j] in m && r[i] == m[j];
  }

  lemma NoDupWithout<T>(m: seq<T>, k: nat)
    requires NoDup(m) && k < |m|
    ensures NoDup(m[..k] + m[k + 1..])
  {
  }

  // ----- The operations -----

  class ListFields {
    var PtrList: map<SetId, Link>
    var PtrListEnd: map<SetId, Slot>
    var PrevInList: map<Ptr, Slot>
    var NextInList: map<Ptr, Link>

    ghost function Now(): Links
      reads this
    {
      Links(PtrList, PtrListEnd, PrevInList, NextInList)
    }

    constructor ()
    {
      PtrList, PtrListEnd, PrevInList, NextInList := map[], map[], map[], map[];
    }

    /** The constructor of AliasSet. */
    method NewSet(s: SetId)
      modifies this
      ensures Untouched(old(Now()), Now(), {s}, {}) && Spells(Now(), s, [])
    {
      PtrList, PtrListEnd := PtrList[s := Null], PtrListEnd[s := Head(s)];
    }

    /** The constructor of PointerRec. */
    method NewRec(p: Ptr)
      modifies this
      ensures Untouched(old(Now()), Now(), {}, {p}) && p in PrevInList && p in NextInList && NextInList[p] == Null
    {
      PrevInList, NextInList := PrevInList[p := NoSlot], NextInList[p := Null];
    }

    /** *slot = to. */
    method Store(slot: Slot, to: Link)
      modifies this
      ensures PtrListEnd == old(PtrListEnd) && PrevInList == old(PrevInList)
      ensures PtrList == if slot.Head? then old(PtrList)[slot.owner := to] else old(PtrList)
      ensures NextInList == if slot.Next? then old(NextInList)[slot.rec := to] else old(NextInList)
    {
      match slot
      case NoSlot =>
      case Head(owner) => PtrList := PtrList[owner := to];
      case Next(rec) => NextInList := NextInList[rec := to];
    }

    /** The end of addPointer: the record is stored where the list ends. */
    method Append(s: SetId, e: Ptr, ghost list: seq<Ptr>)
      requires Spells(Now(), s, list) && e !in list && e in NextInList && NextInList[e] == Null
      modifies this
      ensures Spells(Now(), s, list + [e])
      ensures Untouched(old(Now()), Now(), {s}, {e} + set p | p in list)
    {
      ghost var l := Now();
      assert list != [] ==> LinksAt(l, s, list, |list| - 1) && list[|list| - 1] in list;
      assert forall i | 0 <= i < |list| :: LinksAt(l, s, list, i);
      Store(PtrListEnd[s], To(e));
      PrevInList := PrevInList[e := PtrListEnd[s]];
      PtrListEnd := PtrListEnd[s := Next(e)];
      AppendedChain(l, Now(), s, list, e);
    }

    /** The part of mergeSetIn that moves the list of t behind that of s. */
    method Splice(s: SetId, t: SetId, ghost a: seq<Ptr>, ghost b: seq<Ptr>)
      requires Spells(Now(), s, a) && Spells(Now(), t, b) && s != t && forall p | p in a :: p !in b
      modifies this
      ensures Spells(Now(), s, a + b) && Spells(Now(), t, [])
      ensures Untouched(old(Now()), Now(), {s, t}, set p | p in a + b)
    {
      ghost var l := Now();
      assert a + b == if b == [] then a else a + b;
      if PtrList[t] != Null {
        assert forall i | 0 <= i < |a| :: LinksAt(l, s, a, i);
        assert forall i | 0 <= i < |b| :: LinksAt(l, t, b, i);
        assert b[0] in b && (a != [] ==> a[|a| - 1] in a);
        var first := PtrList[t].rec;
        Store(PtrListEnd[s], To(first));
        PrevInList := PrevInList[first := PtrListEnd[s]];
        PtrListEnd := PtrListEnd[s := PtrListEnd[t]];
        PtrList, PtrListEnd := PtrList[t := Null], PtrListEnd[t := Head(t)];
        SplicedChain(l, Now(), s, t, a, b);
      }
    }

    /**
     eraseFromList, for a record whose set is recorded as as_. The list stays well formed when
     that is the set it is in, or the record is not the last; otherwise the end of the list is
     left pointing into the record that is deleted.
     */
    method Erase(e: Ptr, as_: SetId, ghost s: SetId, ghost list: seq<Ptr>, ghost k: nat)
      requires Spells(Now(), s, list) && k < |list| && list[k] == e && as_ in PtrListEnd
      requires as_ != s ==> PtrListEnd[as_] != Next(e)
      modifies this
      ensures as_ == s || k + 1 < |list| ==> Spells(Now(), s, list[..k] + list[k + 1..])
      ensures as_ != s && k + 1 == |list| ==> s in PtrListEnd && PtrListEnd[s] == Next(e)
      ensures Untouched(old(Now()), Now(), {s}, set p | p in list)
    {
      ghost var l := Now();
      assert LinksAt(l, s, list, k) && list[k] in list;
      assert k > 0 ==> list[k - 1] in list && list[k - 1] != e;
      assert k + 1 < |list| ==> list[k + 1] in list && list[k + 1] != e && list[|list| - 1] != e;
      var prev, next := PrevInList[e], NextInList[e];
      if next != Null {
        PrevInList := PrevInList[next.rec := prev];
      }
      Store(prev, next);
      if PtrListEnd[as_] == Next(e) {
        PtrListEnd := PtrListEnd[as_ := prev];
      }
      if as_ == s || k + 1 < |list| {
        ErasedChain(l, Now(), s, list, k, list[..k] + list[k + 1..]);
      }
    }
  }
}
