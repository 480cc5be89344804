/** The tracker object. */
module AliasSetTracking {
  import opened AliasResults
  import opened AliasGroups
  import opened Components
  import opened TrackerState
  import opened TrackerSteps
  import opened AliasPartition
  import opened TrackerRuns
  import opened TrackerRemovals
  import opened CopiesAndRemovals
  import opened PointerLists
  import opened Wrappers

  /** The list has lost exactly the sets that are gone. */
  ghost predicate ListFollows(before: seq<SetId>, after: seq<SetId>, sets0: set<SetId>, sets1: set<SetId>) {
    forall t :: t in after <==> t in before && (t in sets0 ==> t in sets1)
  }

  lemma ListFollowsTrans(l0: seq<SetId>, l1: seq<SetId>, l2: seq<SetId>, k0: set<SetId>, k1: set<SetId>, k2: set<SetId>)
    requires ListFollows(l0, l1, k0, k1) && ListFollows(l1, l2, k1, k2) && k2 <= k1 <= k0
    ensures ListFollows(l0, l2, k0, k2)
  {
  }

  class AliasSetTracker {
    const AA: Oracle
    ghost const Place: Ptr -> int             // where pointers point, for the laws of the oracle
    var Sets: map<SetId, AliasSet>            // the AliasSet objects, by identity
    var AliasSets: seq<SetId>                 // the list of sets
    var PointerMap: map<Ptr, PointerRec>
    const Lists: ListFields                   // the links of the lists of pointer records
    ghost var Rep: map<SetId, SetId>
    ghost var Rank: map<SetId, nat>
    ghost var Added: map<Ptr, nat>

    ghost function Now(): State
      reads this
    {
      State(Sets, PointerMap, Rep, Rank, Added)
    }

    /**
     The list has every set once; a set that is being erased may still be in it. And the links
     of the records spell the list of every set.
     */
    ghost predicate Holds()
      reads this, Lists
    {
      NoDup(AliasSets) && (forall s | s in Sets :: s in AliasSets) && Coupled(Sets, PointerMap, Lists.Now())
    }

    ghost predicate Ready()
      reads this, Lists
    {
      Valid(Now()) && Holds() && forall s | s in AliasSets :: s in Sets
    }

    method AddRef(s: SetId)
      requires s in Sets
      modifies this`Sets
      ensures Sets == old(Sets)[s := old(Sets)[s].(refCount := old(Sets)[s].refCount + 1)]
    {
      Sets := Sets[s := Sets[s].(refCount := Sets[s].refCount + 1)];
    }

    method DropRef(s: SetId)
      requires Linked(Now()) && CountedBut(Now(), Some(s)) && Excess(Now(), s) && Holds()
      modifies this`Sets, this`Rep, this`Rank, this`AliasSets
      ensures Valid(Now()) && Holds() && Shrunk(old(Now()), Now(), s)
      ensures ListFollows(old(AliasSets), AliasSets, old(Sets).Keys, Sets.Keys)
      ensures s in Sets <==> old(References(Now(), s)) > 0
      decreases |Sets|, 2
    {
      ghost var st := Now();
      Decrement(s);
      if Sets[s].refCount == 0 {
        ghost var st1 := Now();
        RemoveAliasSet(s);
        DropOneShrunk(st, st1, s, Now());
      }
    }

    method Decrement(s: SetId)
      requires Linked(Now()) && CountedBut(Now(), Some(s)) && Excess(Now(), s) && Holds()
      modifies this`Sets
      ensures Sets == old(Sets)[s := old(Sets)[s].(refCount := old(Sets)[s].refCount - 1)]
      ensures Linked(Now()) && CountedBut(Now(), Some(s)) && Sets[s].refCount == References(Now(), s) == old(References(Now(), s))
      ensures Holds() && Shrunk(old(Now()), Now(), s) && (Sets[s].refCount > 0 ==> Valid(Now()))
    {
      ghost var st := Now();
      Sets := Sets[s := Sets[s].(refCount := Sets[s].refCount - 1)];
      DropOne(st, Now(), s);
      StillCoupled(st.sets, st.recs, Sets, PointerMap, Lists.Now());
    }

    /** removeFromTracker and removeAliasSet: the set gives up the reference to the set it forwards to. */
    method RemoveAliasSet(s: SetId)
      requires Linked(Now()) && CountedBut(Now(), Some(s)) && s in Sets && References(Now(), s) == 0 && Holds()
      modifies this`Sets, this`Rep, this`Rank, this`AliasSets
      ensures Valid(Now()) && Holds() && Shrunk(old(Now()), Now(), s) && s !in Sets
      ensures ListFollows(old(AliasSets), AliasSets, old(Sets).Keys, Sets.Keys)
      decreases |Sets|, 1
    {
      Retire(s);
      AliasSets := Without(AliasSets, s);
    }

    /** The set goes with its reference; the list is left to the caller. */
    method Retire(s: SetId)
      requires Linked(Now()) && CountedBut(Now(), Some(s)) && s in Sets && References(Now(), s) == 0 && Holds()
      modifies this`Sets, this`Rep, this`Rank, this`AliasSets
      ensures Valid(Now()) && Holds() && Shrunk(old(Now()), Now(), s) && s !in Sets
      ensures ListFollows(old(AliasSets), AliasSets, old(Sets).Keys - {s}, Sets.Keys)
      decreases |Sets|, 0
    {
      ghost var st := Now();
      var fwd := Sets[s].forward;
      RetireAll(st, s);
      SmallerMap(Sets, s);
      Forget(s);
      if fwd.Some? {
        DropRef(fwd.value);
        ShrunkTrans(st, s, fwd.value, Now());
      }
    }

    /** The object is deleted; its identity stays in the list until the list erases it. */
    method Forget(s: SetId)
      requires s in Sets
      modifies this`Sets, this`Rep, this`Rank
      ensures Now() == Retired(old(Now()), s)
    {
      Sets, Rep, Rank := Sets - {s}, Rep - {s}, Rank - {s};
    }

    /** Forward = Dest with its references: Dest gains one before the old target loses one. */
    method Redirect(s: SetId, f: SetId, d: SetId)
      requires s in Sets && d in Sets && s != d && Holds()
      requires var st := Redirected(Now(), s, d); Linked(st) && CountedBut(st, Some(f)) && Excess(st, f)
      modifies this`Sets, this`Rep, this`Rank, this`AliasSets
      ensures Valid(Now()) && Holds() && Shrunk(Redirected(old(Now()), s, d), Now(), f)
      ensures ListFollows(old(AliasSets), AliasSets, old(Sets).Keys, Sets.Keys)
    {
      PointTo(s, d);
      DropRef(f);
    }

    /** The new forwarding pointer is stored before the drop, which does not look at it. */
    method PointTo(s: SetId, d: SetId)
      requires s in Sets && d in Sets && s != d
      modifies this`Sets
      ensures Now() == Redirected(old(Now()), s, d)
    {
      AddRef(d);
      Sets := Sets[s := Sets[s].(forward := Some(d))];
    }

    /** The record's reference moves from a to d. */
    method Rename(p: Ptr, a: SetId, d: SetId)
      requires p in PointerMap && d in Sets && Holds()
      requires var st := Renamed(Now(), p, d); Linked(st) && CountedBut(st, Some(a)) && Excess(st, a)
      modifies this`Sets, this`Rep, this`Rank, this`AliasSets, this`PointerMap
      ensures Valid(Now()) && Holds() && Shrunk(Renamed(old(Now()), p, d), Now(), a)
      ensures ListFollows(old(AliasSets), AliasSets, old(Sets).Keys, Sets.Keys)
    {
      ghost var st := Now();
      NameSet(p, d);
      StillCoupled(st.sets, st.recs, Renamed(st, p, d).sets, Renamed(st, p, d).recs, Lists.Now());
      DropRef(a);
    }

    method NameSet(p: Ptr, d: SetId)
      requires p in PointerMap && d in Sets
      modifies this`Sets, this`PointerMap
      ensures Now() == Renamed(old(Now()), p, d)
    {
      PointerMap := PointerMap[p := PointerMap[p].(set_ := Some(d))];
      AddRef(d);
    }

    /** getForwardedTarget: follows forwarding to its end, leaving shortcuts behind. */
    method GetForwardedTarget(s: SetId) returns (d: SetId)
      requires Valid(Now()) && Holds() && s in Sets
      modifies this`Sets, this`Rep, this`Rank, this`AliasSets
      ensures s in old(Rep) && d == old(Rep)[s] && d in Sets && s in Sets && s in Rep && Rep[s] == d
      ensures Valid(Now()) && Holds() && Compressed(old(Now()), Now(), s)
      ensures Sets[s].forward == if d == s then None else Some(d)
      ensures ListFollows(old(AliasSets), AliasSets, old(Sets).Keys, Sets.Keys)
      decreases Above(Now(), s)
    {
      ghost var st := Now();
      assert ForwardGood(st, s);
      if Sets[s].forward == None {
        CompressedSelf(st, s);
        return s;
      }
      var f := Sets[s].forward.value;
      AboveShrinks(st, s, f);
      d := GetForwardedTarget(f);
      ghost var st1, list1, keys1 := Now(), AliasSets, Sets.Keys;
      CompressedUp(st, st1, s, f);
      assert ForwardGood(st1, s);
      if d != f {
        RedirectGood(st1, s, f);
        Redirect(s, f, d);
        ListFollowsTrans(old(AliasSets), list1, AliasSets, old(Sets).Keys, keys1, Sets.Keys);
        CompressedStep(st, st1, Now(), s, f);
      }
    }

    /** getAliasSet: resolves forwarding and moves the record's reference to the resolved set. */
    method GetAliasSet(p: Ptr) returns (d: SetId)
      requires Valid(Now()) && Holds() && p in PointerMap && PointerMap[p].set_.Some?
      modifies this`Sets, this`Rep, this`Rank, this`AliasSets, this`PointerMap
      ensures Valid(Now()) && Holds() && View(Now()) == old(View(Now()))
      ensures d in Roots(Now()) && p in Sets[d].list
      ensures PointerMap == old(PointerMap)[p := old(PointerMap)[p].(set_ := Some(d))]
      ensures ListFollows(old(AliasSets), AliasSets, old(Sets).Keys, Sets.Keys)
    {
      ghost var st := Now();
      assert RecGood(st, p);
      var a := PointerMap[p].set_.value;
      assert ForwardGood(st, a);
      d := a;
      if Sets[a].forward.Some? {
        d := GetForwardedTarget(a);
        CompressedView(st, Now(), a);
        ghost var list1, keys1 := AliasSets, Sets.Keys;
        MoveReference(p, a, d);
        ListFollowsTrans(old(AliasSets), list1, AliasSets, old(Sets).Keys, keys1, Sets.Keys);
      }
    }

    /** The record lets go of a set that forwards, and holds the set it forwards to. */
    method MoveReference(p: Ptr, a: SetId, d: SetId)
      requires Valid(Now()) && Holds() && p in PointerMap && PointerMap[p].set_ == Some(a)
      requires a in Sets && a in Rep && Rep[a] == d && d in Sets && d != a
      modifies this`Sets, this`Rep, this`Rank, this`AliasSets, this`PointerMap
      ensures Valid(Now()) && Holds() && View(Now()) == old(View(Now()))
      ensures d in Roots(Now()) && p in Sets[d].list && Sets.Keys <= old(Sets).Keys
      ensures PointerMap == old(PointerMap)[p := old(PointerMap)[p].(set_ := Some(d))]
      ensures ListFollows(old(AliasSets), AliasSets, old(Sets).Keys, Sets.Keys)
    {
      ghost var st := Now();
      RenameGood(st, p, a);
      Rename(p, a, d);
      ReferenceMoved(st, Now(), p, a);
    }

    /** Two must sets stay one only if any pointer of one must-aliases any pointer of the other. */
    method MergedKind(s: SetId, t: SetId) returns (may: bool)
      requires Valid(Now()) && Holds() && s in View(Now()) && t in View(Now())
      ensures may == Merged(AA, View(Now())[s], View(Now())[t]).may
    {
      RootsHoldSomething(Now(), s);
      RootsHoldSomething(Now(), t);
      assert KindGood(Now(), s) && KindGood(Now(), t);
      var a, b := Sets[s], Sets[t];
      may := a.may || b.may;
      if !may {
        assert Spells(Lists.Now(), s, a.list) && Spells(Lists.Now(), t, b.list);
        var l, r := Lists.PtrList[s].rec, Lists.PtrList[t].rec;
        assert l in a.list && r in b.list;
        may := AA.alias(Loc(l, PointerMap[l].size), Loc(r, PointerMap[r].size)) != MustAlias;
      }
    }

    /** The list of t moves behind that of s. */
    method MoveList(s: SetId, t: SetId)
      requires Linked(Now()) && Holds() && s in Sets && t in Sets && s != t
      modifies Lists
      ensures Spells(Lists.Now(), s, Sets[s].list + Sets[t].list) && Spells(Lists.Now(), t, [])
      ensures Untouched(old(Lists.Now()), Lists.Now(), {s, t}, set p | p in Sets[s].list + Sets[t].list)
    {
      LinkedSeparate(Now());
      assert Spells(Lists.Now(), s, Sets[s].list) && Spells(Lists.Now(), t, Sets[t].list);
      Lists.Splice(s, t, Sets[s].list, Sets[t].list);
    }

    /** The fields after the list, the instructions and the references of t moved to s. */
    method TakeOver(s: SetId, t: SetId, may: bool)
      requires s in View(Now()) && t in View(Now()) && s != t && s in Rank && t in Rank
      requires may == Merged(AA, View(Now())[s], View(Now())[t]).may
      modifies this`Sets, this`Rep, this`Rank
      ensures Now() == old(SetsMerged(AA, Now(), s, t))
    {
      var a, b := Sets[s], Sets[t];
      var refCount := a.refCount;
      if a.unknownInsts == [] && b.unknownInsts != [] {
        refCount := refCount + 1;
      }
      refCount := refCount + 1;     // t points to s now
      Sets := Sets[s := AliasSet(None, a.list + b.list, a.unknownInsts + b.unknownInsts, refCount, may)]
                  [t := AliasSet(Some(s), [], [], b.refCount, b.may)];
      Rep := map u | u in Rep :: if Rep[u] == t then s else Rep[u];
      Rank := Rank[s := Max(Rank[s], Rank[t] + 1)];
    }

    /** mergeSetIn: everything of t moves to s, and t forwards to s. */
    method MergeSetIn(s: SetId, t: SetId)
      requires Valid(Now()) && Holds() && s in View(Now()) && t in View(Now()) && s != t
      modifies Lists, this`Sets, this`Rep, this`Rank, this`AliasSets
      ensures Valid(Now()) && Holds()
      ensures View(Now()) == old((View(Now()) - {t})[s := Merged(AA, View(Now())[s], View(Now())[t])])
      ensures old(Sets).Keys - {t} <= Sets.Keys <= old(Sets).Keys
      ensures ListFollows(old(AliasSets), AliasSets, old(Sets).Keys, Sets.Keys)
    {
      var hadUnknownInsts := Sets[t].unknownInsts != [];
      MergeContents(s, t);
      if hadUnknownInsts {
        DropMerged(s, t);
      }
    }

    /** mergeSetIn up to the drop. */
    method MergeContents(s: SetId, t: SetId)
      requires Valid(Now()) && Holds() && s in View(Now()) && t in View(Now()) && s != t
      modifies Lists, this`Sets, this`Rep, this`Rank
      ensures Linked(Now()) && CountedBut(Now(), Some(t)) && Holds() && s in Roots(Now()) && Sets.Keys == old(Sets).Keys
      ensures if old(Sets)[t].unknownInsts == [] then Valid(Now()) else Excess(Now(), t) && Sets[s].unknownInsts != []
      ensures Sets[t].forward == Some(s)
      ensures View(Now()) == old((View(Now()) - {t})[s := Merged(AA, View(Now())[s], View(Now())[t])])
    {
      ghost var st, l := Now(), Lists.Now();
      ViewHasContents(st, s);
      ViewHasContents(st, t);
      var may := MergedKind(s, t);
      MoveList(s, t);
      TakeOver(s, t, may);
      SetsMergedCoupled(AA, st, l, Lists.Now(), s, t);
    }

    /** AS.dropRef, for the set just merged away. */
    method DropMerged(s: SetId, t: SetId)
      requires Linked(Now()) && CountedBut(Now(), Some(t)) && Excess(Now(), t) && Holds()
      requires s in Roots(Now()) && Sets[t].forward == Some(s) && Sets[s].unknownInsts != []
      modifies this`Sets, this`Rep, this`Rank, this`AliasSets
      ensures Valid(Now()) && Holds() && View(Now()) == old(View(Now()))
      ensures old(Sets).Keys - {t} <= Sets.Keys <= old(Sets).Keys
      ensures ListFollows(old(AliasSets), AliasSets, old(Sets).Keys, Sets.Keys)
    {
      ghost var st := Now();
      DropRef(t);
      MergeDropped(st, Now(), s, t);
    }

    /** aliasesPointer. */
    method SetAliasesPointer(s: SetId, loc: Loc) returns (r: bool)
      requires Valid(Now()) && Holds() && s in View(Now())
      ensures r == AliasesPointer(AA, View(Now())[s], loc)
    {
      assert KindGood(Now(), s) && ListGood(Now(), s);
      if !Sets[s].may {
        RootsHoldSomething(Now(), s);
        assert Spells(Lists.Now(), s, Sets[s].list);
        var p := Lists.PtrList[s].rec;
        assert p in Sets[s].list;
        return AA.alias(Loc(p, PointerMap[p].size), loc) != NoAlias;
      }
      r := SomePointerAliases(s, loc);
      if !r {
        r := SomeInstModRefs(Sets[s].unknownInsts, loc);
      }
    }

    /** The records of the set from begin to end, until one aliases the location. */
    method SomePointerAliases(s: SetId, loc: Loc) returns (r: bool)
      requires Linked(Now()) && Holds() && s in View(Now())
      ensures r <==> exists k :: 0 <= k < |View(Now())[s].entries| && Aliases(AA, loc, View(Now())[s].entries[k].Now())
    {
      assert ListGood(Now(), s) && Spells(Lists.Now(), s, Sets[s].list);
      ghost var list, es := Sets[s].list, View(Now())[s].entries;
      var cur := Lists.PtrList[s];
      ghost var k := 0;
      while cur != Null
        invariant 0 <= k <= |list| && cur == if k < |list| then To(list[k]) else Null
        invariant forall j | 0 <= j < k :: !Aliases(AA, loc, es[j].Now())
        decreases |list| - k
      {
        var p := cur.rec;
        assert LinksAt(Lists.Now(), s, list, k) && p in list;
        if AA.alias(loc, Loc(p, PointerMap[p].size)) != NoAlias {
          assert Aliases(AA, loc, es[k].Now());
          return true;
        }
        cur, k := Lists.NextInList[p], k + 1;
      }
      r := false;
    }

    method SomeInstModRefs(insts: seq<Inst>, loc: Loc) returns (r: bool)
      ensures r <==> exists k :: 0 <= k < |insts| && AA.modRef(insts[k], loc)
    {
      for k := 0 to |insts|
        invariant forall j | 0 <= j < k :: !AA.modRef(insts[j], loc)
      {
        if AA.modRef(insts[k], loc) {
          return true;
        }
      }
      r := false;
    }

    /** aliasesUnknownInst. */
    method SetAliasesUnknownInst(s: SetId, inst: Inst) returns (r: bool)
      requires Valid(Now()) && Holds() && s in View(Now())
      ensures r == AliasesUnknownInst(AA, View(Now())[s], inst)
    {
      if !inst.MayReadOrWrite() {
        return false;
      }
      r := SomeInstInterferes(Sets[s].unknownInsts, inst);
      if !r {
        r := SomePointerModRefs(s, inst);
      }
    }

    method SomeInstInterferes(insts: seq<Inst>, inst: Inst) returns (r: bool)
      ensures r <==> exists k :: 0 <= k < |insts| && InstsInterfere(AA, insts[k], inst)
    {
      for k := 0 to |insts|
        invariant forall j | 0 <= j < k :: !InstsInterfere(AA, insts[j], inst)
      {
        var i := insts[k];
        if !i.isCall || !inst.isCall || AA.callModRef(i, inst) || AA.callModRef(inst, i) {
          assert InstsInterfere(AA, i, inst);
          return true;
        }
      }
      r := false;
    }

    /** The records of the set from begin to end, until the instruction touches one. */
    method SomePointerModRefs(s: SetId, inst: Inst) returns (r: bool)
      requires Linked(Now()) && Holds() && s in View(Now())
      ensures r <==> exists k :: 0 <= k < |View(Now())[s].entries| && AA.modRef(inst, View(Now())[s].entries[k].Now())
    {
      assert ListGood(Now(), s) && Spells(Lists.Now(), s, Sets[s].list);
      ghost var list, es := Sets[s].list, View(Now())[s].entries;
      var cur := Lists.PtrList[s];
      ghost var k := 0;
      while cur != Null
        invariant 0 <= k <= |list| && cur == if k < |list| then To(list[k]) else Null
        invariant forall j | 0 <= j < k :: !AA.modRef(inst, es[j].Now())
        decreases |list| - k
      {
        var p := cur.rec;
        assert LinksAt(Lists.Now(), s, list, k) && p in list;
        if AA.modRef(inst, Loc(p, PointerMap[p].size)) {
          assert AA.modRef(inst, es[k].Now());
          return true;
        }
        cur, k := Lists.NextInList[p], k + 1;
      }
      r := false;
    }

    /** In runs that only add, under a lawful oracle: the groups are the components of what was added. */
    ghost predicate Faithful()
      reads this
    {
      Lawful(AA, Place) && Partitioned(AA, Place, View(Now()))
    }

    /** The search has dealt with the first i sets of the list. */
    ghost predicate SearchedUpTo(list: seq<SetId>, keys0: set<SetId>, v0: Groups, found: Target, i: nat)
      requires i <= |list|
      reads this, Lists
    {
      && Valid(Now()) && Holds() && Sets.Keys <= keys0 && ListFollows(list, AliasSets, keys0, Sets.Keys)
      && (forall j | i <= j < |list| :: list[j] in Sets)
      && if found == None then View(Now()) == v0 else found.value in View(Now()) && found.value in list[..i]
    }

    /** findAliasSetForPointer: the sets that alias the pointer are merged into the first of them. */
    method FindAliasSetForPointer(loc: Loc) returns (found: Target)
      requires Ready()
      modifies Lists, this`Sets, this`Rep, this`Rank, this`AliasSets
      ensures Ready() && Sets.Keys <= old(Sets).Keys
      ensures if found == None then View(Now()) == old(View(Now())) else found.value in View(Now())
      ensures old(Faithful()) ==> FoundAll(AA, Place, old(View(Now())), View(Now()), PtrItem(loc), found)
    {
      var list := AliasSets;
      ghost var v0, faithful := View(Now()), Faithful();
      if faithful {
        SearchBegins(AA, Place, v0, PtrItem(loc));
      }
      found := VisitAllForPointer(loc, list, v0, faithful);
      AllVisited(Now(), list, AliasSets, old(Sets).Keys);
      if faithful {
        SearchEnds(AA, Place, v0, View(Now()), PtrItem(loc), found, list);
      }
    }

    /** The loop over the list of sets as it was at the start. */
    method VisitAllForPointer(loc: Loc, list: seq<SetId>, ghost v0: Groups, ghost faithful: bool) returns (found: Target)
      requires Ready() && list == AliasSets && v0 == View(Now())
      requires faithful ==> Lawful(AA, Place) && Searching(AA, Place, v0, v0, PtrItem(loc), None, [])
      modifies Lists, this`Sets, this`Rep, this`Rank, this`AliasSets
      ensures Valid(Now()) && Holds() && Sets.Keys <= old(Sets).Keys
      ensures ListFollows(list, AliasSets, old(Sets).Keys, Sets.Keys)
      ensures if found == None then View(Now()) == v0 else found.value in View(Now())
      ensures faithful ==> Searching(AA, Place, v0, View(Now()), PtrItem(loc), found, list)
    {
      found := None;
      for i := 0 to |list|
        invariant SearchedUpTo(list, old(Sets).Keys, v0, found, i)
        invariant faithful ==> Searching(AA, Place, v0, View(Now()), PtrItem(loc), found, list[..i])
      {
        found := VisitForPointer(list[i], loc, found, v0, list, old(Sets).Keys, i, faithful);
      }
      assert list[..|list|] == list;
    }

    /** One set of the list, in the search for a pointer. */
    method VisitForPointer(cur: SetId, loc: Loc, found0: Target, ghost v0: Groups, ghost list: seq<SetId>, ghost keys0: set<SetId>, ghost i: nat,
             ghost faithful: bool)
      returns (found: Target)
      requires NoDup(list) && i < |list| && list[i] == cur && SearchedUpTo(list, keys0, v0, found0, i)
      requires faithful ==> Lawful(AA, Place) && Searching(AA, Place, v0, View(Now()), PtrItem(loc), found0, list[..i])
      modifies Lists, this`Sets, this`Rep, this`Rank, this`AliasSets
      ensures SearchedUpTo(list, keys0, v0, found, i + 1)
      ensures faithful ==> Searching(AA, Place, v0, View(Now()), PtrItem(loc), found, list[..i + 1])
    {
      found := found0;
      ghost var v := View(Now());
      ViewOfLinked(Now());
      assert list[..i + 1] == list[..i] + [cur];
      var aliases := false;
      if Sets[cur].forward == None {
        aliases := SetAliasesPointer(cur, loc);
        if faithful {
          PointerTest(AA, Place, v, cur, loc);
        }
      }
      if !aliases {
        if faithful {
          SearchMisses(AA, Place, v0, v, PtrItem(loc), found, list[..i], cur);
        }
      } else if found == None {
        found := Some(cur);
        if faithful {
          SearchFinds(AA, Place, v0, v, PtrItem(loc), list[..i], cur);
        }
      } else {
        if faithful {
          SearchMerges(AA, Place, v0, v, PtrItem(loc), found.value, list[..i], cur);
        }
        ghost var list1, keys1 := AliasSets, Sets.Keys;
        MergeSetIn(found.value, cur);
        ListFollowsTrans(list, list1, AliasSets, keys0, keys1, Sets.Keys);
      }
    }

    /** findAliasSetForUnknownInst. */
    method FindAliasSetForUnknownInst(inst: Inst) returns (found: Target)
      requires Ready() && inst.MayReadOrWrite()
      modifies Lists, this`Sets, this`Rep, this`Rank, this`AliasSets
      ensures Ready() && Sets.Keys <= old(Sets).Keys
      ensures if found == None then View(Now()) == old(View(Now())) else found.value in View(Now())
      ensures old(Faithful()) ==> FoundAll(AA, Place, old(View(Now())), View(Now()), InstItem(inst), found)
    {
      var list := AliasSets;
      ghost var v0, faithful := View(Now()), Faithful();
      if faithful {
        SearchBegins(AA, Place, v0, InstItem(inst));
      }
      found := VisitAllForUnknownInst(inst, list, v0, faithful);
      AllVisited(Now(), list, AliasSets, old(Sets).Keys);
      if faithful {
        SearchEnds(AA, Place, v0, View(Now()), InstItem(inst), found, list);
      }
    }

    /** The loop over the list of sets as it was at the start. */
    method VisitAllForUnknownInst(inst: Inst, list: seq<SetId>, ghost v0: Groups, ghost faithful: bool) returns (found: Target)
      requires Ready() && list == AliasSets && v0 == View(Now()) && inst.MayReadOrWrite()
      requires faithful ==> Lawful(AA, Place) && Searching(AA, Place, v0, v0, InstItem(inst), None, [])
      modifies Lists, this`Sets, this`Rep, this`Rank, this`AliasSets
      ensures Valid(Now()) && Holds() && Sets.Keys <= old(Sets).Keys
      ensures ListFollows(list, AliasSets, old(Sets).Keys, Sets.Keys)
      ensures if found == None then View(Now()) == v0 else found.value in View(Now())
      ensures faithful ==> Searching(AA, Place, v0, View(Now()), InstItem(inst), found, list)
    {
      found := None;
      for i := 0 to |list|
        invariant SearchedUpTo(list, old(Sets).Keys, v0, found, i)
        invariant faithful ==> Searching(AA, Place, v0, View(Now()), InstItem(inst), found, list[..i])
      {
        found := VisitForUnknownInst(list[i], inst, found, v0, list, old(Sets).Keys, i, faithful);
      }
      assert list[..|list|] == list;
    }

    /** One set of the list, in the search for an instruction. */
    method VisitForUnknownInst(cur: SetId, inst: Inst, found0: Target, ghost v0: Groups, ghost list: seq<SetId>, ghost keys0: set<SetId>, ghost i: nat,
             ghost faithful: bool)
      returns (found: Target)
      requires NoDup(list) && i < |list| && list[i] == cur && SearchedUpTo(list, keys0, v0, found0, i) && inst.MayReadOrWrite()
      requires faithful ==> Lawful(AA, Place) && Searching(AA, Place, v0, View(Now()), InstItem(inst), found0, list[..i])
      modifies Lists, this`Sets, this`Rep, this`Rank, this`AliasSets
      ensures SearchedUpTo(list, keys0, v0, found, i + 1)
      ensures faithful ==> Searching(AA, Place, v0, View(Now()), InstItem(inst), found, list[..i + 1])
    {
      found := found0;
      ghost var v := View(Now());
      ViewOfLinked(Now());
      assert list[..i + 1] == list[..i] + [cur];
      var aliases := false;
      if Sets[cur].forward == None {
        aliases := SetAliasesUnknownInst(cur, inst);
        if faithful {
          InstTest(AA, Place, v, cur, inst);
        }
      }
      if !aliases {
        if faithful {
          SearchMisses(AA, Place, v0, v, InstItem(inst), found, list[..i], cur);
        }
      } else if found == None {
        found := Some(cur);
        if faithful {
          SearchFinds(AA, Place, v0, v, InstItem(inst), list[..i], cur);
        }
      } else {
        if faithful {
          SearchMerges(AA, Place, v0, v, InstItem(inst), found.value, list[..i], cur);
        }
        ghost var list1, keys1 := AliasSets, Sets.Keys;
        MergeSetIn(found.value, cur);
        ListFollowsTrans(list, list1, AliasSets, keys0, keys1, Sets.Keys);
      }
    }

    /** addPointer: the record of a pointer without a set joins the end of the list. */
    method AddPointer(s: SetId, loc: Loc, knownMustAlias: bool)
      requires Settled(Now(), s) && s in View(Now()) && loc.ptr in PointerMap && PointerMap[loc.ptr] == PointerRec(None, 0) && Holds()
      modifies Lists, this`Sets, this`PointerMap, this`Added
      ensures Holds() && Valid(Now()) && Sets.Keys == old(Sets).Keys && PointerMap.Keys == old(PointerMap).Keys
      ensures View(Now()) == old(View(Now())[s := WithPointer(AA, View(Now())[s], loc, knownMustAlias)])
      ensures forall p | p in PointerMap :: PointerMap[p].set_ == if p == loc.ptr then Some(s) else old(PointerMap)[p].set_
    {
      ghost var st, l := Now(), Lists.Now();
      ViewHasContents(st, s);
      StorePointer(s, loc, knownMustAlias);
      LinkRecord(st, s, loc.ptr);
      PointerAddedCoupled(AA, st, l, Lists.Now(), s, loc, knownMustAlias);
    }

    /** The record is stored where the list ended. */
    method LinkRecord(ghost st: State, s: SetId, p: Ptr)
      requires Linked(st) && Coupled(st.sets, st.recs, Lists.Now()) && s in st.sets && p in st.recs && st.recs[p].set_ == None
      modifies Lists
      ensures Spells(Lists.Now(), s, st.sets[s].list + [p])
      ensures Untouched(old(Lists.Now()), Lists.Now(), {s}, {p} + set q | q in st.sets[s].list)
    {
      NotListed(st, p);
      assert Spells(Lists.Now(), s, st.sets[s].list) && Free(st.recs, Lists.Now(), p);
      Lists.Append(s, p, st.sets[s].list);
    }

    /** The fields of the set and the records. */
    method StorePointer(s: SetId, loc: Loc, knownMustAlias: bool)
      requires HasContents(Now(), s) && Holds() && loc.ptr in PointerMap
      modifies this`Sets, this`PointerMap, this`Added
      ensures Now() == old(PointerAdded(AA, Now(), s, loc, knownMustAlias))
    {
      var a := Sets[s];
      var may := a.may;
      assert Spells(Lists.Now(), s, a.list);
      if !a.may && !knownMustAlias && Lists.PtrList[s] != Null {
        var p := Lists.PtrList[s].rec;
        assert p == a.list[0] && p in a.list;
        if AA.alias(Loc(p, PointerMap[p].size), loc) != MustAlias {
          may := true;
        } else if loc.size > PointerMap[p].size {
          PointerMap := PointerMap[p := PointerMap[p].(size := loc.size)];
        }
      }
      PointerMap := PointerMap[loc.ptr := PointerRec(Some(s), loc.size)];
      Added := Added[loc.ptr := loc.size];
      Sets := Sets[s := a.(list := a.list + [loc.ptr], refCount := a.refCount + 1, may := may)];
    }

    /** addUnknownInst. */
    method AddUnknownInst(s: SetId, i: Inst)
      requires Settled(Now(), s) && s in View(Now()) && Holds()
      modifies this`Sets
      ensures Valid(Now()) && Holds() && Sets.Keys == old(Sets).Keys
      ensures View(Now()) == old(View(Now())[s := WithInst(View(Now())[s], i)])
    {
      ghost var st := Now();
      InstAddedGood(st, s, i);
      StoreInst(s, i);
      StillCoupled(st.sets, st.recs, Sets, PointerMap, Lists.Now());
    }

    /** The fields of the set. */
    method StoreInst(s: SetId, i: Inst)
      requires s in Sets
      modifies this`Sets
      ensures Now() == InstAdded(old(Now()), s, i)
    {
      var a := Sets[s];
      if a.unknownInsts == [] {
        AddRef(s);
      }
      Sets := Sets[s := Sets[s].(unknownInsts := a.unknownInsts + [i], may := true)];
    }

    /** A new set at the end of the list; its identity is what operator new returned. */
    method NewAliasSet(s: SetId)
      requires Ready() && s !in AliasSets
      modifies Lists, this`Sets, this`AliasSets, this`Rep, this`Rank
      ensures Settled(Now(), s) && Holds() && (forall t | t in AliasSets :: t in Sets)
      ensures Sets.Keys == old(Sets).Keys + {s} && View(Now()) == old(View(Now()))[s := EMPTY_GROUP]
      ensures AliasSets == old(AliasSets) + [s]
    {
      MakeSet(s);
      AppendNoDup(AliasSets, [s]);
      AliasSets := AliasSets + [s];
    }

    /** The set, before it is put into the list. */
    method MakeSet(s: SetId)
      requires Valid(Now()) && Holds() && s !in Sets
      modifies Lists, this`Sets, this`Rep, this`Rank
      ensures Settled(Now(), s) && Coupled(Sets, PointerMap, Lists.Now())
      ensures Sets.Keys == old(Sets).Keys + {s} && View(Now()) == old(View(Now()))[s := EMPTY_GROUP]
    {
      ghost var st, l := Now(), Lists.Now();
      StoreSet(s);
      Lists.NewSet(s);
      SetMadeCoupled(st, l, Lists.Now(), s);
    }

    method StoreSet(s: SetId)
      modifies this`Sets, this`Rep, this`Rank
      ensures Now() == SetMade(old(Now()), s)
    {
      Sets := Sets[s := AliasSet(None, [], [], 0, false)];
      Rep, Rank := Rep[s := s], Rank[s := 0];
    }

    /** Every record has been put into a set. */
    ghost predicate AllPlaced()
      reads this
    {
      forall p | p in PointerMap :: PointerMap[p].set_.Some?
    }

    /** All but the record just made for p. */
    ghost predicate AllPlacedBut(p: Ptr)
      reads this
    {
      forall q | q in PointerMap && q != p :: PointerMap[q].set_.Some?
    }

    /** getEntryFor, for a pointer without a record. */
    method NewEntry(p: Ptr)
      requires Ready() && p !in PointerMap
      modifies Lists, this`PointerMap, this`Added
      ensures Ready() && PointerMap == old(PointerMap)[p := PointerRec(None, 0)] && View(Now()) == old(View(Now()))
    {
      EntryMadeLinked(Now(), p);
      EntryMadeCounts(Now(), p);
      EntryMadeView(Now(), p);
      ghost var st := Now();
      PointerMap, Added := PointerMap[p := PointerRec(None, 0)], Added[p := 0];
      assert Now() == EntryMade(st, p);
      UnknownUnlisted(st, p);
      Lists.NewRec(p);
      CoupledAgain(st.sets, st.recs, Sets, PointerMap, old(Lists.Now()), Lists.Now(), {}, {p});
    }

    /** The pointer joins the set found, or a new one. */
    method PutPointer(found: Target, s: SetId, loc: Loc)
      requires Ready() && loc.ptr in PointerMap && PointerMap[loc.ptr] == PointerRec(None, 0)
      requires if found.Some? then s == found.value && s in View(Now()) else s !in AliasSets
      modifies this, Lists
      ensures Ready() && Sets.Keys == old(Sets).Keys + {s} && PointerMap.Keys == old(PointerMap).Keys
      ensures forall p | p in PointerMap :: PointerMap[p].set_ == if p == loc.ptr then Some(s) else old(PointerMap)[p].set_
      ensures View(Now()) == old(View(Now())[s := WithPointer(AA, Receiver(View(Now()), found), loc, false)])
    {
      if found.Some? {
        ValidSettled(Now(), s);
        AddPointer(s, loc, false);
      } else {
        PutInNewSet(s, loc);
      }
    }

    method PutInNewSet(s: SetId, loc: Loc)
      requires Ready() && loc.ptr in PointerMap && PointerMap[loc.ptr] == PointerRec(None, 0) && s !in AliasSets
      modifies this, Lists
      ensures Ready() && Sets.Keys == old(Sets).Keys + {s} && PointerMap.Keys == old(PointerMap).Keys
      ensures forall p | p in PointerMap :: PointerMap[p].set_ == if p == loc.ptr then Some(s) else old(PointerMap)[p].set_
      ensures View(Now()) == old(View(Now()))[s := WithPointer(AA, EMPTY_GROUP, loc, false)]
    {
      UpdateTwice(View(Now()), s, EMPTY_GROUP, WithPointer(AA, EMPTY_GROUP, loc, false));
      NewAliasSet(s);
      AddPointer(s, loc, false);
    }

    /** getAliasSetForPointer, for a pointer that has no set yet. */
    method PlacePointer(loc: Loc, fresh_: SetId) returns (s: SetId, isNew: bool)
      requires Ready() && fresh_ !in AliasSets && AllPlaced() && loc.ptr !in PointerMap
      modifies this, Lists
      ensures Ready() && AllPlaced() && s in View(Now()) && PointerMap.Keys == old(PointerMap).Keys + {loc.ptr}
      ensures Sets.Keys <= old(Sets).Keys + {fresh_}
      ensures old(Faithful()) ==> Extended(AA, Place, old(View(Now())), View(Now()), PtrItem(loc), isNew)
    {
      ghost var faithful, v0 := Faithful(), View(Now());
      NewEntry(loc.ptr);
      assert AllPlacedBut(loc.ptr) && View(Now()) == v0;
      s, isNew := FindAndPut(loc, fresh_, v0, faithful);
    }

    /** The search, and the pointer put where the search says. */
    method FindAndPut(loc: Loc, fresh_: SetId, ghost v0: Groups, ghost faithful: bool) returns (s: SetId, isNew: bool)
      requires Ready() && fresh_ !in AliasSets && loc.ptr in PointerMap && PointerMap[loc.ptr] == PointerRec(None, 0)
      requires AllPlacedBut(loc.ptr) && v0 == View(Now()) && (faithful ==> Lawful(AA, Place) && Partitioned(AA, Place, v0))
      modifies this, Lists
      ensures Ready() && s in View(Now()) && PointerMap.Keys == old(PointerMap).Keys && Sets.Keys <= old(Sets).Keys + {fresh_}
      ensures AllPlaced() && PointerMap[loc.ptr].set_ == Some(s)
      ensures faithful ==> Extended(AA, Place, v0, View(Now()), PtrItem(loc), isNew)
    {
      var found := FindAliasSetForPointer(loc);
      isNew := found == None;
      s := if found.Some? then found.value else fresh_;
      ghost var v := View(Now());
      PutPointer(found, s, loc);
      if faithful {
        PointerExtends(AA, Place, v0, v, loc, found, s);
      }
    }

    /** getAliasSetForPointer, for a pointer that already has a set: its recorded size may grow. */
    method ReaddPointer(loc: Loc) returns (s: SetId)
      requires Ready() && AllPlaced() && loc.ptr in PointerMap
      modifies this`Sets, this`Rep, this`Rank, this`AliasSets, this`PointerMap
      ensures Ready() && AllPlaced() && s in Roots(Now()) && PointerMap.Keys == old(PointerMap).Keys && loc.ptr in Sets[s].list
      ensures Sets.Keys <= old(Sets).Keys
      ensures loc.size <= old(PointerMap[loc.ptr]).size ==> View(Now()) == old(View(Now()))
    {
      if loc.size > PointerMap[loc.ptr].size {
        GrowRecord(loc.ptr, loc.size);
      }
      s := GetAliasSet(loc.ptr);
    }

    /** updateSizeAndAAInfo with a larger size. */
    method GrowRecord(p: Ptr, size: nat)
      requires Ready() && p in PointerMap
      modifies this`PointerMap
      ensures Ready() && PointerMap == old(PointerMap)[p := old(PointerMap)[p].(size := size)]
    {
      ghost var st := Now();
      PointerMap := PointerMap[p := PointerMap[p].(size := size)];
      GrownValid(st, Now(), p);
      StillCoupled(st.sets, st.recs, Sets, PointerMap, Lists.Now());
    }

    /** The instruction joins the set found, or a new one. */
    method PutInst(found: Target, s: SetId, inst: Inst)
      requires Ready() && if found.Some? then s == found.value && s in View(Now()) else s !in AliasSets
      modifies Lists, this`Sets, this`Rep, this`Rank, this`AliasSets
      ensures Ready() && Sets.Keys == old(Sets).Keys + {s}
      ensures View(Now()) == old(View(Now())[s := WithInst(Receiver(View(Now()), found), inst)])
    {
      if found.Some? {
        ValidSettled(Now(), s);
        AddUnknownInst(s, inst);
      } else {
        UpdateTwice(View(Now()), s, EMPTY_GROUP, WithInst(EMPTY_GROUP, inst));
        NewAliasSet(s);
        AddUnknownInst(s, inst);
      }
    }

    /** addUnknown. */
    method AddUnknown(inst: Inst, fresh_: SetId) returns (isNew: bool)
      requires Ready() && fresh_ !in AliasSets
      modifies Lists, this`Sets, this`Rep, this`Rank, this`AliasSets
      ensures Ready() && Sets.Keys <= old(Sets).Keys + {fresh_}
      ensures !Tracked(inst) ==> View(Now()) == old(View(Now()))
      ensures old(Faithful()) && Tracked(inst) ==> Extended(AA, Place, old(View(Now())), View(Now()), InstItem(inst), isNew)
    {
      if inst.isDebugInfo || !inst.MayReadOrWrite() {
        return true;
      }
      var found := FindAliasSetForUnknownInst(inst);
      isNew := found == None;
      var s := if found.Some? then found.value else fresh_;
      ghost var v := View(Now());
      PutInst(found, s, inst);
      if old(Faithful()) {
        InstExtends(AA, Place, old(View(Now())), v, inst, found, s);
      }
    }

    constructor (aa: Oracle, ghost place: Ptr -> int)
      ensures AA == aa && Place == place && fresh(Lists) && Ready() && AllPlaced() && PointerMap == map[] && Sets == map[] && View(Now()) == map[]
    {
      AA, Place := aa, place;
      Lists := new ListFields();
      Sets, AliasSets, PointerMap, Rep, Rank, Added := map[], [], map[], map[], map[], map[];
    }

    /** add: a load, store or va_arg with an address, or anything else. */
    method Add(op: Op, fresh_: SetId)
      requires Ready() && AllPlaced() && fresh_ !in AliasSets
      modifies this, Lists
      ensures Ready() && AllPlaced() && Sets.Keys <= old(Sets).Keys + {fresh_}
      ensures PointerMap.Keys == old(PointerMap).Keys + if op.AddPtr? then {op.loc.ptr} else {}
      ensures old(Faithful() && NotGrowing(op)) ==>
                Faithful() && AllItems(View(Now())) == old(AllItems(View(Now())) + LastItems(op, PointerMap.Keys))
    {
      match op
      case AddPtr(loc) =>
        AddLocation(loc, fresh_);
      case AddInst(inst) =>
        var isNew := AddUnknown(inst, fresh_);
    }

    /** add(Ptr, Size, AAInfo). */
    method AddLocation(loc: Loc, fresh_: SetId)
      requires Ready() && AllPlaced() && fresh_ !in AliasSets
      modifies this, Lists
      ensures Ready() && AllPlaced() && Sets.Keys <= old(Sets).Keys + {fresh_}
      ensures PointerMap.Keys == old(PointerMap).Keys + {loc.ptr}
      ensures old(Faithful() && NotGrowing(AddPtr(loc))) ==>
                Faithful() && AllItems(View(Now())) == old(AllItems(View(Now())) + LastItems(AddPtr(loc), PointerMap.Keys))
    {
      if loc.ptr in PointerMap {
        var s := ReaddPointer(loc);
      } else {
        var s, isNew := PlacePointer(loc, fresh_);
      }
    }

    /** A pointer that is already known is added again with no larger size. */
    ghost predicate NotGrowing(op: Op)
      reads this
    {
      op.AddPtr? && op.loc.ptr in PointerMap ==> op.loc.size <= PointerMap[op.loc.ptr].size
    }

    /** add(BasicBlock): every instruction in turn. Whatever the order, the sets are the components of the items added. */
    method AddAll(ops: seq<Op>, ids: seq<SetId>)
      requires Ready() && PointerMap == map[] && Sets == map[] && |ids| == |ops| && NoDup(ids)
      modifies this, Lists
      ensures Ready()
      ensures Lawful(AA, Place) && NoGrowth(ops) ==>
                Faithful() && AreComponents(AA, ItemsOf(ops), Parts(View(Now())))
    {
      ghost var good := Lawful(AA, Place) && NoGrowth(ops);
      EmptyRun(AA, Place, Now());
      for k := 0 to |ops|
        invariant Ready() && AllPlaced() && Unused(ids, k)
        invariant PointerMap.Keys == PtrsOf(ops[..k])
        invariant good ==> Faithful() && AllItems(View(Now())) == ItemsOf(ops[..k])
      {
        AddNext(ops, ids, k, good);
      }
      assert ops[..|ops|] == ops;
      if good {
        PartitionedAreComponents(AA, Place, View(Now()));
      }
    }

    /** The identities from k on are not in use. */
    ghost predicate Unused(ids: seq<SetId>, k: nat)
      reads this
    {
      NoDup(ids) && forall i | k <= i < |ids| :: ids[i] !in Sets
    }

    /** One operation of a run. */
    method AddNext(ops: seq<Op>, ids: seq<SetId>, k: nat, ghost good: bool)
      requires Ready() && AllPlaced() && k < |ops| == |ids| && Unused(ids, k) && PointerMap.Keys == PtrsOf(ops[..k])
      requires good ==> NoGrowth(ops) && Faithful() && AllItems(View(Now())) == ItemsOf(ops[..k])
      modifies this, Lists
      ensures Ready() && AllPlaced() && Unused(ids, k + 1) && PointerMap.Keys == PtrsOf(ops[..k + 1])
      ensures good ==> Faithful() && AllItems(View(Now())) == ItemsOf(ops[..k + 1])
    {
      PtrsSnoc(ops, k);
      if good {
        ItemsSnoc(ops, k);
        if ops[k].AddPtr? && ops[k].loc.ptr in PointerMap {
          NextNotGrowing(AA, Place, Now(), ops, k);
        }
      }
      Add(ops[k], ids[k]);
    }

    /** Dropping the spare reference of a set that does not forward. */
    method DropRoot(s: SetId)
      requires Linked(Now()) && CountedBut(Now(), Some(s)) && s in Roots(Now()) && Excess(Now(), s) && Holds()
      modifies this`Sets, this`Rep, this`Rank, this`AliasSets
      ensures Valid(Now()) && Holds() && ListFollows(old(AliasSets), AliasSets, old(Sets).Keys, Sets.Keys)
      ensures old(Sets).Keys - {s} <= Sets.Keys <= old(Sets).Keys
      ensures View(Now()) == if s in Sets then old(View(Now())) else old(View(Now())) - {s}
      ensures s in old(View(Now())) && (s !in Sets ==> old(View(Now())[s].entries) == [] && old(View(Now())[s].insts) == [])
    {
      ghost var st := Now();
      DropRef(s);
      RootDropped(st, Now(), s);
    }

    method KeepInsts(s: SetId, rest: seq<Inst>)
      requires s in Sets
      modifies this`Sets
      ensures Now() == InstsLeft(old(Now()), s, rest)
    {
      Sets := Sets[s := Sets[s].(unknownInsts := rest)];
    }

    /** removeUnknownInst: the instruction leaves a set, which may lose its last reference. */
    method RemoveUnknownInst(s: SetId, i: Inst)
      requires Valid(Now()) && Holds() && s in View(Now())
      modifies this`Sets, this`Rep, this`Rank, this`AliasSets
      ensures Valid(Now()) && Holds() && ListFollows(old(AliasSets), AliasSets, old(Sets).Keys, Sets.Keys)
      ensures old(Sets).Keys - {s} <= Sets.Keys <= old(Sets).Keys
      ensures InstLeaves(old(View(Now())), View(Now()), s, i)
    {
      ghost var st := Now();
      var hadInsts := Sets[s].unknownInsts != [];
      var rest := DropInst(Sets[s].unknownInsts, i);
      KeepInsts(s, rest);
      InstsLeftCoupled(st, Lists.Now(), s, rest, i);
      if hadInsts && rest == [] {
        DropRoot(s);
        LastInstLeft(View(st), s, i, s !in Sets);
      } else {
        InstLeft(View(st), s, i, rest);
      }
    }

    /** The call sites of a deleted instruction leave every set. */
    method RemoveFromAllSets(i: Inst)
      requires Ready()
      modifies this`Sets, this`Rep, this`Rank, this`AliasSets
      ensures Ready() && Sets.Keys <= old(Sets).Keys
      ensures InstGone(old(View(Now())), View(Now()), i)
    {
      var list := AliasSets;
      ghost var v0 := View(Now());
      for k := 0 to |list|
        invariant Valid(Now()) && Holds() && Sets.Keys <= old(Sets).Keys
        invariant ListFollows(list, AliasSets, old(Sets).Keys, Sets.Keys)
        invariant forall j | k <= j < |list| :: list[j] in Sets
        invariant InstGoing(v0, View(Now()), i, list[..k])
      {
        ghost var list1, keys1 := AliasSets, Sets.Keys;
        RemoveIfThere(list[k], i, v0, list, k);
        ListFollowsTrans(list, list1, AliasSets, old(Sets).Keys, keys1, Sets.Keys);
      }
      AllVisited(Now(), list, AliasSets, old(Sets).Keys);
      assert list[..|list|] == list;
    }

    /** One set of the list; sets that forward hold no instructions. */
    method RemoveIfThere(cur: SetId, i: Inst, ghost v0: Groups, ghost list: seq<SetId>, ghost k: nat)
      requires Valid(Now()) && Holds() && NoDup(list) && k < |list| && list[k] == cur
      requires (forall j | k <= j < |list| :: list[j] in Sets) && InstGoing(v0, View(Now()), i, list[..k])
      modifies this`Sets, this`Rep, this`Rank, this`AliasSets
      ensures Valid(Now()) && Holds() && Sets.Keys <= old(Sets).Keys
      ensures ListFollows(old(AliasSets), AliasSets, old(Sets).Keys, Sets.Keys)
      ensures (forall j | k < j < |list| :: list[j] in Sets) && InstGoing(v0, View(Now()), i, list[..k + 1])
    {
      ghost var v := View(Now());
      ViewOfLinked(Now());
      assert list[..k + 1] == list[..k] + [cur];
      if Sets[cur].forward == None {
        RemoveUnknownInst(cur, i);
      }
      InstGoingStep(v0, v, View(Now()), i, list[..k], cur);
    }

    /**
     eraseFromList looks at the end of the list of the set that the record names. That is the
     list the record is in, because getAliasSet has just resolved it.
     */
    method EraseLinks(p: Ptr, s: SetId)
      requires Linked(Now()) && Holds() && s in Sets && NoDup(Sets[s].list) && p in Sets[s].list
      requires p in PointerMap && PointerMap[p].set_ == Some(s)
      modifies Lists
      ensures Spells(Lists.Now(), s, Without(Sets[s].list, p))
      ensures Untouched(old(Lists.Now()), Lists.Now(), {s}, set q | q in Sets[s].list)
    {
      assert Spells(Lists.Now(), s, Sets[s].list);
      ghost var k := PlaceOf(Sets[s].list, p);
      Lists.Erase(p, PointerMap[p].set_.value, s, Sets[s].list, k);
    }

    /** eraseFromList and the removal from the map: the record goes before the drop, which does not look at it. */
    method Unlink(p: Ptr, s: SetId)
      requires Linked(Now()) && Holds() && s in Roots(Now()) && NoDup(Sets[s].list) && p in Sets[s].list
      requires p in PointerMap && PointerMap[p].set_ == Some(s)
      modifies Lists, this`Sets, this`PointerMap, this`Added
      ensures Now() == RecordErased(old(Now()), s, p, Without(old(Sets)[s].list, p)) && Holds()
    {
      ghost var st := Now();
      EraseLinks(p, s);
      Sets := Sets[s := Sets[s].(list := Without(Sets[s].list, p))];
      PointerMap, Added := PointerMap - {p}, Added - {p};
      ErasedCoupled(st, Now(), old(Lists.Now()), Lists.Now(), s, p);
    }

    /** The record goes, with the reference it held. */
    method EraseRecord(p: Ptr, s: SetId)
      requires Valid(Now()) && Holds() && p in PointerMap && PointerMap[p].set_ == Some(s) && s in Roots(Now()) && p in Sets[s].list
      modifies this, Lists
      ensures Valid(Now()) && Holds() && PointerMap == old(PointerMap) - {p}
      ensures ListFollows(old(AliasSets), AliasSets, old(Sets).Keys, Sets.Keys)
      ensures old(Sets).Keys - {s} <= Sets.Keys <= old(Sets).Keys
      ensures EntryLeaves(old(View(Now())), View(Now()), s, p)
    {
      assert ListGood(Now(), s);
      RecordErasedGood(Now(), s, p);
      ghost var v0 := View(Now());
      Unlink(p, s);
      DropRoot(s);
      EntryLeft(v0, s, p, s !in Sets);
    }

    /** deleteValue, for a pointer that may also be an instruction. */
    method DeleteValue(p: Ptr, inst: DeletedInst)
      requires Ready() && AllPlaced()
      modifies this, Lists
      ensures Ready() && AllPlaced() && PointerMap.Keys == old(PointerMap).Keys - {p}
      ensures ValueGone(old(View(Now())), View(Now()), p, inst)
    {
      ghost var v0 := View(Now());
      if inst.Deleted? && inst.inst.MayReadOrWrite() {
        RemoveFromAllSets(inst.inst);
      }
      ghost var v1 := View(Now());
      if p !in PointerMap {
        NowhereListed(Now(), p);
        AbsentGone(v0, v1, p, inst);
        return;
      }
      var s := GetAliasSet(p);
      ElsewhereAbsent(Now(), p, s);
      EraseRecord(p, s);
      PresentGone(v0, v1, View(Now()), p, s, inst);
    }

    /** getAliasSet between two operations. */
    method Resolve(p: Ptr) returns (d: SetId)
      requires Ready() && p in PointerMap && PointerMap[p].set_.Some?
      modifies this`Sets, this`Rep, this`Rank, this`AliasSets, this`PointerMap
      ensures Ready() && Settled(Now(), d) && d in View(Now()) && View(Now()) == old(View(Now()))
      ensures PointerMap == old(PointerMap)[p := old(PointerMap)[p].(set_ := Some(d))]
    {
      d := GetAliasSet(p);
      ViewOfLinked(Now());
      ValidSettled(Now(), d);
    }

    /** The record made for a copy joins the set of the original. */
    method JoinKnown(from: Ptr, to: Ptr) returns (d: SetId)
      requires Ready() && from in PointerMap && to in PointerMap && PointerMap[from].set_.Some? && PointerMap[to] == PointerRec(None, 0)
      requires AllPlacedBut(to)
      modifies this, Lists
      ensures Ready() && AllPlaced() && PointerMap.Keys == old(PointerMap).Keys && d in old(View(Now()))
      ensures PointerMap[from].set_ == PointerMap[to].set_ == Some(d) && HasEntry(old(View(Now()))[d], from, old(PointerMap)[from].size)
      ensures View(Now()) == old(View(Now()))[d := WithPointer(AA, old(View(Now()))[d], Loc(to, old(PointerMap)[from].size), true)]
    {
      ghost var v, size := View(Now()), PointerMap[from].size;
      d := Resolve(from);
      assert View(Now()) == v && PointerMap[from].size == size;
      RecordHasEntry(Now(), from, d);
      AddPointer(d, Loc(to, PointerMap[from].size), true);
    }

    /** copyValue: a new value joins the set of the value it copies, at the size recorded for it and without a question. */
    method CopyValue(from: Ptr, to: Ptr) returns (s: Target)
      requires Ready() && AllPlaced()
      modifies this, Lists
      ensures Ready() && AllPlaced() && PointerMap.Keys == old(PointerMap).Keys + if from in old(PointerMap) then {to} else {}
      ensures s == None <==> from !in old(PointerMap) || to in old(PointerMap)
      ensures s == None ==> View(Now()) == old(View(Now()))
      ensures s.Some? ==>
                && s.value in old(View(Now())) && PointerMap[from].set_ == PointerMap[to].set_ == s
                && View(Now()) == old(View(Now()))[s.value := WithPointer(AA, old(View(Now()))[s.value], Loc(to, old(PointerMap)[from].size), true)]
      ensures s.Some? && old(Faithful()) && Place(from) == Place(to) && old(PointerMap)[from].size > 0 ==>
                Extended(AA, Place, old(View(Now())), View(Now()), PtrItem(Loc(to, old(PointerMap)[from].size)), false)
    {
      if from !in PointerMap || to in PointerMap {
        return None;
      }
      ghost var faithful, v, size := Faithful(), View(Now()), PointerMap[from].size;
      var d := CopyKnown(from, to);
      s := Some(d);
      if faithful && Place(from) == Place(to) && size > 0 {
        CopyOfExtends(AA, Place, v, d, from, size, to);
      }
    }

    /** A new record for a value not known yet, in the set of the original. */
    method CopyKnown(from: Ptr, to: Ptr) returns (d: SetId)
      requires Ready() && AllPlaced() && from in PointerMap && to !in PointerMap
      modifies this, Lists
      ensures Ready() && AllPlaced() && PointerMap.Keys == old(PointerMap).Keys + {to}
      ensures d in old(View(Now())) && PointerMap[from].set_ == PointerMap[to].set_ == Some(d)
      ensures HasEntry(old(View(Now()))[d], from, old(PointerMap)[from].size)
      ensures View(Now()) == old(View(Now()))[d := WithPointer(AA, old(View(Now()))[d], Loc(to, old(PointerMap)[from].size), true)]
    {
      NewEntry(to);
      d := JoinKnown(from, to);
    }
  }

  lemma MergedCoupled(st: State, st': State, l: Links, l': Links, s: SetId, t: SetId)
    requires Linked(st) && Coupled(st.sets, st.recs, l) && s in st.sets && t in st.sets && s != t
    requires st'.sets.Keys == st.sets.Keys && st'.recs == st.recs
    requires forall u | u in st.sets :: st'.sets[u].list ==
               if u == s then st.sets[s].list + st.sets[t].list else if u == t then [] else st.sets[u].list
    requires Spells(l', s, st.sets[s].list + st.sets[t].list) && Spells(l', t, [])
    requires Untouched(l, l', {s, t}, set p | p in st.sets[s].list + st.sets[t].list)
    ensures Coupled(st'.sets, st'.recs, l')
  {
    LinkedSeparate(st);
    CoupledAgain(st.sets, st.recs, st'.sets, st'.recs, l, l', {s, t}, set p | p in st.sets[s].list + st.sets[t].list);
  }

  lemma PointerCoupled(st: State, st': State, l: Links, l': Links, s: SetId, p: Ptr)
    requires Linked(st) && Coupled(st.sets, st.recs, l) && s in st.sets && st'.sets.Keys == st.sets.Keys
    requires p in st.recs && st.recs[p].set_ == None && st'.recs.Keys == st.recs.Keys
    requires forall q | q in st.recs :: st'.recs[q].set_ == if q == p then Some(s) else st.recs[q].set_
    requires forall u | u in st.sets :: st'.sets[u].list == if u == s then st.sets[s].list + [p] else st.sets[u].list
    requires Spells(l', s, st.sets[s].list + [p]) && Untouched(l, l', {s}, {p} + set q | q in st.sets[s].list)
    ensures Coupled(st'.sets, st'.recs, l')
  {
    LinkedSeparate(st);
    NotListed(st, p);
    CoupledAgain(st.sets, st.recs, st'.sets, st'.recs, l, l', {s}, {p} + set q | q in st.sets[s].list);
  }

  lemma ErasedCoupled(st: State, st': State, l: Links, l': Links, s: SetId, p: Ptr)
    requires Linked(st) && Coupled(st.sets, st.recs, l) && s in st.sets && NoDup(st.sets[s].list)
    requires st' == RecordErased(st, s, p, Without(st.sets[s].list, p))
    requires Spells(l', s, Without(st.sets[s].list, p)) && Untouched(l, l', {s}, set q | q in st.sets[s].list)
    ensures Coupled(st'.sets, st'.recs, l')
  {
    LinkedSeparate(st);
    CoupledAgain(st.sets, st.recs, st'.sets, st'.recs, l, l', {s}, set q | q in st.sets[s].list);
  }

  lemma ViewHasContents(st: State, s: SetId)
    requires s in View(st)
    ensures HasContents(st, s)
  {
  }

  /** Everything addPointer promises, of the state it leaves. */
  lemma PointerAddedCoupled(aa: Oracle, st: State, l: Links, l': Links, s: SetId, loc: Loc, known: bool)
    requires Settled(st, s) && s in View(st) && HasContents(st, s) && loc.ptr in st.recs && st.recs[loc.ptr].set_ == None
    requires Coupled(st.sets, st.recs, l) && Spells(l', s, st.sets[s].list + [loc.ptr])
    requires Untouched(l, l', {s}, {loc.ptr} + set q | q in st.sets[s].list)
    ensures var st' := PointerAdded(aa, st, s, loc, known);
            && Valid(st') && View(st') == View(st)[s := WithPointer(aa, View(st)[s], loc, known)]
            && st'.sets.Keys == st.sets.Keys && st'.recs.Keys == st.recs.Keys && Coupled(st'.sets, st'.recs, l')
            && forall p | p in st'.recs :: st'.recs[p].set_ == if p == loc.ptr then Some(s) else st.recs[p].set_
  {
    PointerAddedGood(aa, st, s, loc, known);
    GrownKeepsSets(aa, st, s, loc, known);
    PointerCoupled(st, PointerAdded(aa, st, s, loc, known), l, l', s, loc.ptr);
  }

  /** Everything up to the drop in mergeSetIn. */
  lemma SetsMergedCoupled(aa: Oracle, st: State, l: Links, l': Links, s: SetId, t: SetId)
    requires Valid(st) && s in View(st) && t in View(st) && s != t && HasContents(st, s) && HasContents(st, t)
    requires Coupled(st.sets, st.recs, l) && Spells(l', s, st.sets[s].list + st.sets[t].list) && Spells(l', t, [])
    requires Untouched(l, l', {s, t}, set p | p in st.sets[s].list + st.sets[t].list)
    ensures var st' := SetsMerged(aa, st, s, t);
            && Linked(st') && CountedBut(st', Some(t)) && s in Roots(st') && Coupled(st'.sets, st'.recs, l')
            && (if st.sets[t].unknownInsts == [] then Valid(st') else Excess(st', t) && st'.sets[s].unknownInsts != [])
            && st'.sets[t].forward == Some(s) && st'.sets.Keys == st.sets.Keys
            && View(st') == (View(st) - {t})[s := Merged(aa, View(st)[s], View(st)[t])]
  {
    MergedGood(aa, st, s, t);
    MergedCoupled(st, SetsMerged(aa, st, s, t), l, l', s, t);
  }

  lemma SetMadeCoupled(st: State, l: Links, l': Links, s: SetId)
    requires Valid(st) && Coupled(st.sets, st.recs, l) && s !in st.sets && Untouched(l, l', {s}, {}) && Spells(l', s, [])
    ensures var st' := SetMade(st, s);
            Settled(st', s) && Coupled(st'.sets, st'.recs, l') && View(st') == View(st)[s := EMPTY_GROUP]
  {
    SetMadeGood(st, s);
    CoupledAgain(st.sets, st.recs, SetMade(st, s).sets, st.recs, l, l', {s}, {});
  }

  lemma InstsLeftCoupled(st: State, l: Links, s: SetId, rest: seq<Inst>, i: Inst)
    requires Valid(st) && s in View(st) && InstFreed(st.sets[s].unknownInsts, rest, i) && Coupled(st.sets, st.recs, l)
    ensures var st' := InstsLeft(st, s, rest);
            && Linked(st') && CountedBut(st', Some(s)) && s in Roots(st') && Coupled(st'.sets, st'.recs, l)
            && (if st.sets[s].unknownInsts != [] && rest == [] then Excess(st', s) else Valid(st'))
            && View(st') == View(st)[s := View(st)[s].(insts := rest)]
  {
    InstsLeftGood(st, s, rest, i);
    StillCoupled(st.sets, st.recs, InstsLeft(st, s, rest).sets, st.recs, l);
  }

  lemma UnknownUnlisted(st: State, p: Ptr)
    requires Linked(st) && p !in st.recs
    ensures forall t | t in st.sets :: p !in st.sets[t].list
  {
    forall t | t in st.sets ensures p !in st.sets[t].list {
      assert ListGood(st, t);
    }
  }

  /** Where a record is in its list. */
  lemma PlaceOf(list: seq<Ptr>, p: Ptr) returns (k: nat)
    requires NoDup(list) && p in list
    ensures k < |list| && list[k] == p && Without(list, p) == list[..k] + list[k + 1..]
  {
    if list[0] == p {
      k := 0;
    } else {
      assert NoDup(list[1..]) by {
        assert forall i | 0 <= i < |list| - 1 :: list[1..][i] == list[i + 1];
      }
      k := PlaceOf(list[1..], p);
      k := k + 1;
      assert list[..k] == [list[0]] + list[1..][..k - 1];
    }
  }

  /** Only the recorded size of p differs. */
  ghost predicate Grown(st: State, st': State, p: Ptr) {
    p in st.recs && p in st'.recs && st' == st.(recs := st.recs[p := st.recs[p].(size := st'.recs[p].size)])
  }

  lemma GrownValid(st: State, st': State, p: Ptr)
    requires Valid(st) && Grown(st, st', p)
    ensures Valid(st')
  {
    GrownLinked(st, st', p);
    forall s | s in st'.sets ensures CountGood(st', s) {
      assert CountGood(st, s);
      assert RecRefs(st', s) == RecRefs(st, s) && SetRefs(st', s) == SetRefs(st, s);
    }
  }

  lemma GrownLinked(st: State, st': State, p: Ptr)
    requires Linked(st) && Grown(st, st', p)
    ensures Linked(st')
  {
    forall s | s in st'.sets ensures ForwardGood(st', s) && KindGood(st', s) {
      assert ForwardGood(st, s) && KindGood(st, s);
    }
    forall s | s in st'.sets ensures ListGood(st', s) {
      assert ListGood(st, s);
    }
    forall q | q in st'.recs ensures RecGood(st', q) {
      assert RecGood(st, q);
    }
  }

  /** Dropping a reference to a set that forwards changes nothing a reader sees. */
  lemma ShrunkView(st1: State, st2: State, st3: State, a: SetId)
    requires Valid(st1) && st2.rep == st1.rep && st2.rank == st1.rank && Roots(st2) == Roots(st1)
    requires forall t | t in Roots(st1) :: st2.sets[t].list == st1.sets[t].list && st2.sets[t].unknownInsts == st1.sets[t].unknownInsts
    requires a in st2.sets && Shrunk(st2, st3, a)
    ensures View(st3) == View(st2) && Roots(st3) == Roots(st2)
  {
    forall t | t in Roots(st2) ensures t in st3.sets {
      RootsHoldSomething(st1, t);
    }
    assert Roots(st3) == Roots(st2);
    SameContents(st2, st3);
  }

  lemma RecordAtEnd(st1: State, st3: State, p: Ptr, a: SetId)
    requires Linked(st1) && Linked(st3) && p in st1.recs && st1.recs[p].set_ == Some(a) && a in st1.sets && a in st1.rep
    requires p in st3.recs && st3.recs[p].set_ == Some(st1.rep[a]) && Roots(st3) == Roots(st1)
    ensures st1.rep[a] in Roots(st3) && p in st3.sets[st1.rep[a]].list
  {
    assert ForwardGood(st1, a);
    assert st1.rep[a] in Roots(st1);
    assert ForwardGood(st3, st1.rep[a]);
    assert RecGood(st3, p);
  }

  /** The record has moved to the end of the forwarding, and no reader sees a difference. */
  lemma ReferenceMoved(st: State, st': State, p: Ptr, a: SetId)
    requires Valid(st) && Valid(st') && p in st.recs && st.recs[p].set_ == Some(a) && a in st.sets && a in st.rep && st.rep[a] in st.sets && st.rep[a] != a
    requires a in Renamed(st, p, st.rep[a]).sets && Shrunk(Renamed(st, p, st.rep[a]), st', a)
    ensures View(st') == View(st) && st.rep[a] in Roots(st') && p in st'.sets[st.rep[a]].list
    ensures st'.recs == st.recs[p := st.recs[p].(set_ := Some(st.rep[a]))]
  {
    RenameGood(st, p, a);
    ShrunkView(st, Renamed(st, p, st.rep[a]), st', a);
    RecordAtEnd(st, st', p, a);
  }

  /** Dropping the spare reference of a set just merged away can only remove that set. */
  lemma MergeDropped(st1: State, st2: State, s: SetId, t: SetId)
    requires Linked(st1) && Linked(st2) && s in Roots(st1) && t in st1.sets && st1.sets[t].forward == Some(s) && st1.sets[s].unknownInsts != []
    requires Shrunk(st1, st2, t)
    ensures View(st2) == View(st1) && st1.sets.Keys - {t} <= st2.sets.Keys
  {
    assert s in st2.sets;
    assert OthersStay(st1, st2, t);
    assert Roots(st2) == Roots(st1);
    SameContents(st1, st2);
  }

  /** Every set left was in the list that was walked. */
  lemma AllVisited(st: State, list: seq<SetId>, list': seq<SetId>, keys: set<SetId>)
    requires Linked(st) && ListFollows(list, list', keys, st.sets.Keys) && (forall s | s in list :: s in keys)
    requires forall s | s in st.sets :: s in list'
    ensures forall s | s in View(st) :: s in list
    ensures forall s | s in list' :: s in st.sets
  {
  }

  lemma SmallerMap<T>(m: map<SetId, T>, s: SetId)
    requires s in m
    ensures |m - {s}| < |m|
  {
    assert (m - {s}).Keys == m.Keys - {s};
    assert |(m - {s}).Keys| == |m - {s}| && |m.Keys| == |m|;
  }

  lemma RetireAll(st: State, s: SetId)
    requires Linked(st) && CountedBut(st, Some(s)) && s in st.sets && References(st, s) == 0
    ensures Linked(Retired(st, s)) && CountedBut(Retired(st, s), st.sets[s].forward)
    ensures st.sets[s].list == [] && st.sets[s].unknownInsts == []
    ensures st.sets[s].forward == None ==> Shrunk(st, Retired(st, s), s)
    ensures st.sets[s].forward.Some? ==>
              var f := st.sets[s].forward.value; f in st.sets && f != s && Excess(Retired(st, s), f)
  {
    RetireLinked(st, s);
    RetireCounts(st, s);
    NoneForwardsTo(st, s);
    assert ForwardGood(st, s);
  }

  lemma DropOneShrunk(st: State, st1: State, s: SetId, st2: State)
    requires s in st.sets && s in st1.sets && st1 == st.(sets := st.sets[s := st.sets[s].(refCount := st1.sets[s].refCount)])
    requires Shrunk(st1, st2, s)
    ensures Shrunk(st, st2, s)
  {
  }

  lemma DropOne(st: State, st1: State, s: SetId)
    requires Linked(st) && CountedBut(st, Some(s)) && Excess(st, s)
    requires st1 == st.(sets := st.sets[s := st.sets[s].(refCount := st.sets[s].refCount - 1)])
    ensures Linked(st1) && CountedBut(st1, Some(s)) && st1.sets[s].refCount == References(st1, s) == References(st, s)
    ensures st1.sets[s].refCount > 0 ==> CountedBut(st1, None)
    ensures Shrunk(st, st1, s)
  {
    CountsIrrelevant(st, st1);
    forall t | t in st1.sets && t != s ensures CountGood(st1, t) {
      assert CountGood(st, t);
    }
    if st1.sets[s].refCount > 0 {
      assert CountGood(st1, s);
    }
  }
}
