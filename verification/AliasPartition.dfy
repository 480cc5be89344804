/** The groups of a tracker as a partition of everything added to it. */
module AliasPartition {
  import opened AliasResults
  import opened AliasGroups
  import opened Components
  import opened TrackerState
  import opened Wrappers

  type Groups = map<SetId, Group>

  ghost function AllItems(v: Groups): set<Item> {
    set s, x | s in v && x in Items(v[s]) :: x
  }

  ghost function Parts(v: Groups): set<set<Item>> {
    set s | s in v :: Items(v[s])
  }

  ghost predicate KeptAt(place: Ptr -> int, v: Groups, s: SetId)
    requires s in v
  {
    GroupKept(place, v[s]) && Items(v[s]) != {}
  }

  ghost predicate ConnectedAt(aa: Oracle, v: Groups, s: SetId)
    requires s in v
  {
    Connected(aa, Items(v[s]))
  }

  ghost predicate ApartAt(aa: Oracle, v: Groups, s: SetId, t: SetId)
    requires s in v && t in v
  {
    s != t ==> Unrelated(aa, Items(v[s]), Items(v[t]))
  }

  /** Each group has the shape its kind promises and no two groups are related. */
  ghost predicate Separated(aa: Oracle, place: Ptr -> int, v: Groups) {
    && (forall s {:trigger KeptAt(place, v, s)} | s in v :: KeptAt(place, v, s))
    && (forall s, t {:trigger ApartAt(aa, v, s, t)} | s in v && t in v :: ApartAt(aa, v, s, t))
  }

  /** The groups are the components of the items. */
  ghost predicate Partitioned(aa: Oracle, place: Ptr -> int, v: Groups) {
    Separated(aa, place, v) && forall s {:trigger ConnectedAt(aa, v, s)} | s in v :: ConnectedAt(aa, v, s)
  }

  lemma PartitionedAreComponents(aa: Oracle, place: Ptr -> int, v: Groups)
    requires Partitioned(aa, place, v)
    ensures AreComponents(aa, AllItems(v), Parts(v))
  {
    var all, parts := AllItems(v), Parts(v);
    forall p | p in parts ensures GoodPart(aa, all, p) {
      var s :| s in v && p == Items(v[s]);
      assert KeptAt(place, v, s) && ConnectedAt(aa, v, s);
    }
    forall x | x in all ensures Covered(parts, x) {
      var s :| s in v && x in Items(v[s]);
      assert Items(v[s]) in parts;
    }
    forall p, q | p in parts && q in parts ensures SameOrUnrelated(aa, p, q) {
      var s :| s in v && p == Items(v[s]);
      var t :| t in v && q == Items(v[t]);
      assert ApartAt(aa, v, s, t);
    }
  }

  // ----- While an item is being added -----

  /** The groups are components except that the one found so far needs the new item to be connected. */
  ghost predicate Joining(aa: Oracle, place: Ptr -> int, v: Groups, x: Item, found: Target) {
    && Separated(aa, place, v)
    && (forall s {:trigger ConnectedAt(aa, v, s)} | s in v && Some(s) != found :: ConnectedAt(aa, v, s))
    && (found.Some? ==>
          && found.value in v && RelatedToSome(aa, x, Items(v[found.value]))
          && Connected(aa, Items(v[found.value]) + {x}))
  }

  lemma JoinFirst(aa: Oracle, place: Ptr -> int, v: Groups, x: Item, t: SetId)
    requires Lawful(aa, place) && Joining(aa, place, v, x, None) && t in v && RelatedToSome(aa, x, Items(v[t]))
    ensures Joining(aa, place, v, x, Some(t))
  {
    assert ConnectedAt(aa, v, t);
    SingletonConnected(aa, x);
    JoinConnected(aa, place, {x}, Items(v[t]), x);
    assert Items(v[t]) + {x} == {x} + Items(v[t]);
  }

  lemma MergedSeparated(aa: Oracle, place: Ptr -> int, v: Groups, f: SetId, t: SetId)
    requires Lawful(aa, place) && Separated(aa, place, v) && f in v && t in v && f != t
    ensures Separated(aa, place, (v - {t})[f := Merged(aa, v[f], v[t])])
    ensures AllItems((v - {t})[f := Merged(aa, v[f], v[t])]) == AllItems(v)
  {
    var v' := (v - {t})[f := Merged(aa, v[f], v[t])];
    assert KeptAt(place, v, f) && KeptAt(place, v, t) && ApartAt(aa, v, f, t);
    MergedIsMay(aa, place, v[f], v[t]);
    ItemsOfMerged(aa, v[f], v[t]);
    forall s | s in v' ensures KeptAt(place, v', s) {
      assert s != f ==> KeptAt(place, v, s);
    }
    forall s, u | s in v' && u in v' ensures ApartAt(aa, v', s, u) {
      assert ApartAt(aa, v, s, u) && ApartAt(aa, v, s, t) && ApartAt(aa, v, t, u);
    }
    MergedAllItems(aa, v, f, t);
  }

  lemma MergedAllItems(aa: Oracle, v: Groups, f: SetId, t: SetId)
    requires f in v && t in v && f != t
    ensures AllItems((v - {t})[f := Merged(aa, v[f], v[t])]) == AllItems(v)
  {
    var v' := (v - {t})[f := Merged(aa, v[f], v[t])];
    ItemsOfMerged(aa, v[f], v[t]);
    forall x | x in AllItems(v) ensures x in AllItems(v') {
      var s :| s in v && x in Items(v[s]);
      assert if s == f || s == t then x in Items(v'[f]) else x in Items(v'[s]);
    }
    forall x | x in AllItems(v') ensures x in AllItems(v) {
      var s :| s in v' && x in Items(v'[s]);
      assert if s == f then x in Items(v[f]) || x in Items(v[t]) else x in Items(v[s]);
    }
  }

  /** Merging another related group into the one found. */
  lemma JoinMore(aa: Oracle, place: Ptr -> int, v: Groups, x: Item, f: SetId, t: SetId)
    requires Lawful(aa, place) && Joining(aa, place, v, x, Some(f)) && t in v && f != t && RelatedToSome(aa, x, Items(v[t]))
    ensures var v' := (v - {t})[f := Merged(aa, v[f], v[t])];
            Joining(aa, place, v', x, Some(f)) && AllItems(v') == AllItems(v)
  {
    var v' := (v - {t})[f := Merged(aa, v[f], v[t])];
    MergedSeparated(aa, place, v, f, t);
    assert ConnectedAt(aa, v, t);
    JoinConnected(aa, place, Items(v[f]) + {x}, Items(v[t]), x);
    ItemsOfMerged(aa, v[f], v[t]);
    assert Items(v'[f]) + {x} == Items(v[f]) + {x} + Items(v[t]);
    forall s | s in v' && s != f ensures ConnectedAt(aa, v', s) {
      assert ConnectedAt(aa, v, s);
    }
    assert RelatedToSome(aa, x, Items(v'[f]));
  }

  /** No group but the one found is related to the item. */
  ghost predicate OthersUnrelated(aa: Oracle, v: Groups, x: Item, found: Target) {
    forall s | s in v && Some(s) != found :: !RelatedToSome(aa, x, Items(v[s]))
  }

  /** The item joins the group found: the groups are components again. */
  lemma JoinDone(aa: Oracle, place: Ptr -> int, v: Groups, x: Item, f: SetId, g: Group)
    requires Lawful(aa, place) && Joining(aa, place, v, x, Some(f)) && OthersUnrelated(aa, v, x, Some(f))
    requires GroupKept(place, g) && Items(g) == Items(v[f]) + {x}
    ensures Partitioned(aa, place, v[f := g]) && AllItems(v[f := g]) == AllItems(v) + {x}
  {
    var v' := v[f := g];
    forall s | s in v' ensures KeptAt(place, v', s) && ConnectedAt(aa, v', s) {
      assert KeptAt(place, v, s);
      assert s != f ==> ConnectedAt(aa, v, s);
    }
    forall s, t | s in v' && t in v' ensures ApartAt(aa, v', s, t) {
      assert ApartAt(aa, v, s, t);
      NewItemApart(aa, place, v, x, f, g, s, t);
    }
    AddedAllItems(v, x, f, g);
  }

  lemma NewItemApart(aa: Oracle, place: Ptr -> int, v: Groups, x: Item, f: SetId, g: Group, s: SetId, t: SetId)
    requires Lawful(aa, place) && (f in v ==> Items(g) == Items(v[f]) + {x}) && (f !in v ==> Items(g) == {x})
    requires OthersUnrelated(aa, v, x, Some(f)) && s in v[f := g] && t in v[f := g]
    requires s in v && t in v ==> ApartAt(aa, v, s, t)
    ensures ApartAt(aa, v[f := g], s, t)
  {
    var v' := v[f := g];
    if s != t {
      forall y, z | y in Items(v'[s]) && z in Items(v'[t]) ensures !Related(aa, y, z) {
        RelatedSymmetric(aa, place, y, z);
        if s == f && y == x {
          assert !RelatedToSome(aa, x, Items(v[t]));
        } else if t == f && z == x {
          assert !RelatedToSome(aa, x, Items(v[s]));
        }
      }
    }
  }

  lemma AddedAllItems(v: Groups, x: Item, f: SetId, g: Group)
    requires if f in v then Items(g) == Items(v[f]) + {x} else Items(g) == {x}
    ensures AllItems(v[f := g]) == AllItems(v) + {x}
  {
    var v' := v[f := g];
    assert f in v' && x in Items(v'[f]);
    forall y | y in AllItems(v) ensures y in AllItems(v') {
      var s :| s in v && y in Items(v[s]);
      assert s in v' && y in Items(v'[s]);
    }
    forall y | y in AllItems(v') ensures y in AllItems(v) + {x} {
      var s :| s in v' && y in Items(v'[s]);
      assert y != x ==> s in v && y in Items(v[s]);
    }
  }

  /** The item is related to nothing: it is a group of its own. */
  lemma AloneDone(aa: Oracle, place: Ptr -> int, v: Groups, x: Item, n: SetId, g: Group)
    requires Lawful(aa, place) && Joining(aa, place, v, x, None) && OthersUnrelated(aa, v, x, None)
    requires n !in v && GroupKept(place, g) && Items(g) == {x}
    ensures Partitioned(aa, place, v[n := g]) && AllItems(v[n := g]) == AllItems(v) + {x}
  {
    var v' := v[n := g];
    SingletonConnected(aa, x);
    forall s | s in v' ensures KeptAt(place, v', s) && ConnectedAt(aa, v', s) {
      assert s != n ==> KeptAt(place, v, s) && ConnectedAt(aa, v, s);
    }
    forall s, t | s in v' && t in v' ensures ApartAt(aa, v', s, t) {
      assert s in v && t in v ==> ApartAt(aa, v, s, t);
      NewItemApart(aa, place, v, x, n, g, s, t);
    }
    AddedAllItems(v, x, n, g);
  }

  // ----- The search through the list of sets -----

  /** The sets seen so far are merged into the one found or unrelated to the item. */
  ghost predicate Searching(aa: Oracle, place: Ptr -> int, v0: Groups, v: Groups, x: Item, found: Target, seen: seq<SetId>) {
    && Joining(aa, place, v, x, found) && AllItems(v) == AllItems(v0)
    && forall s | s in v && s in seen && Some(s) != found :: !RelatedToSome(aa, x, Items(v[s]))
  }

  lemma SearchBegins(aa: Oracle, place: Ptr -> int, v: Groups, x: Item)
    requires Partitioned(aa, place, v)
    ensures Searching(aa, place, v, v, x, None, [])
  {
  }

  lemma SearchMisses(aa: Oracle, place: Ptr -> int, v0: Groups, v: Groups, x: Item, found: Target, seen: seq<SetId>, t: SetId)
    requires Searching(aa, place, v0, v, x, found, seen) && (t in v ==> !RelatedToSome(aa, x, Items(v[t])))
    ensures Searching(aa, place, v0, v, x, found, seen + [t])
  {
  }

  lemma SearchFinds(aa: Oracle, place: Ptr -> int, v0: Groups, v: Groups, x: Item, seen: seq<SetId>, t: SetId)
    requires Lawful(aa, place) && Searching(aa, place, v0, v, x, None, seen) && t in v && RelatedToSome(aa, x, Items(v[t]))
    ensures Searching(aa, place, v0, v, x, Some(t), seen + [t])
  {
    JoinFirst(aa, place, v, x, t);
  }

  lemma SearchMerges(aa: Oracle, place: Ptr -> int, v0: Groups, v: Groups, x: Item, f: SetId, seen: seq<SetId>, t: SetId)
    requires Lawful(aa, place) && Searching(aa, place, v0, v, x, Some(f), seen) && t in v && f != t && RelatedToSome(aa, x, Items(v[t]))
    ensures Searching(aa, place, v0, (v - {t})[f := Merged(aa, v[f], v[t])], x, Some(f), seen + [t])
  {
    JoinMore(aa, place, v, x, f, t);
  }

  /** The outcome of the search: every related set has been merged into the one found. */
  ghost predicate FoundAll(aa: Oracle, place: Ptr -> int, v0: Groups, v: Groups, x: Item, found: Target) {
    Joining(aa, place, v, x, found) && OthersUnrelated(aa, v, x, found) && AllItems(v) == AllItems(v0)
  }

  lemma SearchEnds(aa: Oracle, place: Ptr -> int, v0: Groups, v: Groups, x: Item, found: Target, seen: seq<SetId>)
    requires Searching(aa, place, v0, v, x, found, seen) && forall s | s in v :: s in seen
    ensures FoundAll(aa, place, v0, v, x, found)
  {
  }

  /** One more item has been added: the groups are components again, and the answer says whether it was alone. */
  ghost predicate Extended(aa: Oracle, place: Ptr -> int, v0: Groups, v: Groups, x: Item, isNew: bool) {
    && Partitioned(aa, place, v) && AllItems(v) == AllItems(v0) + {x}
    && (isNew <==> !RelatedToSome(aa, x, AllItems(v0)))
  }

  lemma FoundIffRelated(aa: Oracle, place: Ptr -> int, v: Groups, x: Item, found: Target)
    requires Joining(aa, place, v, x, found) && OthersUnrelated(aa, v, x, found)
    ensures found.Some? <==> RelatedToSome(aa, x, AllItems(v))
  {
    if found.Some? {
      var y :| y in Items(v[found.value]) && Related(aa, x, y);
      assert y in AllItems(v);
    }
    if RelatedToSome(aa, x, AllItems(v)) {
      var y :| y in AllItems(v) && Related(aa, x, y);
      var s :| s in v && y in Items(v[s]);
      assert RelatedToSome(aa, x, Items(v[s]));
    }
  }

  const EMPTY_GROUP: Group := Group([], [], false)

  /** The group the item goes into: the one found, or a new one. */
  ghost function Receiver(v: Groups, found: Target): Group
    requires found.Some? ==> found.value in v
  {
    if found.Some? then v[found.value] else EMPTY_GROUP
  }

  lemma PointerExtends(aa: Oracle, place: Ptr -> int, v0: Groups, v: Groups, loc: Loc, found: Target, s: SetId)
    requires Lawful(aa, place) && FoundAll(aa, place, v0, v, PtrItem(loc), found)
    requires if found.Some? then s == found.value else s !in v
    ensures Extended(aa, place, v0, v[s := WithPointer(aa, Receiver(v, found), loc, false)], PtrItem(loc), found == None)
  {
    FoundIffRelated(aa, place, v, PtrItem(loc), found);
    if found.Some? {
      PointerJoins(aa, place, v, loc, s);
    } else {
      PointerAlone(aa, place, v, loc, s);
    }
  }

  lemma InstExtends(aa: Oracle, place: Ptr -> int, v0: Groups, v: Groups, inst: Inst, found: Target, s: SetId)
    requires Lawful(aa, place) && FoundAll(aa, place, v0, v, InstItem(inst), found)
    requires if found.Some? then s == found.value else s !in v
    ensures Extended(aa, place, v0, v[s := WithInst(Receiver(v, found), inst)], InstItem(inst), found == None)
  {
    FoundIffRelated(aa, place, v, InstItem(inst), found);
    if found.Some? {
      InstJoins(aa, place, v, inst, s);
    } else {
      InstAlone(aa, place, v, inst, s);
    }
  }

  lemma PointerTest(aa: Oracle, place: Ptr -> int, v: Groups, s: SetId, loc: Loc)
    requires Lawful(aa, place) && Separated(aa, place, v) && s in v
    ensures AliasesPointer(aa, v[s], loc) <==> RelatedToSome(aa, PtrItem(loc), Items(v[s]))
  {
    assert KeptAt(place, v, s);
    AliasesPointerExact(aa, place, v[s], loc);
  }

  lemma InstTest(aa: Oracle, place: Ptr -> int, v: Groups, s: SetId, inst: Inst)
    requires Lawful(aa, place) && Separated(aa, place, v) && s in v && inst.MayReadOrWrite()
    ensures AliasesUnknownInst(aa, v[s], inst) <==> RelatedToSome(aa, InstItem(inst), Items(v[s]))
  {
    assert KeptAt(place, v, s);
    AliasesUnknownInstExact(aa, place, v[s], inst);
  }

  lemma UpdateTwice(v: Groups, s: SetId, g: Group, h: Group)
    ensures v[s := g][s := h] == v[s := h]
  {
  }

  // ----- The item goes in -----

  lemma PointerJoins(aa: Oracle, place: Ptr -> int, v: Groups, loc: Loc, f: SetId)
    requires Lawful(aa, place) && Joining(aa, place, v, PtrItem(loc), Some(f)) && OthersUnrelated(aa, v, PtrItem(loc), Some(f))
    ensures var v' := v[f := WithPointer(aa, v[f], loc, false)];
            Partitioned(aa, place, v') && AllItems(v') == AllItems(v) + {PtrItem(loc)}
  {
    assert KeptAt(place, v, f);
    PointerTest(aa, place, v, f, loc);
    WithPointerKept(aa, place, v[f], loc);
    ItemsWithPointer(aa, v[f], loc, false);
    JoinDone(aa, place, v, PtrItem(loc), f, WithPointer(aa, v[f], loc, false));
  }

  lemma PointerAlone(aa: Oracle, place: Ptr -> int, v: Groups, loc: Loc, n: SetId)
    requires Lawful(aa, place) && Joining(aa, place, v, PtrItem(loc), None) && OthersUnrelated(aa, v, PtrItem(loc), None) && n !in v
    ensures var v' := v[n := WithPointer(aa, EMPTY_GROUP, loc, false)];
            Partitioned(aa, place, v') && AllItems(v') == AllItems(v) + {PtrItem(loc)}
  {
    WithPointerKept(aa, place, EMPTY_GROUP, loc);
    ItemsWithPointer(aa, EMPTY_GROUP, loc, false);
    AloneDone(aa, place, v, PtrItem(loc), n, WithPointer(aa, EMPTY_GROUP, loc, false));
  }

  lemma InstJoins(aa: Oracle, place: Ptr -> int, v: Groups, i: Inst, f: SetId)
    requires Lawful(aa, place) && Joining(aa, place, v, InstItem(i), Some(f)) && OthersUnrelated(aa, v, InstItem(i), Some(f))
    ensures var v' := v[f := WithInst(v[f], i)];
            Partitioned(aa, place, v') && AllItems(v') == AllItems(v) + {InstItem(i)}
  {
    assert KeptAt(place, v, f);
    WithInstKept(place, v[f], i);
    ItemsWithInst(v[f], i);
    JoinDone(aa, place, v, InstItem(i), f, WithInst(v[f], i));
  }

  lemma InstAlone(aa: Oracle, place: Ptr -> int, v: Groups, i: Inst, n: SetId)
    requires Lawful(aa, place) && Joining(aa, place, v, InstItem(i), None) && OthersUnrelated(aa, v, InstItem(i), None) && n !in v
    ensures var v' := v[n := WithInst(EMPTY_GROUP, i)];
            Partitioned(aa, place, v') && AllItems(v') == AllItems(v) + {InstItem(i)}
  {
    WithInstKept(place, EMPTY_GROUP, i);
    ItemsWithInst(EMPTY_GROUP, i);
    AloneDone(aa, place, v, InstItem(i), n, WithInst(EMPTY_GROUP, i));
  }

  /** The pointer about to join a must set aliases its first entry. */
  lemma JoiningPointerAliases(aa: Oracle, place: Ptr -> int, v0: Groups, v: Groups, loc: Loc, f: SetId)
    requires Lawful(aa, place) && FoundAll(aa, place, v0, v, PtrItem(loc), Some(f)) && f in v && !v[f].may
    ensures v[f].entries != [] && aa.alias(v[f].entries[0].Now(), loc) != NoAlias
  {
    assert KeptAt(place, v, f);
    PointerTest(aa, place, v, f, loc);
  }
}
