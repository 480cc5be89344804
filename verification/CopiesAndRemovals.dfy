/** What copyValue and deleteValue do to groups that are components, and to the test of one member of a must set. */
module CopiesAndRemovals {
  import opened AliasResults
  import opened AliasGroups
  import opened Components
  import opened TrackerState
  import opened AliasPartition
  import opened TrackerRemovals
  import opened Wrappers

  // ----- Copies -----

  /** A copy at the place and the recorded size of a member leaves the group its shape. */
  lemma CopyKept(aa: Oracle, place: Ptr -> int, g: Group, k: nat, to: Ptr)
    requires GroupKept(place, g) && k < |g.entries| && place(g.entries[k].ptr) == place(to) && g.entries[k].size > 0
    ensures GroupKept(place, WithPointer(aa, g, Loc(to, g.entries[k].size), true))
  {
    var n := g.entries[k].size;
    var entry := Entry(to, n, n);
    assert Witnessed(place, g.entries, k);
    assert Witnessed(place, [entry], 0) by { assert [entry][0].added == n; }
    WitnessedAppend(place, g.entries, [entry]);
    if g.may {
      MayStays(place, g, WithPointer(aa, g, Loc(to, n), true), [entry]);
    } else if |g.entries| == 1 {
      FirstHasRoom(place, g);
    }
  }

  /** Pointers at one place have the same relations. */
  lemma SameRelations(aa: Oracle, place: Ptr -> int, p: Ptr, q: Ptr, n: nat, z: Item)
    requires Lawful(aa, place) && place(p) == place(q)
    ensures Related(aa, PtrItem(Loc(p, n)), z) <==> Related(aa, PtrItem(Loc(q, n)), z)
  {
    if z.PtrItem? {
      assert Aliases(aa, Loc(p, n), z.loc) <==> Aliases(aa, Loc(q, n), z.loc);
    }
  }

  /** Some item of the group is at the place and the recorded size of a member. */
  lemma CopiedItem(place: Ptr -> int, g: Group, k: nat) returns (q: Ptr)
    requires GroupKept(place, g) && k < |g.entries|
    ensures place(q) == place(g.entries[k].ptr) && PtrItem(Loc(q, g.entries[k].size)) in Items(g)
  {
    assert Witnessed(place, g.entries, k);
    var w :| 0 <= w < |g.entries| && place(g.entries[w].ptr) == place(g.entries[k].ptr) && g.entries[w].added == g.entries[k].size;
    q := g.entries[w].ptr;
    assert g.entries[w] in g.entries && PtrItem(g.entries[w].Added()) in Items(g);
  }

  /** A copy of a value that is where it is, at a recorded size that leaves room for an access: the groups stay components. */
  lemma CopyExtends(aa: Oracle, place: Ptr -> int, v: Groups, d: SetId, k: nat, to: Ptr)
    requires Lawful(aa, place) && Partitioned(aa, place, v) && d in v && k < |v[d].entries|
    requires place(v[d].entries[k].ptr) == place(to) && v[d].entries[k].size > 0
    ensures var loc := Loc(to, v[d].entries[k].size);
            Extended(aa, place, v, v[d := WithPointer(aa, v[d], loc, true)], PtrItem(loc), false)
  {
    var n := v[d].entries[k].size;
    var x := PtrItem(Loc(to, n));
    assert KeptAt(place, v, d);
    CopyKept(aa, place, v[d], k, to);
    ItemsWithPointer(aa, v[d], Loc(to, n), true);
    var q := CopiedItem(place, v[d], k);
    var y := PtrItem(Loc(q, n));
    assert aa.alias(Loc(to, n), Loc(q, n)) == MustAlias;
    assert y in Items(v[d]) && Related(aa, x, y);
    JoinFirst(aa, place, v, x, d);
    forall s | s in v && Some(s) != Some(d) ensures !RelatedToSome(aa, x, Items(v[s])) {
      assert ApartAt(aa, v, d, s);
      forall z | z in Items(v[s]) ensures !Related(aa, x, z) {
        SameRelations(aa, place, to, q, n, z);
      }
    }
    JoinDone(aa, place, v, x, d, WithPointer(aa, v[d], Loc(to, n), true));
    assert y in AllItems(v);
  }

  /** The group has an entry for the pointer with this recorded size. */
  ghost predicate HasEntry(g: Group, p: Ptr, n: nat) {
    exists k :: 0 <= k < |g.entries| && g.entries[k].ptr == p && g.entries[k].size == n
  }

  /** The set a record names lists it, at the size recorded. */
  lemma RecordHasEntry(st: State, p: Ptr, d: SetId)
    requires Valid(st) && d in View(st) && p in st.recs && st.recs[p].set_ == Some(d)
    ensures HasEntry(View(st)[d], p, st.recs[p].size)
  {
    assert RecGood(st, p) && ForwardGood(st, d);
    assert p in st.sets[d].list;
    var k :| 0 <= k < |st.sets[d].list| && st.sets[d].list[k] == p;
    assert View(st)[d].entries[k].ptr == p;
  }

  lemma CopyOfExtends(aa: Oracle, place: Ptr -> int, v: Groups, d: SetId, from: Ptr, n: nat, to: Ptr)
    requires Lawful(aa, place) && Partitioned(aa, place, v) && d in v && HasEntry(v[d], from, n)
    requires place(from) == place(to) && n > 0
    ensures Extended(aa, place, v, v[d := WithPointer(aa, v[d], Loc(to, n), true)], PtrItem(Loc(to, n)), false)
  {
    var k :| 0 <= k < |v[d].entries| && v[d].entries[k].ptr == from && v[d].entries[k].size == n;
    CopyExtends(aa, place, v, d, k, to);
  }

  // ----- An oracle that knows all places -----

  function OverlapAnswer(place: Ptr -> int, a: Loc, b: Loc): AliasResult {
    if a.size == 0 || b.size == 0 || place(a.ptr) + a.size <= place(b.ptr) || place(b.ptr) + b.size <= place(a.ptr) then NoAlias
    else if place(a.ptr) == place(b.ptr) then MustAlias
    else PartialAlias
  }

  /** Alias by the overlap of the two ranges; no instruction touches anything. */
  function ByOverlap(place: Ptr -> int): Oracle {
    Oracle((a, b) => OverlapAnswer(place, a, b), (i, a) => false, (i, j) => false)
  }

  lemma ByOverlapLawful(place: Ptr -> int)
    ensures Lawful(ByOverlap(place), place)
  {
  }

  /** At size 0 a copy may be related to nothing: the group of a lone pointer is no component any more. */
  lemma ZeroCopyAlone(place: Ptr -> int, p: Ptr, to: Ptr, d: SetId)
    requires p != to && place(p) == place(to)
    ensures var aa, v := ByOverlap(place), map[d := Group([Entry(p, 0, 0)], [], false)];
            && Partitioned(aa, place, v)
            && !Partitioned(aa, place, v[d := WithPointer(aa, v[d], Loc(to, 0), true)])
  {
    var aa, g := ByOverlap(place), Group([Entry(p, 0, 0)], [], false);
    var x := PtrItem(Loc(p, 0));
    LoneKept(place, p);
    SingletonConnected(aa, x);
    var v := map[d := g];
    assert KeptAt(place, v, d) && ConnectedAt(aa, v, d);
    ZeroCopyCut(place, p, to);
    assert !ConnectedAt(aa, v[d := WithPointer(aa, g, Loc(to, 0), true)], d);
  }

  lemma LoneKept(place: Ptr -> int, p: Ptr)
    ensures var g := Group([Entry(p, 0, 0)], [], false); GroupKept(place, g) && Items(g) == {PtrItem(Loc(p, 0))}
  {
    var g := Group([Entry(p, 0, 0)], [], false);
    assert Witnessed(place, g.entries, 0) by { assert g.entries[0].added == 0; }
    assert [] + g.entries == g.entries;
    EntryItemsAppend([], g.entries[0]);
  }

  /** The copy and the original, with nothing between them. */
  lemma ZeroCopyCut(place: Ptr -> int, p: Ptr, to: Ptr)
    requires p != to
    ensures var aa, g := ByOverlap(place), Group([Entry(p, 0, 0)], [], false);
            !Connected(aa, Items(WithPointer(aa, g, Loc(to, 0), true)))
  {
    var aa, g := ByOverlap(place), Group([Entry(p, 0, 0)], [], false);
    var x, y := PtrItem(Loc(p, 0)), PtrItem(Loc(to, 0));
    LoneKept(place, p);
    ItemsWithPointer(aa, g, Loc(to, 0), true);
    var s := Items(WithPointer(aa, g, Loc(to, 0), true));
    assert s == {x, y} && s - {x} == {y};
    assert ProperPart({x}, s) && !Crossed(aa, {x}, s - {x});
  }

  // ----- Removals -----

  /** A must set as a removal leaves it: members at one place, no instructions. */
  ghost predicate OnePlace(place: Ptr -> int, g: Group) {
    && !g.may && g.insts == [] && g.entries != []
    && forall k | 0 <= k < |g.entries| :: place(g.entries[k].ptr) == place(g.entries[0].ptr)
  }

  /** The size recorded for the first member is the greatest that a member was added with. */
  predicate FirstIsGreatest(g: Group)
    requires g.entries != []
  {
    && (forall k | 0 <= k < |g.entries| :: g.entries[k].added <= g.entries[0].size)
    && exists k :: 0 <= k < |g.entries| && g.entries[k].added == g.entries[0].size
  }

  /** Testing one member is testing them all. */
  ghost predicate ShortcutExact(aa: Oracle, g: Group) {
    forall loc: Loc :: AliasesPointer(aa, g, loc) <==> RelatedToSome(aa, PtrItem(loc), Items(g))
  }

  lemma ShortcutHolds(aa: Oracle, place: Ptr -> int, g: Group, loc: Loc)
    requires Lawful(aa, place) && OnePlace(place, g) && FirstIsGreatest(g)
    ensures AliasesPointer(aa, g, loc) <==> RelatedToSome(aa, PtrItem(loc), Items(g))
  {
    var f, x := g.entries[0], PtrItem(loc);
    if AliasesPointer(aa, g, loc) {
      var k :| 0 <= k < |g.entries| && g.entries[k].added == f.size;
      var y := PtrItem(g.entries[k].Added());
      assert g.entries[k] in g.entries && y in Items(g);
      SameRelations(aa, place, f.ptr, g.entries[k].ptr, f.size, x);
      RelatedSymmetric(aa, place, x, y);
    }
    if RelatedToSome(aa, x, Items(g)) {
      var y :| y in Items(g) && Related(aa, x, y);
      var e :| e in g.entries && y == PtrItem(e.Added());
      RelatedSymmetric(aa, place, x, y);
      assert Aliases(aa, Loc(e.ptr, e.added), loc);
      assert Aliases(aa, Loc(f.ptr, e.added), loc);
    }
  }

  /** A byte that a member was added with and the first is not said to have, or the other way round. */
  lemma ShortcutFails(place: Ptr -> int, g: Group, x: Ptr)
    requires OnePlace(place, g) && !FirstIsGreatest(g)
    requires place(x) == place(g.entries[0].ptr) + if Longer(g) then g.entries[0].size else g.entries[0].size - 1
    ensures AliasesPointer(ByOverlap(place), g, Loc(x, 1)) != RelatedToSome(ByOverlap(place), PtrItem(Loc(x, 1)), Items(g))
  {
    var aa, f := ByOverlap(place), g.entries[0];
    if Longer(g) {
      var k :| 0 <= k < |g.entries| && g.entries[k].added > f.size;
      var y := PtrItem(g.entries[k].Added());
      assert g.entries[k] in g.entries && y in Items(g) && Related(aa, PtrItem(Loc(x, 1)), y);
    } else {
      assert g.entries[0].added != f.size;
      forall y | y in Items(g) ensures !Related(aa, PtrItem(Loc(x, 1)), y) {
        var e :| e in g.entries && y == PtrItem(e.Added());
        var k :| 0 <= k < |g.entries| && g.entries[k] == e;
      }
    }
  }

  predicate Longer(g: Group)
    requires g.entries != []
  {
    exists k :: 0 <= k < |g.entries| && g.entries[k].added > g.entries[0].size
  }

  ghost predicate SomeoneAt(place: Ptr -> int, n: int) {
    exists p: Ptr :: place(p) == n
  }

  /**
   For a must set, whatever was removed from it, the test of its first member is exact under
   every lawful oracle if and only if the first member has the greatest size.
   */
  lemma ShortcutExactIff(place: Ptr -> int, g: Group)
    requires OnePlace(place, g) && forall n: int :: SomeoneAt(place, n)
    ensures (forall aa: Oracle | Lawful(aa, place) :: ShortcutExact(aa, g)) <==> FirstIsGreatest(g)
  {
    if FirstIsGreatest(g) {
      forall aa: Oracle, loc: Loc | Lawful(aa, place)
        ensures AliasesPointer(aa, g, loc) <==> RelatedToSome(aa, PtrItem(loc), Items(g)) {
        ShortcutHolds(aa, place, g, loc);
      }
    } else {
      var n := place(g.entries[0].ptr) + if Longer(g) then g.entries[0].size else g.entries[0].size - 1;
      assert SomeoneAt(place, n);
      var x: Ptr :| place(x) == n;
      ByOverlapLawful(place);
      ShortcutFails(place, g, x);
      assert !ShortcutExact(ByOverlap(place), g);
    }
  }

  /** What deleteValue leaves of a must set is such a set. */
  lemma RemovalLeavesPlace(place: Ptr -> int, g: Group, p: Ptr)
    requires GroupKept(place, g) && !g.may && WithoutEntry(g.entries, p) != []
    ensures OnePlace(place, g.(entries := WithoutEntry(g.entries, p)))
  {
    WithoutEntryIn(g.entries, p);
    var es := WithoutEntry(g.entries, p);
    forall k | 0 <= k < |es| ensures place(es[k].ptr) == place(g.entries[0].ptr) {
      assert es[k] in g.entries;
    }
  }

  lemma {:induction false} WithoutEntryIn(es: seq<Entry>, p: Ptr)
    ensures forall e | e in WithoutEntry(es, p) :: e in es
    decreases |es|
  {
    if es != [] && es[0].ptr != p {
      WithoutEntryIn(es[1..], p);
    }
  }

  /** Of 8, 4 and 6 bytes at one place the first is deleted: the last of the 6 is missed. */
  lemma RemovalExample(place: Ptr -> int, p: Ptr, q: Ptr, r: Ptr, x: Ptr)
    requires p != q && p != r && place(p) == place(q) == place(r) && place(x) == place(p) + 5
    ensures var aa := ByOverlap(place);
            var g := Group([Entry(p, 8, 8), Entry(q, 4, 4), Entry(r, 6, 6)], [], false);
            var g' := g.(entries := WithoutEntry(g.entries, p));
            && Lawful(aa, place) && GroupKept(place, g)
            && !AliasesPointer(aa, g', Loc(x, 1)) && RelatedToSome(aa, PtrItem(Loc(x, 1)), Items(g'))
  {
    var aa, es := ByOverlap(place), [Entry(p, 8, 8), Entry(q, 4, 4), Entry(r, 6, 6)];
    var es' := [Entry(q, 4, 4), Entry(r, 6, 6)];
    ByOverlapLawful(place);
    assert Witnessed(place, es, 0) by { assert es[0].added == 8; }
    assert Witnessed(place, es, 1) by { assert es[1].added == 4; }
    assert Witnessed(place, es, 2) by { assert es[2].added == 6; }
    assert WithoutEntry(es, p) == es' && es'[1] in es';
    var y := PtrItem(es'[1].Added());
    assert y in Items(Group(es', [], false)) && Related(aa, PtrItem(Loc(x, 1)), y);
  }
}
