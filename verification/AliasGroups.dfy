/**
 What an alias set holds, and the oracle it asks. Groups are the contents of the set objects
 with the links taken away: the entries in list order, the unknown instructions and the kind.
 */
module AliasGroups {
  import opened AliasResults

  type Ptr(==, !new)

  datatype Loc = Loc(ptr: Ptr, size: nat)

  /** An instruction without a single address. */
  datatype Inst = Inst(id: nat, isDebugInfo: bool, mayRead: bool, mayWrite: bool, isCall: bool)
  {
    predicate MayReadOrWrite() { mayRead || mayWrite }
  }

  /** alias, getModRefInfo(I, Loc) != NoModRef, and getModRefInfo(C1, C2) != NoModRef. */
  datatype Oracle = Oracle(alias: (Loc, Loc) -> AliasResult, modRef: (Inst, Loc) -> bool, callModRef: (Inst, Inst) -> bool)

  predicate Aliases(aa: Oracle, a: Loc, b: Loc) { aa.alias(a, b) != NoAlias }

  /** Inst-against-inst test of aliasesUnknownInst. */
  predicate InstsInterfere(aa: Oracle, i: Inst, j: Inst) {
    !i.isCall || !j.isCall || aa.callModRef(i, j) || aa.callModRef(j, i)
  }

  /**
   Laws assumed of the oracle: alias is symmetric; must-aliasing pointers are those at one
   place, with room for an access; pointers at one place cannot be told apart; a larger
   access never aliases less.
   */
  ghost predicate Lawful(aa: Oracle, place: Ptr -> int) {
    && (forall a: Loc, b: Loc :: aa.alias(a, b) == aa.alias(b, a))
    && (forall a: Loc, b: Loc :: aa.alias(a, b) == MustAlias <==> a.size > 0 && b.size > 0 && place(a.ptr) == place(b.ptr))
    && (forall p: Ptr, q: Ptr, n: nat, b: Loc | place(p) == place(q) :: Aliases(aa, Loc(p, n), b) <==> Aliases(aa, Loc(q, n), b))
    && (forall p: Ptr, q: Ptr, n: nat, i: Inst | place(p) == place(q) :: aa.modRef(i, Loc(p, n)) <==> aa.modRef(i, Loc(q, n)))
    && (forall p: Ptr, n: nat, m: nat, b: Loc | n <= m :: Aliases(aa, Loc(p, n), b) ==> Aliases(aa, Loc(p, m), b))
    && (forall p: Ptr, n: nat, m: nat, i: Inst | n <= m :: aa.modRef(i, Loc(p, n)) ==> aa.modRef(i, Loc(p, m)))
  }

  // ----- Items and groups -----

  datatype Item = PtrItem(loc: Loc) | InstItem(inst: Inst)

  /** The relation whose components the tracker computes. */
  predicate Related(aa: Oracle, x: Item, y: Item) {
    match (x, y)
    case (PtrItem(a), PtrItem(b)) => Aliases(aa, a, b)
    case (PtrItem(a), InstItem(i)) => aa.modRef(i, a)
    case (InstItem(i), PtrItem(a)) => aa.modRef(i, a)
    case (InstItem(i), InstItem(j)) => InstsInterfere(aa, i, j)
  }

  /** A pointer with the size it was added with and the size its record has now. */
  datatype Entry = Entry(ptr: Ptr, added: nat, size: nat)
  {
    function Now(): Loc { Loc(ptr, size) }
    function Added(): Loc { Loc(ptr, added) }
  }

  datatype Group = Group(entries: seq<Entry>, insts: seq<Inst>, may: bool)

  ghost function EntryItems(es: seq<Entry>): set<Item> {
    set e | e in es :: PtrItem(e.Added())
  }

  ghost function InstItems(insts: seq<Inst>): set<Item> {
    set i | i in insts :: InstItem(i)
  }

  ghost function Items(g: Group): set<Item> {
    EntryItems(g.entries) + InstItems(g.insts)
  }

  ghost predicate RelatedToSome(aa: Oracle, x: Item, s: set<Item>) {
    exists y :: y in s && Related(aa, x, y)
  }

  lemma RelatedSymmetric(aa: Oracle, place: Ptr -> int, x: Item, y: Item)
    requires Lawful(aa, place)
    ensures Related(aa, x, y) == Related(aa, y, x)
  {
    if x.PtrItem? && y.PtrItem? {
      assert aa.alias(x.loc, y.loc) == aa.alias(y.loc, x.loc);
    }
  }

  // ----- What a group keeps in runs that only add -----

  /** A recorded size that outgrew its entry is the size another entry at the same place was added with. */
  ghost predicate Witnessed(place: Ptr -> int, es: seq<Entry>, k: nat)
    requires k < |es|
  {
    && es[k].added <= es[k].size
    && exists w :: 0 <= w < |es| && place(es[w].ptr) == place(es[k].ptr) && es[w].added == es[k].size
  }

  ghost predicate AllWitnessed(place: Ptr -> int, es: seq<Entry>) {
    forall k | 0 <= k < |es| :: Witnessed(place, es, k)
  }

  /** All entries are at one place, the first has the maximum size, and several entries all leave room for an access. */
  ghost predicate MustShape(place: Ptr -> int, es: seq<Entry>) {
    && es != []
    && (forall k | 0 <= k < |es| :: place(es[k].ptr) == place(es[0].ptr) && es[k].added <= es[0].size)
    && (|es| > 1 ==> forall k | 0 <= k < |es| :: es[k].added > 0)
  }

  /** No instructions, all entries at one place, and several of them all leave room for an access. */
  ghost predicate MustLike(place: Ptr -> int, g: Group) {
    && g.insts == [] && g.entries != []
    && (forall k | 0 <= k < |g.entries| :: place(g.entries[k].ptr) == place(g.entries[0].ptr))
    && (|g.entries| > 1 ==> forall k | 0 <= k < |g.entries| :: g.entries[k].added > 0)
  }

  /** The group is a must set exactly if it could be one; the first entry of a must set has the maximum size. */
  ghost predicate GroupKept(place: Ptr -> int, g: Group) {
    && AllWitnessed(place, g.entries)
    && (!g.may <==> MustLike(place, g))
    && (!g.may ==> MustShape(place, g.entries))
  }

  // ----- The tests -----

  /** aliasesPointer: one member of a must set decides. */
  predicate AliasesPointer(aa: Oracle, g: Group, loc: Loc) {
    if !g.may && g.entries != [] then Aliases(aa, g.entries[0].Now(), loc)
    else (exists k :: 0 <= k < |g.entries| && Aliases(aa, loc, g.entries[k].Now())) || (exists i | i in g.insts :: aa.modRef(i, loc))
  }

  predicate AliasesUnknownInst(aa: Oracle, g: Group, inst: Inst) {
    inst.MayReadOrWrite() &&
    ((exists i | i in g.insts :: InstsInterfere(aa, i, inst)) || (exists k :: 0 <= k < |g.entries| && aa.modRef(inst, g.entries[k].Now())))
  }

  /** Testing an entry at its recorded size is testing some entry as it was added. */
  lemma RecordedSizeDecides(aa: Oracle, place: Ptr -> int, g: Group, k: nat, x: Item)
    requires Lawful(aa, place) && AllWitnessed(place, g.entries) && k < |g.entries|
    requires Related(aa, x, PtrItem(g.entries[k].Now()))
    ensures RelatedToSome(aa, x, Items(g))
  {
    assert Witnessed(place, g.entries, k);
    var w :| 0 <= w < |g.entries| && place(g.entries[w].ptr) == place(g.entries[k].ptr) && g.entries[w].added == g.entries[k].size;
    var y := PtrItem(g.entries[w].Added());
    assert g.entries[w] in g.entries;
    assert y in Items(g);
    if x.PtrItem? {
      assert aa.alias(x.loc, g.entries[k].Now()) == aa.alias(g.entries[k].Now(), x.loc);
      assert aa.alias(x.loc, y.loc) == aa.alias(y.loc, x.loc);
      assert Aliases(aa, Loc(g.entries[k].ptr, g.entries[k].size), x.loc);
      assert Aliases(aa, Loc(g.entries[w].ptr, g.entries[k].size), x.loc);
    }
    assert Related(aa, x, y);
  }

  lemma AddedSizeDecides(aa: Oracle, place: Ptr -> int, g: Group, k: nat, x: Item)
    requires Lawful(aa, place) && AllWitnessed(place, g.entries) && k < |g.entries|
    requires Related(aa, x, PtrItem(g.entries[k].Added()))
    ensures Related(aa, x, PtrItem(g.entries[k].Now()))
  {
    var e := g.entries[k];
    assert Witnessed(place, g.entries, k);
    if x.PtrItem? {
      assert aa.alias(x.loc, e.Now()) == aa.alias(e.Now(), x.loc);
      assert aa.alias(x.loc, e.Added()) == aa.alias(e.Added(), x.loc);
      assert Aliases(aa, Loc(e.ptr, e.added), x.loc);
    }
  }

  /** In a must set, what relates to any entry relates to the first at its recorded size. */
  lemma FirstDecides(aa: Oracle, place: Ptr -> int, g: Group, k: nat, loc: Loc)
    requires Lawful(aa, place) && MustShape(place, g.entries) && k < |g.entries|
    requires Aliases(aa, loc, g.entries[k].Added())
    ensures Aliases(aa, g.entries[0].Now(), loc)
  {
    var e, f := g.entries[k], g.entries[0];
    assert aa.alias(loc, e.Added()) == aa.alias(e.Added(), loc);
    assert Aliases(aa, Loc(e.ptr, e.added), loc);
    assert Aliases(aa, Loc(f.ptr, e.added), loc);
  }

  /** The must shortcut is exact: testing one member is testing them all. */
  lemma AliasesPointerExact(aa: Oracle, place: Ptr -> int, g: Group, loc: Loc)
    requires Lawful(aa, place) && GroupKept(place, g)
    ensures AliasesPointer(aa, g, loc) <==> RelatedToSome(aa, PtrItem(loc), Items(g))
  {
    var x := PtrItem(loc);
    if AliasesPointer(aa, g, loc) {
      if !g.may && g.entries != [] {
        assert aa.alias(loc, g.entries[0].Now()) == aa.alias(g.entries[0].Now(), loc);
        RecordedSizeDecides(aa, place, g, 0, x);
      } else if k :| 0 <= k < |g.entries| && Aliases(aa, loc, g.entries[k].Now()) {
        RecordedSizeDecides(aa, place, g, k, x);
      } else {
        var i :| i in g.insts && aa.modRef(i, loc);
        assert InstItem(i) in Items(g) && Related(aa, x, InstItem(i));
      }
    }
    if RelatedToSome(aa, x, Items(g)) {
      var y :| y in Items(g) && Related(aa, x, y);
      if y.PtrItem? {
        var e :| e in g.entries && y == PtrItem(e.Added());
        var k :| 0 <= k < |g.entries| && g.entries[k] == e;
        if !g.may {
          FirstDecides(aa, place, g, k, loc);
        } else {
          AddedSizeDecides(aa, place, g, k, x);
        }
      }
    }
  }

  lemma AliasesUnknownInstExact(aa: Oracle, place: Ptr -> int, g: Group, inst: Inst)
    requires Lawful(aa, place) && GroupKept(place, g) && inst.MayReadOrWrite()
    ensures AliasesUnknownInst(aa, g, inst) <==> RelatedToSome(aa, InstItem(inst), Items(g))
  {
    var x := InstItem(inst);
    if AliasesUnknownInst(aa, g, inst) {
      if i :| i in g.insts && InstsInterfere(aa, i, inst) {
        assert InstItem(i) in Items(g) && Related(aa, x, InstItem(i));
      } else {
        var k :| 0 <= k < |g.entries| && aa.modRef(inst, g.entries[k].Now());
        RecordedSizeDecides(aa, place, g, k, x);
      }
    }
    if RelatedToSome(aa, x, Items(g)) {
      var y :| y in Items(g) && Related(aa, x, y);
      if y.PtrItem? {
        var e :| e in g.entries && y == PtrItem(e.Added());
        var k :| 0 <= k < |g.entries| && g.entries[k] == e;
        AddedSizeDecides(aa, place, g, k, x);
        assert aa.modRef(inst, g.entries[k].Now());
      } else {
        assert InstsInterfere(aa, y.inst, inst);
      }
    }
  }

  // ----- The changes -----

  /** mergeSetIn. */
  function Merged(aa: Oracle, g: Group, h: Group): Group {
    var mustPair := g.entries != [] && h.entries != [] && aa.alias(g.entries[0].Now(), h.entries[0].Now()) == MustAlias;
    Group(g.entries + h.entries, g.insts + h.insts, g.may || h.may || !mustPair)
  }

  /** addPointer; the first entry of a must set takes the maximum size. */
  function WithPointer(aa: Oracle, g: Group, loc: Loc, knownMust: bool): Group {
    var entry := Entry(loc.ptr, loc.size, loc.size);
    if !g.may && !knownMust && g.entries != [] then
      if aa.alias(g.entries[0].Now(), loc) == MustAlias then
        Group(GrowFirst(g.entries, loc.size) + [entry], g.insts, false)
      else Group(g.entries + [entry], g.insts, true)
    else Group(g.entries + [entry], g.insts, g.may)
  }

  function GrowFirst(es: seq<Entry>, size: nat): seq<Entry>
    requires es != []
  {
    if size > es[0].size then es[0 := es[0].(size := size)] else es
  }

  function WithInst(g: Group, i: Inst): Group {
    Group(g.entries, g.insts + [i], true)
  }

  lemma ItemsOfMerged(aa: Oracle, g: Group, h: Group)
    ensures Items(Merged(aa, g, h)) == Items(g) + Items(h)
  {
  }

  lemma ItemsWithInst(g: Group, i: Inst)
    ensures Items(WithInst(g, i)) == Items(g) + {InstItem(i)}
  {
  }

  lemma GrowFirstItems(es: seq<Entry>, size: nat)
    requires es != []
    ensures EntryItems(GrowFirst(es, size)) == EntryItems(es)
  {
    var fs := GrowFirst(es, size);
    forall x | x in EntryItems(es) ensures x in EntryItems(fs) {
      var k :| 0 <= k < |es| && x == PtrItem(es[k].Added());
      assert fs[k] in fs && x == PtrItem(fs[k].Added());
    }
    forall x | x in EntryItems(fs) ensures x in EntryItems(es) {
      var k :| 0 <= k < |fs| && x == PtrItem(fs[k].Added());
      assert es[k] in es && x == PtrItem(es[k].Added());
    }
  }

  lemma EntryItemsAppend(es: seq<Entry>, e: Entry)
    ensures EntryItems(es + [e]) == EntryItems(es) + {PtrItem(e.Added())}
  {
    assert e in es + [e];
    assert forall d :: d in es + [e] <==> d in es || d == e;
  }

  lemma ItemsWithPointer(aa: Oracle, g: Group, loc: Loc, knownMust: bool)
    ensures Items(WithPointer(aa, g, loc, knownMust)) == Items(g) + {PtrItem(loc)}
  {
    if g.entries != [] {
      GrowFirstItems(g.entries, loc.size);
    }
    EntryItemsAppend(g.entries, Entry(loc.ptr, loc.size, loc.size));
    EntryItemsAppend(if g.entries != [] then GrowFirst(g.entries, loc.size) else [], Entry(loc.ptr, loc.size, loc.size));
  }

  lemma WitnessedAppend(place: Ptr -> int, es: seq<Entry>, fs: seq<Entry>)
    requires AllWitnessed(place, es) && AllWitnessed(place, fs)
    ensures AllWitnessed(place, es + fs)
  {
    var gs := es + fs;
    forall k | 0 <= k < |gs| ensures Witnessed(place, gs, k) {
      if k < |es| {
        assert Witnessed(place, es, k);
        var w :| 0 <= w < |es| && place(es[w].ptr) == place(es[k].ptr) && es[w].added == es[k].size;
        assert gs[w] == es[w];
      } else {
        var j := k - |es|;
        assert Witnessed(place, fs, j);
        var w :| 0 <= w < |fs| && place(fs[w].ptr) == place(fs[j].ptr) && fs[w].added == fs[j].size;
        assert gs[|es| + w] == fs[w];
      }
    }
  }

  /** A lone entry still has the size it was added with. */
  lemma FirstHasRoom(place: Ptr -> int, g: Group)
    requires GroupKept(place, g) && !g.may && g.entries[0].size > 0
    ensures g.entries[0].added > 0
  {
    assert Witnessed(place, g.entries, 0);
  }

  /** What a group could be, each part of it could be. */
  lemma PartsMustLike(place: Ptr -> int, g: Group, es: seq<Entry>, fs: seq<Entry>, may: bool)
    requires g.entries == es + fs && MustLike(place, g)
    ensures es != [] ==> MustLike(place, Group(es, [], may))
    ensures fs != [] ==> MustLike(place, Group(fs, [], may))
  {
    forall k | 0 <= k < |es| ensures place(es[k].ptr) == place(g.entries[0].ptr) && (|g.entries| > 1 ==> es[k].added > 0) {
      assert g.entries[k] == es[k];
    }
    forall k | 0 <= k < |fs| ensures place(fs[k].ptr) == place(g.entries[0].ptr) && (|g.entries| > 1 ==> fs[k].added > 0) {
      assert g.entries[|es| + k] == fs[k];
    }
  }

  /** A may set stays no must set, whatever joins it. */
  lemma MayStays(place: Ptr -> int, g: Group, h: Group, fs: seq<Entry>)
    requires GroupKept(place, g) && g.may && (g.entries != [] || g.insts != [])
    requires h.entries == g.entries + fs && (g.insts != [] ==> h.insts != [])
    ensures !MustLike(place, h)
  {
    if MustLike(place, h) {
      PartsMustLike(place, h, g.entries, fs, true);
    }
  }

  ghost predicate Unrelated(aa: Oracle, s: set<Item>, t: set<Item>) {
    forall x, y | x in s && y in t :: !Related(aa, x, y)
  }

  /** Two sets with no related items never merge into a must set. */
  lemma MergedIsMay(aa: Oracle, place: Ptr -> int, g: Group, h: Group)
    requires Lawful(aa, place) && GroupKept(place, g) && GroupKept(place, h) && Unrelated(aa, Items(g), Items(h))
    requires Items(g) != {} && Items(h) != {}
    ensures Merged(aa, g, h).may && GroupKept(place, Merged(aa, g, h))
  {
    WitnessedAppend(place, g.entries, h.entries);
    if !g.may && !h.may {
      var l, r := g.entries[0], h.entries[0];
      if aa.alias(l.Now(), r.Now()) == MustAlias {
        FirstHasRoom(place, g);
        FirstHasRoom(place, h);
        assert aa.alias(l.Added(), r.Added()) == MustAlias;
        FirstsRelated(aa, g, h);
      }
    }
    MergedNotMust(aa, place, g, h);
  }

  lemma FirstsRelated(aa: Oracle, g: Group, h: Group)
    requires g.entries != [] && h.entries != [] && aa.alias(g.entries[0].Added(), h.entries[0].Added()) == MustAlias
    ensures !Unrelated(aa, Items(g), Items(h))
  {
    var l, r := g.entries[0], h.entries[0];
    assert l in g.entries && r in h.entries;
    assert PtrItem(l.Added()) in Items(g) && PtrItem(r.Added()) in Items(h);
    assert Related(aa, PtrItem(l.Added()), PtrItem(r.Added()));
  }

  /** And could not be one: two members at one place with room would be related. */
  lemma MergedNotMust(aa: Oracle, place: Ptr -> int, g: Group, h: Group)
    requires Lawful(aa, place) && Unrelated(aa, Items(g), Items(h)) && Items(g) != {} && Items(h) != {}
    ensures !MustLike(place, Merged(aa, g, h))
  {
    var all := Merged(aa, g, h);
    if MustLike(place, all) {
      assert g.entries != [] by { assert g.insts == []; }
      assert h.entries != [] by { assert h.insts == []; }
      assert all.entries[0] == g.entries[0] && all.entries[|g.entries|] == h.entries[0];
      assert aa.alias(g.entries[0].Added(), h.entries[0].Added()) == MustAlias;
      FirstsRelated(aa, g, h);
    }
  }

  lemma GrowFirstKept(place: Ptr -> int, es: seq<Entry>, loc: Loc)
    requires AllWitnessed(place, es) && es != [] && place(loc.ptr) == place(es[0].ptr)
    ensures AllWitnessed(place, GrowFirst(es, loc.size) + [Entry(loc.ptr, loc.size, loc.size)])
  {
    var fs := GrowFirst(es, loc.size) + [Entry(loc.ptr, loc.size, loc.size)];
    forall k | 0 <= k < |fs| ensures Witnessed(place, fs, k) {
      if k < |es| {
        assert Witnessed(place, es, k);
        var w :| 0 <= w < |es| && place(es[w].ptr) == place(es[k].ptr) && es[w].added == es[k].size;
        assert fs[w].added == es[w].added && fs[w].ptr == es[w].ptr;
      }
      assert fs[|es|].added == loc.size;
    }
  }

  /** Adding a pointer to a set it aliases keeps the shape. */
  lemma WithPointerKept(aa: Oracle, place: Ptr -> int, g: Group, loc: Loc)
    requires Lawful(aa, place)
    requires g == Group([], [], false) || (GroupKept(place, g) && AliasesPointer(aa, g, loc))
    ensures GroupKept(place, WithPointer(aa, g, loc, false))
  {
    var entry := Entry(loc.ptr, loc.size, loc.size);
    assert Witnessed(place, [entry], 0) by { assert [entry][0].added == loc.size; }
    if g.entries == [] {
      assert g.entries + [entry] == [entry];
    } else if !g.may && aa.alias(g.entries[0].Now(), loc) == MustAlias {
      GrowFirstKept(place, g.entries, loc);
      FirstHasRoom(place, g);
    } else {
      WitnessedAppend(place, g.entries, [entry]);
      if g.may {
        MayStays(place, g, WithPointer(aa, g, loc, false), [entry]);
      } else {
        NotAlikeNotMust(aa, place, g, loc);
      }
    }
  }

  /** A pointer that does not must-alias the first one is elsewhere, or there is no room for an access. */
  lemma NotAlikeNotMust(aa: Oracle, place: Ptr -> int, g: Group, loc: Loc)
    requires Lawful(aa, place) && GroupKept(place, g) && g.entries != [] && aa.alias(g.entries[0].Now(), loc) != MustAlias
    ensures forall insts, may :: !MustLike(place, Group(g.entries + [Entry(loc.ptr, loc.size, loc.size)], insts, may))
  {
    var es := g.entries + [Entry(loc.ptr, loc.size, loc.size)];
    assert Witnessed(place, g.entries, 0);
    assert es[0] == g.entries[0] && es[|g.entries|].ptr == loc.ptr && es[|g.entries|].added == loc.size;
  }

  lemma WithInstKept(place: Ptr -> int, g: Group, i: Inst)
    requires g == Group([], [], false) || GroupKept(place, g)
    ensures GroupKept(place, WithInst(g, i))
  {
  }

  /** A must set has no instructions, its members pairwise must-alias, and its first entry has the maximum size. */
  lemma MustSetMembers(aa: Oracle, place: Ptr -> int, g: Group, j: nat, k: nat)
    requires Lawful(aa, place) && GroupKept(place, g) && !g.may && j < k < |g.entries|
    ensures g.insts == [] && aa.alias(g.entries[j].Now(), g.entries[k].Now()) == MustAlias
    ensures g.entries[j].size <= g.entries[0].size && g.entries[k].size <= g.entries[0].size
  {
    assert Witnessed(place, g.entries, j) && Witnessed(place, g.entries, k);
  }
}
