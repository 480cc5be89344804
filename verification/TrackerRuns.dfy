/** Runs of a tracker that only add: the items they add, and that their order does not matter. */
module TrackerRuns {
  import opened AliasGroups
  import opened Components
  import opened TrackerState
  import opened AliasPartition
  import opened Wrappers

  /** Debug-info intrinsics and instructions that touch no memory are not tracked. */
  predicate Tracked(inst: Inst) {
    !inst.isDebugInfo && inst.MayReadOrWrite()
  }

  datatype Op = AddPtr(loc: Loc) | AddInst(inst: Inst)

  /** No pointer is added again with a larger size. */
  ghost predicate NoGrowth(ops: seq<Op>) {
    forall i, j | 0 <= i < j < |ops| && ops[i].AddPtr? && ops[j].AddPtr? && ops[i].loc.ptr == ops[j].loc.ptr ::
      ops[j].loc.size <= ops[i].loc.size
  }

  ghost function PtrsOf(ops: seq<Op>): set<Ptr> {
    set op | op in ops && op.AddPtr? :: op.loc.ptr
  }

  /** Pointers count once, at the largest size they were added with. */
  ghost predicate Contributes(ops: seq<Op>, op: Op) {
    match op
    case AddPtr(loc) => forall q | q in ops && q.AddPtr? && q.loc.ptr == loc.ptr :: q.loc.size <= loc.size
    case AddInst(inst) => Tracked(inst)
  }

  ghost function ItemOf(op: Op): Item {
    if op.AddPtr? then PtrItem(op.loc) else InstItem(op.inst)
  }

  /** What a run adds; only the set of its operations matters, not their order. */
  ghost function ItemsOf(ops: seq<Op>): set<Item> {
    set op | op in ops && Contributes(ops, op) :: ItemOf(op)
  }

  /** What the last operation adds. */
  ghost function LastItems(op: Op, known: set<Ptr>): set<Item> {
    match op
    case AddPtr(loc) => if loc.ptr in known then {} else {PtrItem(loc)}
    case AddInst(inst) => if Tracked(inst) then {InstItem(inst)} else {}
  }

  lemma PtrsSnoc(ops: seq<Op>, k: nat)
    requires k < |ops|
    ensures PtrsOf(ops[..k + 1]) == PtrsOf(ops[..k]) + if ops[k].AddPtr? then {ops[k].loc.ptr} else {}
  {
    assert ops[..k + 1] == ops[..k] + [ops[k]];
  }

  /** Earlier operations contribute exactly as before. */
  lemma ContributesSnoc(ops: seq<Op>, k: nat, q: Op)
    requires NoGrowth(ops) && k < |ops| && q in ops[..k]
    ensures Contributes(ops[..k + 1], q) <==> Contributes(ops[..k], q)
  {
    assert ops[..k + 1] == ops[..k] + [ops[k]];
    var i :| 0 <= i < k && ops[i] == q;
  }

  /** A repeated pointer adds no new item. */
  lemma RepeatContributesNothing(ops: seq<Op>, k: nat)
    requires NoGrowth(ops) && k < |ops| && ops[k].AddPtr? && ops[k].loc.ptr in PtrsOf(ops[..k])
    requires Contributes(ops[..k + 1], ops[k])
    ensures ItemOf(ops[k]) in ItemsOf(ops[..k])
  {
    assert ops[..k + 1] == ops[..k] + [ops[k]];
    var q :| q in ops[..k] && q.AddPtr? && q.loc.ptr == ops[k].loc.ptr;
    var i :| 0 <= i < k && ops[i] == q;
    assert q.loc.size == ops[k].loc.size;
    assert Contributes(ops[..k], q);
    assert ItemOf(q) == ItemOf(ops[k]);
  }

  lemma ItemsSnoc(ops: seq<Op>, k: nat)
    requires NoGrowth(ops) && k < |ops|
    ensures ItemsOf(ops[..k + 1]) == ItemsOf(ops[..k]) + LastItems(ops[k], PtrsOf(ops[..k]))
  {
    var a, b, op := ops[..k], ops[..k + 1], ops[k];
    assert b == a + [op];
    forall x | x in ItemsOf(b) ensures x in ItemsOf(a) + LastItems(op, PtrsOf(a)) {
      var q :| q in b && Contributes(b, q) && x == ItemOf(q);
      if q in a {
        ContributesSnoc(ops, k, q);
      } else if op.AddPtr? && op.loc.ptr in PtrsOf(a) {
        RepeatContributesNothing(ops, k);
      }
    }
    forall x | x in ItemsOf(a) ensures x in ItemsOf(b) {
      var q :| q in a && Contributes(a, q) && x == ItemOf(q);
      ContributesSnoc(ops, k, q);
      assert q in b;
    }
    if LastItems(op, PtrsOf(a)) != {} {
      assert Contributes(b, op);
    }
  }

  /** Two orders of the same operations add the same items. */
  lemma OrderAddsSame(ops: seq<Op>, ops': seq<Op>)
    requires multiset(ops) == multiset(ops')
    ensures ItemsOf(ops) == ItemsOf(ops')
  {
    assert forall q :: q in ops <==> q in multiset(ops);
    assert forall q :: q in ops' <==> q in multiset(ops');
    assert forall q :: Contributes(ops, q) <==> Contributes(ops', q);
  }

  /** The partition does not depend on the order of insertion. */
  lemma OrderIrrelevant(aa: Oracle, ops: seq<Op>, ops': seq<Op>, parts: set<set<Item>>, parts': set<set<Item>>)
    requires multiset(ops) == multiset(ops')
    requires AreComponents(aa, ItemsOf(ops), parts) && AreComponents(aa, ItemsOf(ops'), parts')
    ensures parts == parts'
  {
    OrderAddsSame(ops, ops');
    ComponentsUnique(aa, ItemsOf(ops), parts, parts');
  }

  lemma EmptyRun(aa: Oracle, place: Ptr -> int, st: State)
    requires st.sets == map[]
    ensures View(st) == map[] && AllItems(View(st)) == {} && Partitioned(aa, place, View(st))
  {
  }

  /** The recorded size of a placed pointer is at least the size it was added with, which is that of an item. */
  lemma RecordedAtLeast(aa: Oracle, place: Ptr -> int, st: State, p: Ptr)
    requires Linked(st) && Partitioned(aa, place, View(st)) && p in st.recs && st.recs[p].set_.Some?
    ensures p in st.added && st.added[p] <= st.recs[p].size && PtrItem(Loc(p, st.added[p])) in AllItems(View(st))
  {
    assert RecGood(st, p);
    var r := st.rep[st.recs[p].set_.value];
    assert ForwardGood(st, st.recs[p].set_.value);
    ViewOfLinked(st);
    assert KeptAt(place, View(st), r);
    var g := View(st)[r];
    var k :| 0 <= k < |st.sets[r].list| && st.sets[r].list[k] == p;
    assert g.entries[k] == Entry(p, st.added[p], st.recs[p].size);
    assert Witnessed(place, g.entries, k);
    assert g.entries[k] in g.entries;
    assert PtrItem(g.entries[k].Added()) in Items(g);
  }

  /** Under no growth, an operation on a known pointer asks for no more than is recorded. */
  lemma NextNotGrowing(aa: Oracle, place: Ptr -> int, st: State, ops: seq<Op>, k: nat)
    requires Linked(st) && Partitioned(aa, place, View(st)) && NoGrowth(ops) && k < |ops|
    requires AllItems(View(st)) == ItemsOf(ops[..k]) && ops[k].AddPtr? && ops[k].loc.ptr in st.recs && st.recs[ops[k].loc.ptr].set_.Some?
    ensures ops[k].loc.size <= st.recs[ops[k].loc.ptr].size
  {
    var p := ops[k].loc.ptr;
    RecordedAtLeast(aa, place, st, p);
    var q :| q in ops[..k] && Contributes(ops[..k], q) && ItemOf(q) == PtrItem(Loc(p, st.added[p]));
    var i :| 0 <= i < k && ops[i] == q;
  }
}
