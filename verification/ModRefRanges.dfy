/** Mod/ref answers for single instructions and for stretches of a basic block. */
module ModRefRanges {
  import opened ModRefModel
  import opened ModRefInfo
  import opened Wrappers

  /** unordered: neither volatile nor atomic beyond unordered; monotonic: no acquire or release. */
  datatype Inst =
    | Load(at: Loc, unordered: bool)
    | Store(at: Loc, unordered: bool)
    | VAArg(at: Loc)
    | CmpXchg(at: Loc, monotonic: bool)
    | RMW(at: Loc, monotonic: bool)
    | Fence
    | CallInst(call: Call)
    | Other

  /** What instructions really do: loads, stores and the like touch their own location unless they are ordered. */
  datatype Effects = Effects(readBy: Inst -> iset<Cell>, writtenBy: Inst -> iset<Cell>)

  ghost predicate OnlyAt(w: World, e: Effects, i: Inst, at: Loc) {
    e.readBy(i) <= w.cells(at) && e.writtenBy(i) <= w.cells(at)
  }

  /** Some cell of the object is written. */
  ghost predicate Advances(w: World, e: Effects, i: Inst, o: Object) {
    exists y :: y in e.writtenBy(i) && w.objectOf(y) == o
  }

  ghost predicate Behaves(w: World, e: Effects, i: Inst) {
    match i
    case Load(at, unordered) => unordered ==> OnlyAt(w, e, i, at) && e.writtenBy(i) == iset{}
    case Store(at, unordered) => unordered ==> OnlyAt(w, e, i, at) && e.readBy(i) == iset{}
    case VAArg(at) => OnlyAt(w, e, i, at) && forall x | x in e.readBy(i) :: Advances(w, e, i, w.objectOf(x))
    case CmpXchg(at, monotonic) => monotonic ==> OnlyAt(w, e, i, at)
    case RMW(at, monotonic) => monotonic ==> OnlyAt(w, e, i, at)
    case Fence => true
    case CallInst(call) => e.readBy(i) == w.readBy(call) && e.writtenBy(i) == w.writtenBy(call)
    case Other => e.readBy(i) == iset{} && e.writtenBy(i) == iset{}
  }

  /** The cells of a constant location are written by no instruction, and its objects by no va_arg. */
  ghost predicate ConstantMeans(w: World, chain: Chain, e: Effects, i: Inst) {
    forall loc | Constant(chain, loc) ::
      && e.writtenBy(i) !! w.cells(loc)
      && (i.VAArg? ==> forall x | x in w.cells(loc) :: !Advances(w, e, i, w.objectOf(x)))
  }

  /** The mask has Ref when the instruction reads a cell of the location and Mod when it writes one. */
  ghost predicate Covers(w: World, e: Effects, i: Inst, loc: Loc, m: Mask) {
    && (e.readBy(i) * w.cells(loc) != iset{} ==> m.ref)
    && (e.writtenBy(i) * w.cells(loc) != iset{} ==> m.mod)
  }

  /** Whatever the instruction does within its kind. */
  ghost predicate CoversAll(w: World, chain: Chain, i: Inst, loc: Loc, m: Mask) {
    forall e: Effects | Behaves(w, e, i) && ConstantMeans(w, chain, e, i) :: Covers(w, e, i, loc, m)
  }

  ghost function InstLoc(w: World, chain: Chain, i: Inst, loc: Loc): Mask {
    match i
    case Load(at, unordered) => if !unordered then MOD_REF else if NoAlias(chain, at, loc) then NO_MOD_REF else Mask(true, false)
    case Store(at, unordered) =>
      if !unordered then MOD_REF else if NoAlias(chain, at, loc) || Constant(chain, loc) then NO_MOD_REF else Mask(false, true)
    case VAArg(at) => if NoAlias(chain, at, loc) || Constant(chain, loc) then NO_MOD_REF else MOD_REF
    case CmpXchg(at, monotonic) => if monotonic && NoAlias(chain, at, loc) then NO_MOD_REF else MOD_REF
    case RMW(at, monotonic) => if monotonic && NoAlias(chain, at, loc) then NO_MOD_REF else MOD_REF
    case Fence => MOD_REF
    case CallInst(call) => CallLoc(w, chain, call, loc)
    case Other => NO_MOD_REF
  }

  /** An instruction that reads or writes a cell of the location is never said not to. */
  lemma InstLocSound(w: World, chain: Chain, e: Effects, i: Inst, loc: Loc)
    requires Sound(w, chain) && Behaves(w, e, i) && ConstantMeans(w, chain, e, i)
    ensures Covers(w, e, i, loc, InstLoc(w, chain, i, loc))
  {
    if i.CallInst? {
      CallLocSound(w, chain, i.call, loc);
    } else if !i.Fence? && !i.Other? {
      if NoAlias(chain, i.at, loc) {
        NoAliasSound(w, chain, i.at, loc);
        assert OnlyAt(w, e, i, i.at) ==> e.readBy(i) * w.cells(loc) == iset{} && e.writtenBy(i) * w.cells(loc) == iset{};
      } else if Constant(chain, loc) {
        assert e.writtenBy(i) * w.cells(loc) == iset{};
        assert i.VAArg? ==> forall x | x in w.cells(loc) :: x !in e.readBy(i);
      }
    }
  }

  /** The object of the cell has no cell that counts as constant. */
  ghost predicate NowhereConstant(w: World, chain: Chain, x: Cell) {
    forall loc, y | Constant(chain, loc) && y in w.cells(loc) :: w.objectOf(y) != w.objectOf(x)
  }

  /** The accesses of the cell that a mask speaks of. */
  function Doing(r: Mask, x: Cell): Effects {
    Effects(i => if r.ref then iset{x} else iset{}, i => if r.mod then iset{x} else iset{})
  }

  /** No bit too many: an instruction of the kind may do to a cell common to both locations all that the answer says. */
  lemma InstLocNeeds(w: World, chain: Chain, i: Inst, loc: Loc, x: Cell)
    requires !i.CallInst? && x in w.cells(loc) && (!i.Fence? && !i.Other? ==> x in w.cells(i.at)) && NowhereConstant(w, chain, x)
    ensures var r := InstLoc(w, chain, i, loc);
            var e := Doing(r, x);
            && Behaves(w, e, i) && ConstantMeans(w, chain, e, i)
            && (r.ref <==> e.readBy(i) * w.cells(loc) != iset{}) && (r.mod <==> e.writtenBy(i) * w.cells(loc) != iset{})
  {
    var r := InstLoc(w, chain, i, loc);
    var e := Doing(r, x);
    assert r.ref ==> x in e.readBy(i) * w.cells(loc);
    assert r.mod ==> x in e.writtenBy(i) * w.cells(loc) && Advances(w, e, i, w.objectOf(x));
  }

  /** getModRefInfo(I, Loc), by the kind of instruction: a bit that is not in the answer is an access that does not happen. */
  method GetInstLoc(w: World, chain: Chain, i: Inst, loc: Loc) returns (r: Mask)
    ensures Sound(w, chain) ==> CoversAll(w, chain, i, loc, r)
    ensures r == InstLoc(w, chain, i, loc)
  {
    if Sound(w, chain) {
      forall e: Effects | Behaves(w, e, i) && ConstantMeans(w, chain, e, i)
        ensures Covers(w, e, i, loc, InstLoc(w, chain, i, loc)) {
        InstLocSound(w, chain, e, i, loc);
      }
    }
    r := AnswerByKind(w, chain, i, loc);
  }

  method AnswerByKind(w: World, chain: Chain, i: Inst, loc: Loc) returns (r: Mask)
    ensures r == InstLoc(w, chain, i, loc)
  {
    match i
    case Load(at, unordered) =>
      if !unordered {
        return MOD_REF;
      }
      r := if NoAlias(chain, at, loc) then NO_MOD_REF else Mask(true, false);
    case Store(at, unordered) =>
      if !unordered {
        return MOD_REF;
      }
      if NoAlias(chain, at, loc) {
        return NO_MOD_REF;
      }
      r := if Constant(chain, loc) then NO_MOD_REF else Mask(false, true);
    case VAArg(at) =>
      if NoAlias(chain, at, loc) {
        return NO_MOD_REF;
      }
      r := if Constant(chain, loc) then NO_MOD_REF else MOD_REF;
    case CmpXchg(at, monotonic) =>
      if !monotonic {
        return MOD_REF;
      }
      r := if NoAlias(chain, at, loc) then NO_MOD_REF else MOD_REF;
    case RMW(at, monotonic) =>
      if !monotonic {
        return MOD_REF;
      }
      r := if NoAlias(chain, at, loc) then NO_MOD_REF else MOD_REF;
    case Fence =>
      r := MOD_REF;
    case CallInst(call) =>
      r := GetCallLoc(w, chain, call, loc);
    case Other =>
      r := NO_MOD_REF;
  }

  ghost predicate Touches(w: World, e: Effects, i: Inst, loc: Loc, mode: Mask) {
    (mode.ref && e.readBy(i) * w.cells(loc) != iset{}) || (mode.mod && e.writtenBy(i) * w.cells(loc) != iset{})
  }

  /** canInstructionRangeModRef, for the instructions from the first to the last. */
  method CanInstructionRangeModRef(w: World, chain: Chain, block: seq<Inst>, first: nat, last: nat, loc: Loc, mode: Mask) returns (r: bool)
    requires first <= last < |block|
    ensures r <==> exists k :: first <= k <= last && InstLoc(w, chain, block[k], loc).And(mode).Some()
    ensures !r && Sound(w, chain) ==> forall e: Effects | AllBehave(w, chain, e, block, first, last) ::
              forall k | first <= k <= last :: !Touches(w, e, block[k], loc, mode)
  {
    for k := first to last + 1
      invariant forall j | first <= j < k :: !InstLoc(w, chain, block[j], loc).And(mode).Some()
    {
      var info := GetInstLoc(w, chain, block[k], loc);
      if info.And(mode).Some() {
        return true;
      }
    }
    r := false;
    if Sound(w, chain) {
      forall e: Effects | AllBehave(w, chain, e, block, first, last)
        ensures forall k | first <= k <= last :: !Touches(w, e, block[k], loc, mode) {
        RangeSound(w, chain, e, block, first, last, loc, mode);
      }
    }
  }

  ghost predicate AllBehave(w: World, chain: Chain, e: Effects, block: seq<Inst>, first: nat, last: nat)
    requires first <= last < |block|
  {
    forall k | first <= k <= last :: Behaves(w, e, block[k]) && ConstantMeans(w, chain, e, block[k])
  }

  /** When the answer for a stretch is no, nothing in it touches the location in the way asked about. */
  lemma RangeSound(w: World, chain: Chain, e: Effects, block: seq<Inst>, first: nat, last: nat, loc: Loc, mode: Mask)
    requires first <= last < |block| && Sound(w, chain)
    requires AllBehave(w, chain, e, block, first, last)
    requires forall k | first <= k <= last :: !InstLoc(w, chain, block[k], loc).And(mode).Some()
    ensures forall k | first <= k <= last :: !Touches(w, e, block[k], loc, mode)
  {
    forall k | first <= k <= last ensures !Touches(w, e, block[k], loc, mode) {
      InstLocSound(w, chain, e, block[k], loc);
    }
  }

  // ----- An instruction and a call -----

  ghost function InstCall(w: World, chain: Chain, i: Inst, call: Call, at: Loc): Mask {
    if i.CallInst? then CallCall(w, chain, call, i.call)
    else if CallLoc(w, chain, call, at).Some() then MOD_REF else NO_MOD_REF
  }

  /** The call and the instruction share no cell that one of them writes. */
  ghost predicate Independent(w: World, e: Effects, i: Inst, call: Call) {
    w.writtenBy(call) !! e.readBy(i) + e.writtenBy(i) && w.readBy(call) !! e.writtenBy(i)
  }

  /** getModRefInfo(I, Call), for an instruction whose own location is known: NoModRef lets the two change places. */
  method GetInstCall(w: World, chain: Chain, i: Inst, call: Call, at: Loc) returns (r: Mask)
    ensures r == InstCall(w, chain, i, call, at)
    ensures Sound(w, chain) && r == NO_MOD_REF ==>
              forall e: Effects | Behaves(w, e, i) && (!i.CallInst? ==> OnlyAt(w, e, i, at)) :: Independent(w, e, i, call)
  {
    if Sound(w, chain) && InstCall(w, chain, i, call, at) == NO_MOD_REF {
      forall e: Effects | Behaves(w, e, i) && (!i.CallInst? ==> OnlyAt(w, e, i, at)) ensures Independent(w, e, i, call) {
        InstCallSound(w, chain, e, i, call, at);
      }
    }
    if i.CallInst? {
      r := GetCallCall(w, chain, call, i.call);
    } else {
      var info := GetCallLoc(w, chain, call, at);
      r := if info.Some() then MOD_REF else NO_MOD_REF;
    }
  }

  lemma Apart(a: iset<Cell>, b: iset<Cell>)
    requires a * b == iset{}
    ensures a !! b
  {
    assert forall x :: x in a && x in b ==> x in a * b;
  }

  /** NoModRef means that the call and the instruction share no cell that one of them writes. */
  lemma InstCallSound(w: World, chain: Chain, e: Effects, i: Inst, call: Call, at: Loc)
    requires Sound(w, chain) && Behaves(w, e, i) && (!i.CallInst? ==> OnlyAt(w, e, i, at))
    requires InstCall(w, chain, i, call, at) == NO_MOD_REF
    ensures Independent(w, e, i, call)
  {
    if i.CallInst? {
      CallCallSound(w, chain, call, i.call);
      Apart(w.writtenBy(call), e.readBy(i) + e.writtenBy(i));
      Apart(w.readBy(call), e.writtenBy(i));
    } else {
      CallLocSound(w, chain, call, at);
      forall x | x in e.readBy(i) + e.writtenBy(i) ensures x !in w.readBy(call) && x !in w.writtenBy(call) {
        assert x in w.cells(at);
        assert x !in w.readBy(call) * w.cells(at) && x !in w.writtenBy(call) * w.cells(at);
      }
    }
  }
}
