/** Mod/ref queries about calls: masks accumulated over arguments and intersected along the chain. */
module ModRefInfo {
  import opened ModRefModel
  import opened Wrappers

  // ----- A call and a location -----

  /** The argument is a pointer whose location may overlap the one asked about. */
  predicate Reaches(w: World, chain: Chain, c: Call, loc: Loc, i: nat) {
    i < |c.args| && c.args[i] && !NoAlias(chain, w.argLoc(c, i), loc)
  }

  /** What the arguments that may overlap the location allow, together. */
  ghost function ThroughArgs(w: World, chain: Chain, c: Call, loc: Loc): Mask {
    Mask(exists i: nat :: Reaches(w, chain, c, loc, i) && ArgInfo(chain, c, i).ref,
         exists i: nat :: Reaches(w, chain, c, loc, i) && ArgInfo(chain, c, i).mod)
  }

  /** One analysis' bits for a call and a location, before the rest of the chain. */
  ghost function CallLocHere(w: World, chain: Chain, c: Call, loc: Loc): Mask {
    var b := CallBehavior(chain, c);
    var args := if b.other then MOD_REF else if b.DoesAccessArgPointees() then ThroughArgs(w, chain, c, loc) else NO_MOD_REF;
    if b == DOES_NOT_ACCESS_MEMORY then NO_MOD_REF
    else Mask(args.ref, args.mod && b.mod && !Constant(chain, loc))
  }

  ghost function CallLoc(w: World, chain: Chain, c: Call, loc: Loc): Mask {
    if chain.NoAA? then MOD_REF
    else chain.own.callLoc(c, loc).And(CallLocHere(w, chain, c, loc).And(CallLoc(w, chain.next, c, loc)))
  }

  /** getModRefInfo(CS, Loc). */
  method GetCallLoc(w: World, chain: Chain, c: Call, loc: Loc) returns (r: Mask)
    ensures r == CallLoc(w, chain, c, loc)
    decreases chain
  {
    if chain.NoAA? {
      return MOD_REF;
    }
    var own := chain.own.callLoc(c, loc);
    var behavior := CallBehavior(chain, c);
    if behavior == DOES_NOT_ACCESS_MEMORY {
      return NO_MOD_REF;
    }
    var mask := MOD_REF;
    if behavior.OnlyReadsMemory() {
      mask := Mask(true, false);
    }
    if behavior.OnlyAccessesArgPointees() {
      var doesAlias := false;
      var allArgsMask := NO_MOD_REF;
      if behavior.DoesAccessArgPointees() {
        for i := 0 to |c.args|
          invariant doesAlias <==> exists j: nat :: j < i && Reaches(w, chain, c, loc, j)
          invariant allArgsMask.ref <==> exists j: nat :: j < i && Reaches(w, chain, c, loc, j) && ArgInfo(chain, c, j).ref
          invariant allArgsMask.mod <==> exists j: nat :: j < i && Reaches(w, chain, c, loc, j) && ArgInfo(chain, c, j).mod
        {
          if c.args[i] && !NoAlias(chain, w.argLoc(c, i), loc) {
            assert Reaches(w, chain, c, loc, i);
            doesAlias := true;
            allArgsMask := allArgsMask.Or(ArgInfo(chain, c, i));
          }
        }
      }
      if !doesAlias {
        return NO_MOD_REF;
      }
      mask := mask.And(allArgsMask);
    }
    if mask.mod && Constant(chain, loc) {
      mask := Mask(mask.ref, false);
    }
    var next := GetCallLoc(w, chain.next, c, loc);
    r := own.And(mask.And(next));
  }

  /** The bits of every analysis of the chain cover what the call does to the location. */
  lemma {:induction false} CallLocSound(w: World, chain: Chain, c: Call, loc: Loc)
    requires Sound(w, chain)
    ensures CoversLoc(w, c, loc, CallLoc(w, chain, c, loc))
    decreases chain
  {
    if chain.Link? {
      CallLocSound(w, chain.next, c, loc);
      CallLocHereSound(w, chain, c, loc);
      assert CoversLoc(w, c, loc, chain.own.callLoc(c, loc));
    }
  }

  lemma CallLocHereSound(w: World, chain: Chain, c: Call, loc: Loc)
    requires Sound(w, chain)
    ensures CoversLoc(w, c, loc, CallLocHere(w, chain, c, loc))
  {
    var b, m := CallBehavior(chain, c), CallLocHere(w, chain, c, loc);
    CallBehaviorSound(w, chain, c);
    if w.readBy(c) * w.cells(loc) != iset{} {
      var x :| x in w.readBy(c) && x in w.cells(loc);
      if !b.other {
        var i: nat :| i < |c.args| && c.args[i] && x in w.readVia(c, i);
        ReachesThrough(w, chain, c, loc, i, x);
      }
    }
    if w.writtenBy(c) * w.cells(loc) != iset{} {
      var x :| x in w.writtenBy(c) && x in w.cells(loc);
      if Constant(chain, loc) {
        ConstantSound(w, chain, loc, c);
      } else if !b.other {
        var i: nat :| i < |c.args| && c.args[i] && x in w.writtenVia(c, i);
        ReachesThrough(w, chain, c, loc, i, x);
      }
    }
  }

  /** An argument through which a cell of the location is accessed reaches the location, with the right bit. */
  lemma ReachesThrough(w: World, chain: Chain, c: Call, loc: Loc, i: nat, x: Cell)
    requires Sound(w, chain) && i < |c.args| && c.args[i] && x in w.cells(loc) && x in w.readVia(c, i) + w.writtenVia(c, i)
    ensures Reaches(w, chain, c, loc, i)
    ensures x in w.readVia(c, i) ==> ArgInfo(chain, c, i).ref
    ensures x in w.writtenVia(c, i) ==> ArgInfo(chain, c, i).mod
  {
    assert x in w.cells(w.argLoc(c, i));
    if NoAlias(chain, w.argLoc(c, i), loc) {
      NoAliasSound(w, chain, w.argLoc(c, i), loc);
    }
    ArgInfoSound(w, chain, c, i);
  }

  // ----- Two calls -----

  /** The dependence of the first call on what the second does through an argument: reads matter only to writes. */
  function Inverse(m: Mask): Mask { Mask(m.mod, m.ref || m.mod) }

  /** The first call against the arguments of the second. */
  ghost function AgainstArgs(w: World, chain: Chain, c: Call, d: Call): Mask {
    Mask(exists j: nat :: j < |d.args| && d.args[j] && AgainstArg(w, chain, c, d, j).ref,
         exists j: nat :: j < |d.args| && d.args[j] && AgainstArg(w, chain, c, d, j).mod)
  }

  ghost function AgainstArg(w: World, chain: Chain, c: Call, d: Call, j: nat): Mask {
    CallLoc(w, chain, c, w.argLoc(d, j)).And(Inverse(ArgInfo(chain, d, j)))
  }

  /** The second call touches what the first writes through the argument, or writes what it reads. */
  ghost predicate Touched(w: World, chain: Chain, c: Call, d: Call, i: nat) {
    var mine, its := ArgInfo(chain, c, i), CallLoc(w, chain, d, w.argLoc(c, i));
    i < |c.args| && c.args[i] && ((mine.mod && its.Some()) || (mine.ref && its.mod))
  }

  ghost function FromArgs(w: World, chain: Chain, c: Call, d: Call): Mask {
    Mask(exists i: nat :: Touched(w, chain, c, d, i) && ArgInfo(chain, c, i).ref,
         exists i: nat :: Touched(w, chain, c, d, i) && ArgInfo(chain, c, i).mod)
  }

  ghost function CallCall(w: World, chain: Chain, c: Call, d: Call): Mask {
    if chain.NoAA? then MOD_REF
    else
      var b1, b2 := CallBehavior(chain, c), CallBehavior(chain, d);
      var mask := Mask(true, b1.mod);
      if b1 == DOES_NOT_ACCESS_MEMORY || b2 == DOES_NOT_ACCESS_MEMORY || (!b1.mod && !b2.mod) then NO_MOD_REF
      else chain.own.callCall(c, d).And(
        if !b2.other then if b2.DoesAccessArgPointees() then AgainstArgs(w, chain, c, d).And(mask) else NO_MOD_REF
        else if !b1.other then if b1.DoesAccessArgPointees() then FromArgs(w, chain, c, d).And(mask) else NO_MOD_REF
        else CallCall(w, chain.next, c, d).And(mask))
  }

  /** getModRefInfo(CS1, CS2), with the loops over arguments that stop when nothing can be added. */
  method GetCallCall(w: World, chain: Chain, c: Call, d: Call) returns (r: Mask)
    ensures r == CallCall(w, chain, c, d)
    decreases chain
  {
    if chain.NoAA? {
      return MOD_REF;
    }
    var b1, b2 := CallBehavior(chain, c), CallBehavior(chain, d);
    if b1 == DOES_NOT_ACCESS_MEMORY || b2 == DOES_NOT_ACCESS_MEMORY {
      return NO_MOD_REF;
    }
    if b1.OnlyReadsMemory() && b2.OnlyReadsMemory() {
      return NO_MOD_REF;
    }
    var mask := MOD_REF;
    if b1.OnlyReadsMemory() {
      mask := mask.And(Mask(true, false));
    }
    if b2.OnlyAccessesArgPointees() {
      r := NO_MOD_REF;
      if b2.DoesAccessArgPointees() {
        r := ScanTheirs(w, chain, c, d, mask);
      }
    } else if b1.OnlyAccessesArgPointees() {
      r := NO_MOD_REF;
      if b1.DoesAccessArgPointees() {
        r := ScanMine(w, chain, c, d, mask);
      }
    } else {
      r := GetCallCall(w, chain.next, c, d);
      r := r.And(mask);
    }
    r := chain.own.callCall(c, d).And(r);
  }

  /** The loop over the second call's arguments. */
  method ScanTheirs(w: World, chain: Chain, c: Call, d: Call, mask: Mask) returns (r: Mask)
    requires mask.ref
    ensures r == AgainstArgs(w, chain, c, d).And(mask)
  {
    r := NO_MOD_REF;
    for j := 0 to |d.args|
      invariant r.ref <==> exists k: nat :: k < j && d.args[k] && AgainstArg(w, chain, c, d, k).ref
      invariant r.mod <==> mask.mod && exists k: nat :: k < j && d.args[k] && AgainstArg(w, chain, c, d, k).mod
    {
      if d.args[j] {
        var argMask := ArgInfo(chain, d, j);
        if argMask == Mask(false, true) {
          argMask := MOD_REF;
        } else if argMask == Mask(true, false) {
          argMask := Mask(false, true);
        }
        var info := GetCallLoc(w, chain, c, w.argLoc(d, j));
        assert info.And(argMask) == AgainstArg(w, chain, c, d, j);
        r := r.Or(info.And(argMask)).And(mask);
        if r == mask {
          break;
        }
      }
    }
  }

  /** The loop over the first call's arguments. */
  method ScanMine(w: World, chain: Chain, c: Call, d: Call, mask: Mask) returns (r: Mask)
    requires mask.ref
    ensures r == FromArgs(w, chain, c, d).And(mask)
  {
    r := NO_MOD_REF;
    for i := 0 to |c.args|
      invariant r.ref <==> exists k: nat :: k < i && Touched(w, chain, c, d, k) && ArgInfo(chain, c, k).ref
      invariant r.mod <==> mask.mod && exists k: nat :: k < i && Touched(w, chain, c, d, k) && ArgInfo(chain, c, k).mod
    {
      if c.args[i] {
        var argMask := ArgInfo(chain, c, i);
        var argR := GetCallLoc(w, chain, d, w.argLoc(c, i));
        if (argMask.mod && argR.Some()) || (argMask.ref && argR.mod) {
          assert Touched(w, chain, c, d, i);
          r := r.Or(argMask).And(mask);
        }
        if r == mask {
          break;
        }
      }
    }
  }

  /** Mod whenever the first call writes what the second accesses, Ref whenever it reads what the second writes. */
  lemma {:induction false} CallCallSound(w: World, chain: Chain, c: Call, d: Call)
    requires Sound(w, chain)
    ensures CoversCall(w, c, d, CallCall(w, chain, c, d))
    decreases chain
  {
    if chain.Link? {
      CallCallSound(w, chain.next, c, d);
      CallBehaviorSound(w, chain, c);
      CallBehaviorSound(w, chain, d);
      assert CoversCall(w, c, d, chain.own.callCall(c, d));
      if w.writtenBy(c) * (w.readBy(d) + w.writtenBy(d)) != iset{} {
        var x :| x in w.writtenBy(c) && x in w.readBy(d) + w.writtenBy(d);
        WriteCovered(w, chain, c, d, x);
      }
      if w.readBy(c) * w.writtenBy(d) != iset{} {
        var x :| x in w.readBy(c) && x in w.writtenBy(d);
        ReadCovered(w, chain, c, d, x);
      }
    }
  }

  lemma WriteCovered(w: World, chain: Chain, c: Call, d: Call, x: Cell)
    requires Sound(w, chain) && x in w.writtenBy(c) && x in w.readBy(d) + w.writtenBy(d)
    ensures !CallBehavior(chain, d).other ==> AgainstArgs(w, chain, c, d).mod
    ensures !CallBehavior(chain, c).other ==> FromArgs(w, chain, c, d).mod
  {
    CallBehaviorSound(w, chain, c);
    CallBehaviorSound(w, chain, d);
    if !CallBehavior(chain, d).other {
      var j: nat :| j < |d.args| && d.args[j] && x in w.readVia(d, j) + w.writtenVia(d, j);
      ThroughArgument(w, chain, d, c, j, x);
      assert AgainstArg(w, chain, c, d, j).mod;
    }
    if !CallBehavior(chain, c).other {
      var i: nat :| i < |c.args| && c.args[i] && x in w.writtenVia(c, i);
      ThroughArgument(w, chain, c, d, i, x);
      assert Touched(w, chain, c, d, i);
    }
  }

  lemma ReadCovered(w: World, chain: Chain, c: Call, d: Call, x: Cell)
    requires Sound(w, chain) && x in w.readBy(c) && x in w.writtenBy(d)
    ensures !CallBehavior(chain, d).other ==> AgainstArgs(w, chain, c, d).ref
    ensures !CallBehavior(chain, c).other ==> FromArgs(w, chain, c, d).ref
  {
    CallBehaviorSound(w, chain, c);
    CallBehaviorSound(w, chain, d);
    if !CallBehavior(chain, d).other {
      var j: nat :| j < |d.args| && d.args[j] && x in w.writtenVia(d, j);
      ThroughArgument(w, chain, d, c, j, x);
      assert AgainstArg(w, chain, c, d, j).ref;
    }
    if !CallBehavior(chain, c).other {
      var i: nat :| i < |c.args| && c.args[i] && x in w.readVia(c, i);
      ThroughArgument(w, chain, c, d, i, x);
      assert Touched(w, chain, c, d, i);
    }
  }

  /** A cell that one call reaches through an argument, and what the other call's answer for the argument says. */
  lemma ThroughArgument(w: World, chain: Chain, c: Call, d: Call, i: nat, x: Cell)
    requires Sound(w, chain) && i < |c.args| && c.args[i] && x in w.readVia(c, i) + w.writtenVia(c, i)
    ensures x in w.readVia(c, i) ==> ArgInfo(chain, c, i).ref
    ensures x in w.writtenVia(c, i) ==> ArgInfo(chain, c, i).mod
    ensures x in w.readBy(d) ==> CallLoc(w, chain, d, w.argLoc(c, i)).ref
    ensures x in w.writtenBy(d) ==> CallLoc(w, chain, d, w.argLoc(c, i)).mod
  {
    ArgInfoSound(w, chain, c, i);
    CallLocSound(w, chain, d, w.argLoc(c, i));
    assert x in w.cells(w.argLoc(c, i));
    assert x in w.readBy(d) ==> x in w.readBy(d) * w.cells(w.argLoc(c, i));
    assert x in w.writtenBy(d) ==> x in w.writtenBy(d) * w.cells(w.argLoc(c, i));
  }

  // ----- What every bit needs -----

  /** An argument through which the call may do so overlaps the location. */
  ghost predicate SomeArgument(w: World, chain: Chain, c: Call, loc: Loc, ref: bool, mod: bool) {
    exists i: nat :: Reaches(w, chain, c, loc, i) && (ref ==> ArgInfo(chain, c, i).ref) && (mod ==> ArgInfo(chain, c, i).mod)
  }

  /**
   No bit without a reason at every analysis of the chain: a call that touches its arguments only
   has an argument there with that bit, and Mod is of a call that may write and of a location
   that is not constant.
   */
  lemma {:induction false} CallLocNeeds(w: World, chain: Chain, c: Call, loc: Loc)
    requires chain.Link?
    ensures var r, b := CallLoc(w, chain, c, loc), CallBehavior(chain, c);
            && (r.ref ==> chain.own.callLoc(c, loc).ref && CallLoc(w, chain.next, c, loc).ref && b != DOES_NOT_ACCESS_MEMORY)
            && (r.mod ==> chain.own.callLoc(c, loc).mod && CallLoc(w, chain.next, c, loc).mod && b.mod && !Constant(chain, loc))
            && (!b.other && r.ref ==> b.arg && SomeArgument(w, chain, c, loc, true, false))
            && (!b.other && r.mod ==> b.arg && SomeArgument(w, chain, c, loc, false, true))
  {
    var r, b := CallLoc(w, chain, c, loc), CallBehavior(chain, c);
    if !b.other && r.ref {
      var i: nat :| Reaches(w, chain, c, loc, i) && ArgInfo(chain, c, i).ref;
      assert Reaches(w, chain, c, loc, i);
    }
    if !b.other && r.mod {
      var i: nat :| Reaches(w, chain, c, loc, i) && ArgInfo(chain, c, i).mod;
      assert Reaches(w, chain, c, loc, i);
    }
  }

  /** The second call may write through an argument that the first may read, or access through one that it may write. */
  ghost predicate TheirArgument(w: World, chain: Chain, c: Call, d: Call, ref: bool, mod: bool) {
    exists j: nat :: j < |d.args| && d.args[j]
      && (ref ==> ArgInfo(chain, d, j).mod && CallLoc(w, chain, c, w.argLoc(d, j)).ref)
      && (mod ==> ArgInfo(chain, d, j).Some() && CallLoc(w, chain, c, w.argLoc(d, j)).mod)
  }

  /** The first call has an argument with the bit, and the second does there what makes it matter. */
  ghost predicate MyArgument(w: World, chain: Chain, c: Call, d: Call, ref: bool, mod: bool) {
    exists i: nat :: i < |c.args| && c.args[i] && (ref ==> ArgInfo(chain, c, i).ref) && (mod ==> ArgInfo(chain, c, i).mod)
      && (CallLoc(w, chain, d, w.argLoc(c, i)).mod || (ArgInfo(chain, c, i).mod && CallLoc(w, chain, d, w.argLoc(c, i)).ref))
  }

  /**
   No bit of two calls without a reason. One of them may write, and Mod is of a first call that
   may. Against a second call that touches its arguments only, Ref needs an argument that it may
   write, and Mod one that it may access; of a first such call a bit needs an argument of its own.
   */
  lemma CallCallNeeds(w: World, chain: Chain, c: Call, d: Call)
    requires chain.Link?
    ensures var r, b1, b2 := CallCall(w, chain, c, d), CallBehavior(chain, c), CallBehavior(chain, d);
            && (r.Some() ==> b1 != DOES_NOT_ACCESS_MEMORY && b2 != DOES_NOT_ACCESS_MEMORY && (b1.mod || b2.mod))
            && (r.ref ==> chain.own.callCall(c, d).ref) && (r.mod ==> chain.own.callCall(c, d).mod && b1.mod)
            && (!b2.other && r.ref ==> b2.arg && TheirArgument(w, chain, c, d, true, false))
            && (!b2.other && r.mod ==> b2.arg && TheirArgument(w, chain, c, d, false, true))
            && (b2.other && !b1.other && r.ref ==> b1.arg && MyArgument(w, chain, c, d, true, false))
            && (b2.other && !b1.other && r.mod ==> b1.arg && MyArgument(w, chain, c, d, false, true))
            && (b1.other && b2.other ==> (r.ref ==> CallCall(w, chain.next, c, d).ref) && (r.mod ==> CallCall(w, chain.next, c, d).mod))
  {
    var r, b1, b2 := CallCall(w, chain, c, d), CallBehavior(chain, c), CallBehavior(chain, d);
    if !b2.other && r.ref {
      var j: nat :| j < |d.args| && d.args[j] && AgainstArg(w, chain, c, d, j).ref;
      assert ArgInfo(chain, d, j).mod && CallLoc(w, chain, c, w.argLoc(d, j)).ref;
    }
    if !b2.other && r.mod {
      var j: nat :| j < |d.args| && d.args[j] && AgainstArg(w, chain, c, d, j).mod;
      assert ArgInfo(chain, d, j).Some() && CallLoc(w, chain, c, w.argLoc(d, j)).mod;
    }
    if b2.other && !b1.other && r.ref {
      var i: nat :| Touched(w, chain, c, d, i) && ArgInfo(chain, c, i).ref;
      assert c.args[i];
    }
    if b2.other && !b1.other && r.mod {
      var i: nat :| Touched(w, chain, c, d, i) && ArgInfo(chain, c, i).mod;
      assert c.args[i];
    }
  }
}
