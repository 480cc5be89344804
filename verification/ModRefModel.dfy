/**
 Calls, locations and the chain of alias analyses that answers questions about them: what each
 analysis says by itself, how the answers combine along the chain, and when they are sound.
 */
module ModRefModel {
  import opened Wrappers

  type CallId(==, !new)
  type Fn(==, !new)
  type Loc(==, !new)
  type Cell(==, !new)
  type Object(==, !new)

  /** A call site: the function it is known to call, and which arguments are pointers. */
  datatype Call = Call(id: CallId, callee: Option<Fn>, args: seq<bool>)

  /** NoModRef, Ref, Mod and ModRef by their bits. */
  datatype Mask = Mask(ref: bool, mod: bool)
  {
    function And(m: Mask): Mask { Mask(ref && m.ref, mod && m.mod) }
    function Or(m: Mask): Mask { Mask(ref || m.ref, mod || m.mod) }
    predicate Some() { ref || mod }
  }

  const NO_MOD_REF := Mask(false, false)
  const MOD_REF := Mask(true, true)

  /** The four bits of ModRefBehavior; Anywhere contains ArgumentPointees. */
  datatype Behavior = Behavior(ref: bool, mod: bool, arg: bool, other: bool)
  {
    function And(b: Behavior): Behavior { Behavior(ref && b.ref, mod && b.mod, arg && b.arg, other && b.other) }
    predicate OnlyReadsMemory() { !mod }
    predicate OnlyAccessesArgPointees() { !other }
    predicate DoesAccessArgPointees() { (ref || mod) && arg }
  }

  const DOES_NOT_ACCESS_MEMORY := Behavior(false, false, false, false)
  const UNKNOWN_BEHAVIOR := Behavior(true, true, true, true)

  /** What one analysis answers by itself, before it asks the next. */
  datatype Answers = Answers(
    behavior: Call -> Behavior, fnBehavior: Fn -> Behavior, noAlias: (Loc, Loc) -> bool, constant: Loc -> bool,
    argInfo: (Call, nat) -> Option<Mask>, callLoc: (Call, Loc) -> Mask, callCall: (Call, Call) -> Mask)

  /** The chain ends in the analysis that always says it does not know. */
  datatype Chain = NoAA | Link(own: Answers, next: Chain)

  predicate NoAlias(chain: Chain, a: Loc, b: Loc) {
    chain.Link? && (chain.own.noAlias(a, b) || NoAlias(chain.next, a, b))
  }

  predicate Constant(chain: Chain, loc: Loc) {
    chain.Link? && (chain.own.constant(loc) || Constant(chain.next, loc))
  }

  function ArgInfo(chain: Chain, c: Call, i: nat): Mask {
    if chain.NoAA? then MOD_REF
    else
      match chain.own.argInfo(c, i)
      case Some(m) => m
      case None => ArgInfo(chain.next, c, i)
  }

  function FnBehavior(chain: Chain, f: Fn): Behavior {
    if chain.NoAA? then UNKNOWN_BEHAVIOR else chain.own.fnBehavior(f).And(FnBehavior(chain.next, f))
  }

  /** getModRefBehavior of a call: the known callee's behaviour cut down by every analysis of the chain. */
  function CallBehavior(chain: Chain, c: Call): Behavior {
    if chain.NoAA? then UNKNOWN_BEHAVIOR
    else
      var min := if c.callee.Some? then FnBehavior(chain, c.callee.value) else UNKNOWN_BEHAVIOR;
      chain.own.behavior(c).And(CallBehavior(chain.next, c).And(min))
  }

  // ----- What calls really do -----

  /** The cells a call reads and writes, those it reaches through each argument, the cells a location may be, and the object each cell is of. */
  datatype World = World(
    readBy: Call -> iset<Cell>, writtenBy: Call -> iset<Cell>,
    readVia: (Call, nat) -> iset<Cell>, writtenVia: (Call, nat) -> iset<Cell>,
    cells: Loc -> iset<Cell>, argLoc: (Call, nat) -> Loc,
    objectOf: Cell -> Object)

  /** What is reached through a pointer argument lies in the argument's location. */
  ghost predicate ArgumentsCover(w: World) {
    forall c: Call, i: nat | i < |c.args| && c.args[i] :: w.readVia(c, i) + w.writtenVia(c, i) <= w.cells(w.argLoc(c, i))
  }

  ghost predicate ReadThroughArg(w: World, c: Call, x: Cell) {
    exists i: nat :: i < |c.args| && c.args[i] && x in w.readVia(c, i)
  }

  ghost predicate WrittenThroughArg(w: World, c: Call, x: Cell) {
    exists i: nat :: i < |c.args| && c.args[i] && x in w.writtenVia(c, i)
  }

  /** The behaviour over-approximates the call. */
  ghost predicate Describes(w: World, c: Call, b: Behavior) {
    && (b.other ==> b.arg)
    && (forall x | x in w.readBy(c) :: b.ref && (b.other || (b.arg && ReadThroughArg(w, c, x))))
    && (forall x | x in w.writtenBy(c) :: b.mod && (b.other || (b.arg && WrittenThroughArg(w, c, x))))
  }

  ghost predicate ArgDescribes(w: World, c: Call, i: nat, m: Mask) {
    (w.readVia(c, i) != iset{} ==> m.ref) && (w.writtenVia(c, i) != iset{} ==> m.mod)
  }

  /** The mask over-approximates what the call does to the location. */
  ghost predicate CoversLoc(w: World, c: Call, loc: Loc, m: Mask) {
    && (w.readBy(c) * w.cells(loc) != iset{} ==> m.ref)
    && (w.writtenBy(c) * w.cells(loc) != iset{} ==> m.mod)
  }

  /** The mask has Mod when the first call writes what the second accesses, and Ref when it reads what the second writes. */
  ghost predicate CoversCall(w: World, c: Call, d: Call, m: Mask) {
    && (w.writtenBy(c) * (w.readBy(d) + w.writtenBy(d)) != iset{} ==> m.mod)
    && (w.readBy(c) * w.writtenBy(d) != iset{} ==> m.ref)
  }

  ghost predicate SoundAnswers(w: World, a: Answers) {
    && (forall c :: Describes(w, c, a.behavior(c)))
    && (forall c: Call | c.callee.Some? :: Describes(w, c, a.fnBehavior(c.callee.value)))
    && (forall p, q | a.noAlias(p, q) :: w.cells(p) !! w.cells(q))
    && (forall loc, c | a.constant(loc) :: w.writtenBy(c) !! w.cells(loc))
    && (forall c, i | a.argInfo(c, i).Some? :: ArgDescribes(w, c, i, a.argInfo(c, i).value))
    && (forall c, loc :: CoversLoc(w, c, loc, a.callLoc(c, loc)))
    && (forall c, d :: CoversCall(w, c, d, a.callCall(c, d)))
  }

  ghost predicate Sound(w: World, chain: Chain) {
    ArgumentsCover(w) && (chain.Link? ==> SoundAnswers(w, chain.own) && Sound(w, chain.next))
  }

  lemma {:induction false} NoAliasSound(w: World, chain: Chain, a: Loc, b: Loc)
    requires Sound(w, chain) && NoAlias(chain, a, b)
    ensures w.cells(a) !! w.cells(b)
    decreases chain
  {
    if !chain.own.noAlias(a, b) {
      NoAliasSound(w, chain.next, a, b);
    }
  }

  lemma {:induction false} ConstantSound(w: World, chain: Chain, loc: Loc, c: Call)
    requires Sound(w, chain) && Constant(chain, loc)
    ensures w.writtenBy(c) !! w.cells(loc)
    decreases chain
  {
    if !chain.own.constant(loc) {
      ConstantSound(w, chain.next, loc, c);
    }
  }

  lemma {:induction false} ArgInfoSound(w: World, chain: Chain, c: Call, i: nat)
    requires Sound(w, chain)
    ensures ArgDescribes(w, c, i, ArgInfo(chain, c, i))
    decreases chain
  {
    if chain.Link? && chain.own.argInfo(c, i) == None {
      ArgInfoSound(w, chain.next, c, i);
    }
  }

  /** Behaviours may be intersected. */
  lemma DescribesBoth(w: World, c: Call, a: Behavior, b: Behavior)
    requires Describes(w, c, a) && Describes(w, c, b)
    ensures Describes(w, c, a.And(b))
  {
  }

  lemma {:induction false} FnBehaviorSound(w: World, chain: Chain, c: Call)
    requires Sound(w, chain) && c.callee.Some?
    ensures Describes(w, c, FnBehavior(chain, c.callee.value))
    decreases chain
  {
    if chain.Link? {
      FnBehaviorSound(w, chain.next, c);
      DescribesBoth(w, c, chain.own.fnBehavior(c.callee.value), FnBehavior(chain.next, c.callee.value));
    } else {
      UnknownDescribes(w, c);
    }
  }

  lemma UnknownDescribes(w: World, c: Call)
    ensures Describes(w, c, UNKNOWN_BEHAVIOR)
  {
  }

  /** The behaviour combined along the chain still over-approximates the call. */
  lemma {:induction false} CallBehaviorSound(w: World, chain: Chain, c: Call)
    requires Sound(w, chain)
    ensures Describes(w, c, CallBehavior(chain, c))
    decreases chain
  {
    UnknownDescribes(w, c);
    if chain.Link? {
      CallBehaviorSound(w, chain.next, c);
      if c.callee.Some? {
        FnBehaviorSound(w, chain, c);
        DescribesBoth(w, c, CallBehavior(chain.next, c), FnBehavior(chain, c.callee.value));
        DescribesBoth(w, c, chain.own.behavior(c), CallBehavior(chain.next, c).And(FnBehavior(chain, c.callee.value)));
      } else {
        DescribesBoth(w, c, chain.own.behavior(c), CallBehavior(chain.next, c).And(UNKNOWN_BEHAVIOR));
      }
    }
  }
}
