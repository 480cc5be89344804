/**
 Once-only initialization of passes: a flag per pass claimed by compare-and-swap, a guarded
 body that enters the guards of other passes, and a spin loop for the threads that come late.
 A run is any interleaving of the threads' steps; each step touches the shared state once.
 */
module OnceProtocol {
  type Pass(==, !new)
  type Thread(==, !new)

  /** What the INITIALIZE_ macros declare. */
  datatype Decl =
    | Plain(deps: seq<Pass>)
    | Group(defaultPass: Pass)
    | Member(group: Pass, isDefault: bool, deps: seq<Pass>)

  /** The declarations, and whether members of groups ask `if (!def)` before they enter their group. */
  datatype Program = Program(decls: map<Pass, Decl>, guarded: bool)

  /** The guards a body enters, in order. */
  function Calls(prog: Program, p: Pass): seq<Pass>
    requires p in prog.decls
  {
    match prog.decls[p]
    case Plain(deps) => deps
    case Group(d) => [d]
    case Member(g, isDefault, deps) => if !isDefault || !prog.guarded then [g] + deps else deps
  }

  /** Every name is declared; a default member is the default pass of its group. */
  ghost predicate WellFormed(prog: Program) {
    && (forall p, c | p in prog.decls && c in Calls(prog, p) :: c in prog.decls)
    && (forall p | p in prog.decls && prog.decls[p].Member? ::
          && prog.decls[p].group in prog.decls && prog.decls[prog.decls[p].group].Group?
          && (prog.decls[p].isDefault ==> prog.decls[prog.decls[p].group].defaultPass == p))
  }

  /** The values 0, 1 and 2 of the flag. */
  datatype CasFlag = Untouched | Running | Finished

  datatype Frame =
    | Enter(pass: Pass)                  // before the compare-and-swap
    | Waiting(pass: Pass)                // in the spin loop, before the load
    | Body(pass: Pass, calls: nat)       // in the body, after that many calls
    | Lookup(pass: Pass)                 // registerAnalysisGroup, before it asks for the interface
    | Join(pass: Pass, seen: bool)       // and after
    | Publish(pass: Pass)                // registered, before the flag becomes 2
  {
    /** The thread runs the body of the pass. */
    predicate Active() { !Enter? && !Waiting? }

    /** Past the calls of the body. */
    predicate Late() { Lookup? || Join? || Publish? }
  }

  /** Passes still to be initialized, and the call stack, innermost guard last. */
  datatype ThreadState = ThreadState(todo: seq<Pass>, stack: seq<Frame>)

  /** Where a body runs: a history variable. */
  datatype Owner = Owner(thread: Thread, depth: nat)

  datatype State = State(flags: map<Pass, CasFlag>, threads: map<Thread, ThreadState>, registry: seq<Pass>, owners: map<Pass, Owner>)

  /** The identity under which an interface is registered. */
  function Interface(prog: Program, p: Pass): Pass
    requires p in prog.decls
  {
    if prog.decls[p].Member? then prog.decls[p].group else p
  }

  // ----- Steps -----

  function Push(th: ThreadState, f: Frame): ThreadState {
    th.(stack := th.stack + [f])
  }

  function Pop(th: ThreadState): ThreadState
    requires th.stack != []
  {
    th.(stack := th.stack[..|th.stack| - 1])
  }

  function Swap(th: ThreadState, f: Frame): ThreadState
    requires th.stack != []
  {
    th.(stack := th.stack[|th.stack| - 1 := f])
  }

  function Top(th: ThreadState): Frame
    requires th.stack != []
  {
    th.stack[|th.stack| - 1]
  }

  function Become(st: State, t: Thread, th: ThreadState): State {
    st.(threads := st.threads[t := th])
  }

  /** One step of a thread. A step that changes nothing is one more turn of its spin loop, or a thread at its end. */
  function Next(prog: Program, st: State, t: Thread): State {
    if t !in st.threads then st
    else
      var th := st.threads[t];
      if th.stack == [] then
        if th.todo == [] then st else Become(st, t, ThreadState(th.todo[1..], [Enter(th.todo[0])]))
      else
        var p := Top(th).pass;
        if p !in prog.decls || p !in st.flags then st
        else
          match Top(th)
          case Enter(_) =>
            if st.flags[p] == Untouched then
              Become(st.(flags := st.flags[p := Running], owners := st.owners[p := Owner(t, |th.stack| - 1)]), t, Swap(th, Body(p, 0)))
            else Become(st, t, Swap(th, Waiting(p)))
          case Waiting(_) =>
            if st.flags[p] == Finished then Become(st, t, Pop(th)) else st
          case Body(_, i) =>
            if i < |Calls(prog, p)| then Become(st, t, Push(Swap(th, Body(p, i + 1)), Enter(Calls(prog, p)[i])))
            else if prog.decls[p].Group? then Become(st, t, Swap(th, Lookup(p)))
            else
              Become(st.(registry := st.registry + [p]), t, Swap(th, if prog.decls[p].Member? then Lookup(p) else Publish(p)))
          case Lookup(_) =>
            Become(st, t, Swap(th, Join(p, Interface(prog, p) in st.registry)))
          case Join(_, seen) =>
            Become(if seen then st else st.(registry := st.registry + [Interface(prog, p)]), t, Swap(th, Publish(p)))
          case Publish(_) =>
            Become(st.(flags := st.flags[p := Finished]), t, Pop(th))
  }

  function Run(prog: Program, st: State, schedule: seq<Thread>): State
    decreases |schedule|
  {
    if schedule == [] then st else Next(prog, Run(prog, st, schedule[..|schedule| - 1]), schedule[|schedule| - 1])
  }

  ghost predicate Initial(prog: Program, st: State) {
    && st.flags.Keys == prog.decls.Keys && (forall p | p in st.flags :: st.flags[p] == Untouched)
    && (forall t | t in st.threads :: st.threads[t].stack == [] && forall p | p in st.threads[t].todo :: p in prog.decls)
    && st.registry == [] && st.owners == map[]
  }

  // ----- What every step keeps -----

  ghost predicate DoneUpTo(prog: Program, st: State, p: Pass, n: int) {
    p in prog.decls && n <= |Calls(prog, p)| && forall i | 0 <= i < n :: FlagOf(st, Calls(prog, p)[i]) == Finished
  }

  function FlagOf(st: State, p: Pass): CasFlag {
    if p in st.flags then st.flags[p] else Untouched
  }

  function FrameAt(st: State, t: Thread, k: nat): Frame
    requires t in st.threads && k < |st.threads[t].stack|
  {
    st.threads[t].stack[k]
  }

  /** A frame agrees with the flags; only bodies have frames above them, for the call they are making. */
  ghost predicate FrameGood(prog: Program, st: State, t: Thread, k: nat)
    requires t in st.threads && k < |st.threads[t].stack|
  {
    var f, top := FrameAt(st, t, k), k + 1 == |st.threads[t].stack|;
    && f.pass in prog.decls
    && (f.Active() ==> FlagOf(st, f.pass) == Running && f.pass in st.owners && st.owners[f.pass] == Owner(t, k))
    && match f
       case Enter(_) => top
       case Waiting(p) => top && FlagOf(st, p) != Untouched
       case Body(p, i) =>
         if top then DoneUpTo(prog, st, p, i)
         else i > 0 && DoneUpTo(prog, st, p, i - 1) && i <= |Calls(prog, p)| && FrameAt(st, t, k + 1).pass == Calls(prog, p)[i - 1]
       case _ => top && DoneUpTo(prog, st, f.pass, |Calls(prog, f.pass)|)
  }

  /** A body that has begun and not finished is on some stack. */
  ghost predicate OwnerGood(st: State, p: Pass)
    requires p in st.flags
  {
    st.flags[p] == Running ==>
      && p in st.owners && st.owners[p].thread in st.threads
      && st.owners[p].depth < |st.threads[st.owners[p].thread].stack|
      && FrameAt(st, st.owners[p].thread, st.owners[p].depth).Active()
      && FrameAt(st, st.owners[p].thread, st.owners[p].depth).pass == p
  }

  /** A finished body has finished every body it called. */
  ghost predicate FinishGood(prog: Program, st: State, p: Pass)
    requires p in st.flags
  {
    st.flags[p] == Finished ==> p in prog.decls && DoneUpTo(prog, st, p, |Calls(prog, p)|)
  }

  ghost predicate GuardsGood(prog: Program, st: State) {
    && st.flags.Keys == prog.decls.Keys
    && (forall t, k {:trigger FrameGood(prog, st, t, k)} | t in st.threads && 0 <= k < |st.threads[t].stack| :: FrameGood(prog, st, t, k))
    && (forall p {:trigger OwnerGood(st, p)} | p in st.flags :: OwnerGood(st, p))
    && (forall p {:trigger FinishGood(prog, st, p)} | p in st.flags :: FinishGood(prog, st, p))
    && (forall t, i | t in st.threads && 0 <= i < |st.threads[t].todo| :: st.threads[t].todo[i] in prog.decls)
  }

  /** Flags only move forward, and only the flag and the owner of p may change. */
  ghost predicate Forward(st: State, st': State, p: Pass) {
    && st'.flags.Keys == st.flags.Keys && st'.threads.Keys == st.threads.Keys
    && (forall q | q in st.flags && q != p :: st'.flags[q] == st.flags[q])
    && (forall q | q in st.owners && q != p :: q in st'.owners && st'.owners[q] == st.owners[q])
    && (FlagOf(st, p) != Untouched ==> FlagOf(st', p) != Untouched)
    && (FlagOf(st, p) == Finished ==> FlagOf(st', p) == Finished)
  }

  lemma DoneKept(prog: Program, st: State, st': State, p: Pass, q: Pass, n: int)
    requires Forward(st, st', p) && DoneUpTo(prog, st, q, n)
    ensures DoneUpTo(prog, st', q, n)
  {
  }

  /** A frame that stays where it is, under the same frame. */
  lemma FrameKept(prog: Program, st: State, st': State, p: Pass, t: Thread, k: nat)
    requires Forward(st, st', p) && t in st.threads && k < |st.threads[t].stack| && k < |st'.threads[t].stack| && FrameGood(prog, st, t, k)
    requires FrameAt(st', t, k) == FrameAt(st, t, k)
    requires if k + 1 == |st.threads[t].stack| then k + 1 == |st'.threads[t].stack|
             else k + 1 < |st'.threads[t].stack| && FrameAt(st', t, k + 1).pass == FrameAt(st, t, k + 1).pass
    requires FrameAt(st, t, k).Active() && FrameAt(st, t, k).pass == p ==> FlagOf(st', p) == Running && p in st'.owners && st'.owners[p] == Owner(t, k)
    ensures FrameGood(prog, st', t, k)
  {
    var f := FrameAt(st, t, k);
    if f.Active() {
      DoneKept(prog, st, st', p, f.pass, if f.Body? then if k + 1 == |st.threads[t].stack| then f.calls else f.calls - 1 else |Calls(prog, f.pass)|);
    }
  }

  /** The pass a step is about, and the number of frames of its thread that the step leaves alone. */
  ghost predicate Local(prog: Program, st: State, st': State, t: Thread, p: Pass) {
    && GuardsGood(prog, st) && Forward(st, st', p) && t in st.threads
    && (forall u | u in st.threads && u != t :: st'.threads[u] == st.threads[u])
    && (forall i | 0 <= i < |st'.threads[t].todo| :: st'.threads[t].todo[i] in prog.decls)
    // The body of p, if it is running, is the top of t: no other frame is active for p.
    && (FlagOf(st, p) == Running && st'.flags[p] != Running ==> st.threads[t].stack != [] && p in st.owners && st.owners[p] == Owner(t, |st.threads[t].stack| - 1))
    && (FlagOf(st, p) == Running && st'.flags[p] == Running ==> p in st.owners && p in st'.owners && st'.owners[p] == st.owners[p])
  }

  lemma OthersKept(prog: Program, st: State, st': State, t: Thread, p: Pass, u: Thread, k: nat)
    requires p in st.flags && Local(prog, st, st', t, p) && u in st.threads && u != t && k < |st.threads[u].stack|
    ensures FrameGood(prog, st', u, k)
  {
    assert FrameGood(prog, st, u, k);
    FrameKept(prog, st, st', p, u, k);
  }

  lemma BelowKept(prog: Program, st: State, st': State, t: Thread, p: Pass, k: nat)
    requires p in st.flags && Local(prog, st, st', t, p) && k + 1 < |st.threads[t].stack| && k + 1 < |st'.threads[t].stack|
    requires FrameAt(st', t, k) == FrameAt(st, t, k) && FrameAt(st', t, k + 1).pass == FrameAt(st, t, k + 1).pass
    ensures FrameGood(prog, st', t, k)
  {
    assert FrameGood(prog, st, t, k);
    FrameKept(prog, st, st', p, t, k);
  }

  /** Owners and finished bodies, when only p may have changed. */
  lemma OwnersKept(prog: Program, st: State, st': State, t: Thread, p: Pass)
    requires p in st.flags && Local(prog, st, st', t, p)
    requires OwnerGood(st', p) && FinishGood(prog, st', p)
    requires forall k | 0 <= k < |st'.threads[t].stack| :: FrameGood(prog, st', t, k)
    requires |st'.threads[t].stack| >= |st.threads[t].stack| - 1
    requires forall k | 0 <= k < |st.threads[t].stack| - 1 && FrameAt(st, t, k).Active() ::
               k < |st'.threads[t].stack| && FrameAt(st', t, k).Active() && FrameAt(st', t, k).pass == FrameAt(st, t, k).pass
    requires st.threads[t].stack != [] && Top(st.threads[t]).Active() ==> Top(st.threads[t]).pass == p
    ensures GuardsGood(prog, st')
  {
    forall u, k | u in st'.threads && 0 <= k < |st'.threads[u].stack| ensures FrameGood(prog, st', u, k) {
      if u != t {
        OthersKept(prog, st, st', t, p, u, k);
      }
    }
    forall q | q in st'.flags ensures OwnerGood(st', q) && FinishGood(prog, st', q) {
      assert OwnerGood(st, q) && FinishGood(prog, st, q);
      if q != p && st.flags[q] == Finished {
        DoneKept(prog, st, st', p, q, |Calls(prog, q)|);
      }
    }
  }

  /** The thread is in a guard and takes a step. */
  ghost predicate Steps(prog: Program, st: State, t: Thread) {
    WellFormed(prog) && GuardsGood(prog, st) && t in st.threads && st.threads[t].stack != []
  }

  lemma TopGood(prog: Program, st: State, t: Thread)
    requires Steps(prog, st, t)
    ensures FrameGood(prog, st, t, |st.threads[t].stack| - 1) && Top(st.threads[t]).pass in st.flags
  {
  }

  lemma EnterKept(prog: Program, st: State, t: Thread)
    requires Steps(prog, st, t) && Top(st.threads[t]).Enter?
    ensures GuardsGood(prog, Next(prog, st, t))
  {
    TopGood(prog, st, t);
    var p, n, st' := Top(st.threads[t]).pass, |st.threads[t].stack|, Next(prog, st, t);
    assert OwnerGood(st, p) && FinishGood(prog, st, p);
    forall k | 0 <= k < |st'.threads[t].stack| ensures FrameGood(prog, st', t, k) {
      if k + 1 < n {
        BelowKept(prog, st, st', t, p, k);
      }
    }
    if st.flags[p] == Finished {
      DoneKept(prog, st, st', p, p, |Calls(prog, p)|);
    }
    assert OwnerGood(st', p);
    OwnersKept(prog, st, st', t, p);
  }

  /** Leaving a guard: the frame below goes on with one more call done. */
  lemma LeaveKept(prog: Program, st: State, t: Thread)
    requires Steps(prog, st, t) && (Top(st.threads[t]).Waiting? || Top(st.threads[t]).Publish?)
    ensures GuardsGood(prog, Next(prog, st, t))
  {
    TopGood(prog, st, t);
    var p, n, st' := Top(st.threads[t]).pass, |st.threads[t].stack|, Next(prog, st, t);
    if st' != st {
      forall k | 0 <= k < |st'.threads[t].stack| ensures FrameGood(prog, st', t, k) {
        if k + 2 < n {
          BelowKept(prog, st, st', t, p, k);
        } else {
          ResumedGood(prog, st, t);
        }
      }
      assert OwnerGood(st, p) && FinishGood(prog, st, p);
      DoneKept(prog, st, st', p, p, |Calls(prog, p)|);
      OwnersKept(prog, st, st', t, p);
    }
  }

  /** The body below a guard that is left has finished one more call. */
  lemma ResumedGood(prog: Program, st: State, t: Thread)
    requires Steps(prog, st, t) && (Top(st.threads[t]).Waiting? || Top(st.threads[t]).Publish?)
    requires Next(prog, st, t) != st && |st.threads[t].stack| > 1
    ensures FrameGood(prog, Next(prog, st, t), t, |st.threads[t].stack| - 2)
  {
    TopGood(prog, st, t);
    var p, n, st' := Top(st.threads[t]).pass, |st.threads[t].stack|, Next(prog, st, t);
    assert FrameGood(prog, st, t, n - 2);
    var f := FrameAt(st, t, n - 2);
    assert f.Body? && FrameAt(st', t, n - 2) == f;
    DoneKept(prog, st, st', p, f.pass, f.calls - 1);
    assert FlagOf(st', p) == Finished;
    assert f.pass != p ==> FlagOf(st', f.pass) == Running;
  }

  /** The other steps of a body leave the flags alone. */
  lemma BodyKept(prog: Program, st: State, t: Thread)
    requires Steps(prog, st, t) && Top(st.threads[t]).Active() && !Top(st.threads[t]).Publish?
    ensures GuardsGood(prog, Next(prog, st, t))
  {
    TopGood(prog, st, t);
    var p, n, st' := Top(st.threads[t]).pass, |st.threads[t].stack|, Next(prog, st, t);
    forall k | 0 <= k < |st'.threads[t].stack| ensures FrameGood(prog, st', t, k) {
      if k + 1 < n {
        BelowKept(prog, st, st', t, p, k);
      } else {
        BodyTopGood(prog, st, t, k);
      }
    }
    assert OwnerGood(st, p) && OwnerGood(st', p);
    OwnersKept(prog, st, st', t, p);
  }

  lemma BodyTopGood(prog: Program, st: State, t: Thread, k: nat)
    requires Steps(prog, st, t) && Top(st.threads[t]).Active() && !Top(st.threads[t]).Publish?
    requires |st.threads[t].stack| - 1 <= k && t in Next(prog, st, t).threads && k < |Next(prog, st, t).threads[t].stack|
    ensures FrameGood(prog, Next(prog, st, t), t, k)
  {
    TopGood(prog, st, t);
    var p, st' := Top(st.threads[t]).pass, Next(prog, st, t);
    assert Forward(st, st', p);
    var f := Top(st.threads[t]);
    DoneKept(prog, st, st', p, p, if f.Body? then f.calls else |Calls(prog, p)|);
  }

  lemma StartKept(prog: Program, st: State, t: Thread)
    requires WellFormed(prog) && GuardsGood(prog, st) && t in st.threads && st.threads[t].stack == []
    ensures GuardsGood(prog, Next(prog, st, t))
  {
    var st' := Next(prog, st, t);
    forall u, k | u in st'.threads && 0 <= k < |st'.threads[u].stack| ensures FrameGood(prog, st', u, k) {
      if u != t {
        assert FrameGood(prog, st, u, k);
        var f := FrameAt(st, u, k);
        assert FrameAt(st', u, k) == f;
        if f.Active() {
          var n := if f.Body? then if k + 1 == |st.threads[u].stack| then f.calls else f.calls - 1 else |Calls(prog, f.pass)|;
          assert DoneUpTo(prog, st', f.pass, n);
        }
      }
    }
    forall q | q in st'.flags ensures OwnerGood(st', q) && FinishGood(prog, st', q) {
      assert OwnerGood(st, q) && FinishGood(prog, st, q);
    }
  }

  lemma StepKept(prog: Program, st: State, t: Thread)
    requires WellFormed(prog) && GuardsGood(prog, st)
    ensures GuardsGood(prog, Next(prog, st, t))
  {
    if t in st.threads {
      if st.threads[t].stack == [] {
        StartKept(prog, st, t);
      } else {
        match Top(st.threads[t])
        case Enter(_) => EnterKept(prog, st, t);
        case Waiting(_) => LeaveKept(prog, st, t);
        case Publish(_) => LeaveKept(prog, st, t);
        case _ => BodyKept(prog, st, t);
      }
    }
  }
}
