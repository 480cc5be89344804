/** Progress of the initialization protocol: no deadlock, bounded work, and what the `if (!def)` guard is for. */
module OnceProgress {
  import opened OnceProtocol
  import opened OnceRegistry
  import opened OnceRuns
  import opened SetSums

  /** The dependency graph is acyclic: calls go down in rank. */
  ghost predicate Ranked(prog: Program, rank: Pass -> nat) {
    forall p, c | p in prog.decls && c in Calls(prog, p) :: rank(c) < rank(p)
  }

  // ----- Some thread can always move -----

  /** Ranks fall from the bottom of a stack to its top. */
  lemma {:induction false} TopRanksLowest(prog: Program, rank: Pass -> nat, st: State, t: Thread, k: nat)
    requires GuardsGood(prog, st) && Ranked(prog, rank) && t in st.threads && k < |st.threads[t].stack|
    ensures k + 1 == |st.threads[t].stack| || rank(Top(st.threads[t]).pass) < rank(FrameAt(st, t, k).pass)
    decreases |st.threads[t].stack| - k
  {
    if k + 1 < |st.threads[t].stack| {
      TopRanksLowest(prog, rank, st, t, k + 1);
      assert FrameGood(prog, st, t, k);
      var f := FrameAt(st, t, k);
      assert Calls(prog, f.pass)[f.calls - 1] in Calls(prog, f.pass);
    }
  }

  ghost predicate Unfinished(st: State, t: Thread) {
    t in st.threads && (st.threads[t].todo != [] || st.threads[t].stack != [])
  }

  /** Every step but another turn of the spin loop changes the state. */
  lemma MovesUnlessWaiting(prog: Program, st: State, t: Thread)
    requires GuardsGood(prog, st) && Unfinished(st, t)
    ensures Next(prog, st, t) == st <==>
              st.threads[t].stack != [] && Top(st.threads[t]).Waiting? && FlagOf(st, Top(st.threads[t]).pass) != Finished
  {
    if st.threads[t].stack != [] {
      var n, st' := |st.threads[t].stack|, Next(prog, st, t);
      assert FrameGood(prog, st, t, n - 1);
      assert st' != st ==> t in st'.threads;
      if !Top(st.threads[t]).Waiting? {
        assert |st'.threads[t].stack| != n || Top(st'.threads[t]) != Top(st.threads[t]);
      }
    }
  }

  /** Following the spinning threads to the bodies they wait for ends at a thread that can move. */
  lemma {:induction false} FindMover(prog: Program, rank: Pass -> nat, st: State, t: Thread) returns (u: Thread)
    requires GuardsGood(prog, st) && Ranked(prog, rank) && Unfinished(st, t)
    ensures u in st.threads && Next(prog, st, u) != st
    decreases if st.threads[t].stack == [] then 0 else rank(Top(st.threads[t]).pass) + 1
  {
    MovesUnlessWaiting(prog, st, t);
    if Next(prog, st, t) != st {
      return t;
    }
    assert FrameGood(prog, st, t, |st.threads[t].stack| - 1);
    var p := Top(st.threads[t]).pass;
    assert OwnerGood(st, p);
    var o := st.owners[p];
    MovesUnlessWaiting(prog, st, o.thread);
    if Next(prog, st, o.thread) != st {
      return o.thread;
    }
    TopRanksLowest(prog, rank, st, o.thread, o.depth);
    u := FindMover(prog, rank, st, o.thread);
  }

  /** No deadlock: at every point of every run, while work is left, some thread's step is not a spin. */
  lemma DeadlockFree(prog: Program, rank: Pass -> nat, st: State, schedule: seq<Thread>)
    requires WellFormed(prog) && Initial(prog, st) && Ranked(prog, rank) && !AllDone(Run(prog, st, schedule))
    ensures exists u :: u in st.threads && Next(prog, Run(prog, st, schedule), u) != Run(prog, st, schedule)
  {
    RunGood(prog, st, schedule);
    SameThreads(prog, st, schedule);
    var now := Run(prog, st, schedule);
    var t :| t in now.threads && !(now.threads[t].todo == [] && now.threads[t].stack == []);
    var u := FindMover(prog, rank, now, t);
  }

  lemma {:induction false} SameThreads(prog: Program, st: State, schedule: seq<Thread>)
    ensures Run(prog, st, schedule).threads.Keys == st.threads.Keys
    decreases |schedule|
  {
    if schedule != [] {
      SameThreads(prog, st, schedule[..|schedule| - 1]);
    }
  }

  // ----- The work left -----

  ghost function CallsLeft(prog: Program, p: Pass, i: nat): nat {
    if p in prog.decls && i <= |Calls(prog, p)| then |Calls(prog, p)| - i else 0
  }

  ghost function FrameWork(prog: Program, f: Frame): nat {
    match f
    case Enter(_) => 3
    case Waiting(_) => 1
    case Body(p, i) => 4 * CallsLeft(prog, p, i) + 4
    case Lookup(_) => 3
    case Join(_, _) => 2
    case Publish(_) => 1
  }

  ghost function StackWork(prog: Program, s: seq<Frame>): nat
    decreases |s|
  {
    if s == [] then 0 else StackWork(prog, s[..|s| - 1]) + FrameWork(prog, s[|s| - 1])
  }

  ghost function ThreadWork(prog: Program, th: ThreadState): nat {
    4 * |th.todo| + StackWork(prog, th.stack)
  }

  ghost function WorkOf(prog: Program, st: State, t: Thread): nat {
    if t in st.threads then ThreadWork(prog, st.threads[t]) else 0
  }

  /** A body nobody has claimed. */
  ghost function BodyWork(prog: Program, st: State, p: Pass): nat {
    if FlagOf(st, p) == Untouched then 4 * CallsLeft(prog, p, 0) + 4 else 0
  }

  /** What the threads have before them, and the bodies still to be claimed. */
  ghost function Work(prog: Program, st: State): nat {
    ThreadsWork(prog, st) + BodiesWork(prog, st)
  }

  lemma PushWork(prog: Program, s: seq<Frame>, f: Frame)
    ensures StackWork(prog, s + [f]) == StackWork(prog, s) + FrameWork(prog, f)
  {
    assert (s + [f])[..|s|] == s;
  }

  lemma PopWork(prog: Program, th: ThreadState)
    requires th.stack != []
    ensures ThreadWork(prog, Pop(th)) + FrameWork(prog, Top(th)) == ThreadWork(prog, th)
  {
  }

  lemma SwapWork(prog: Program, th: ThreadState, f: Frame)
    requires th.stack != []
    ensures ThreadWork(prog, Swap(th, f)) + FrameWork(prog, Top(th)) == ThreadWork(prog, th) + FrameWork(prog, f)
  {
    var s := th.stack;
    assert s[|s| - 1 := f] == s[..|s| - 1] + [f];
    PushWork(prog, s[..|s| - 1], f);
  }

  /** A call: the caller is one call further, and there is a guard to enter. */
  lemma CallWork(prog: Program, th: ThreadState, p: Pass, i: nat, c: Pass)
    requires th.stack != [] && Top(th) == Body(p, i) && p in prog.decls && i < |Calls(prog, p)|
    ensures ThreadWork(prog, Push(Swap(th, Body(p, i + 1)), Enter(c))) < ThreadWork(prog, th)
  {
    SwapWork(prog, th, Body(p, i + 1));
    PushWork(prog, Swap(th, Body(p, i + 1)).stack, Enter(c));
  }

  lemma StartWork(prog: Program, th: ThreadState)
    requires th.stack == [] && th.todo != []
    ensures ThreadWork(prog, ThreadState(th.todo[1..], [Enter(th.todo[0])])) < ThreadWork(prog, th)
  {
    assert [Enter(th.todo[0])] == [] + [Enter(th.todo[0])];
    PushWork(prog, [], Enter(th.todo[0]));
  }

  /** A step that does not claim a body uses up work of its own thread. */
  lemma OwnWork(prog: Program, st: State, t: Thread)
    requires GuardsGood(prog, st) && Next(prog, st, t) != st && t in st.threads
    requires st.threads[t].stack != [] ==> !StartsBody(st, t, Top(st.threads[t]).pass)
    ensures t in Next(prog, st, t).threads && ThreadWork(prog, Next(prog, st, t).threads[t]) < ThreadWork(prog, st.threads[t])
  {
    var th := st.threads[t];
    if th.stack == [] {
      StartWork(prog, th);
    } else {
      assert FrameGood(prog, st, t, |th.stack| - 1);
      var p := Top(th).pass;
      match Top(th)
      case Enter(_) => SwapWork(prog, th, Waiting(p));
      case Waiting(_) => PopWork(prog, th);
      case Body(_, i) =>
        if i < |Calls(prog, p)| {
          CallWork(prog, th, p, i, Calls(prog, p)[i]);
        } else {
          SwapWork(prog, th, if prog.decls[p].Plain? then Publish(p) else Lookup(p));
        }
      case Lookup(_) => SwapWork(prog, th, Join(p, Interface(prog, p) in st.registry));
      case Join(_, _) => SwapWork(prog, th, Publish(p));
      case Publish(_) => PopWork(prog, th);
    }
  }

  /** A body that is claimed moves from the common work to the thread's. */
  lemma ClaimWork(prog: Program, st: State, t: Thread, p: Pass)
    requires GuardsGood(prog, st) && StartsBody(st, t, p)
    ensures t in Next(prog, st, t).threads
    ensures ThreadWork(prog, Next(prog, st, t).threads[t]) < ThreadWork(prog, st.threads[t]) + BodyWork(prog, st, p)
  {
    SwapWork(prog, st.threads[t], Body(p, 0));
  }

  ghost function ThreadsWork(prog: Program, st: State): nat {
    SumNotNegative(st.threads.Keys, t => WorkOf(prog, st, t));
    Sum(st.threads.Keys, t => WorkOf(prog, st, t))
  }

  ghost function BodiesWork(prog: Program, st: State): nat {
    SumNotNegative(st.flags.Keys, p => BodyWork(prog, st, p));
    Sum(st.flags.Keys, p => BodyWork(prog, st, p))
  }

  /** Only the thread that steps changes its work. */
  lemma ThreadsWorkStep(prog: Program, st: State, t: Thread)
    requires t in st.threads
    ensures t in Next(prog, st, t).threads
    ensures ThreadsWork(prog, Next(prog, st, t)) + ThreadWork(prog, st.threads[t]) ==
              ThreadsWork(prog, st) + ThreadWork(prog, Next(prog, st, t).threads[t])
  {
    var st' := Next(prog, st, t);
    assert st'.threads.Keys == st.threads.Keys;
    SumChanged(st.threads.Keys, u => WorkOf(prog, st, u), u => WorkOf(prog, st', u), t);
  }

  lemma BodiesWorkStep(prog: Program, st: State, t: Thread, p: Pass)
    requires GuardsGood(prog, st) && t in st.threads && st.threads[t].stack != [] && p == Top(st.threads[t]).pass
    ensures BodiesWork(prog, Next(prog, st, t)) + (if StartsBody(st, t, p) then BodyWork(prog, st, p) else 0) == BodiesWork(prog, st)
  {
    var st' := Next(prog, st, t);
    assert FrameGood(prog, st, t, |st.threads[t].stack| - 1);
    assert st'.flags.Keys == st.flags.Keys;
    SumChanged(st.flags.Keys, q => BodyWork(prog, st, q), q => BodyWork(prog, st', q), p);
  }

  /** Every step that is not a turn of the spin loop uses up work. */
  lemma StepUsesWork(prog: Program, st: State, t: Thread)
    requires GuardsGood(prog, st) && Next(prog, st, t) != st
    ensures Work(prog, Next(prog, st, t)) < Work(prog, st)
  {
    ThreadsWorkStep(prog, st, t);
    if st.threads[t].stack == [] {
      OwnWork(prog, st, t);
      assert Next(prog, st, t).flags == st.flags;
      SumSame(st.flags.Keys, p => BodyWork(prog, st, p), p => BodyWork(prog, Next(prog, st, t), p));
    } else {
      var p := Top(st.threads[t]).pass;
      BodiesWorkStep(prog, st, t, p);
      if StartsBody(st, t, p) {
        ClaimWork(prog, st, t, p);
      } else {
        OwnWork(prog, st, t);
      }
    }
  }

  // ----- Runs end -----

  /** The steps of a run that were not turns of a spin loop. */
  ghost function EffectiveSteps(prog: Program, st: State, schedule: seq<Thread>): nat
    decreases |schedule|
  {
    if schedule == [] then 0
    else
      var before := Run(prog, st, schedule[..|schedule| - 1]);
      EffectiveSteps(prog, st, schedule[..|schedule| - 1]) + if Next(prog, before, schedule[|schedule| - 1]) == before then 0 else 1
  }

  /** However the threads interleave, the steps that are not spins are bounded by the work there is at the start. */
  lemma {:induction false} WorkBoundsEveryRun(prog: Program, st: State, schedule: seq<Thread>)
    requires WellFormed(prog) && Initial(prog, st)
    ensures EffectiveSteps(prog, st, schedule) + Work(prog, Run(prog, st, schedule)) <= Work(prog, st)
    decreases |schedule|
  {
    if schedule != [] {
      var before := schedule[..|schedule| - 1];
      WorkBoundsEveryRun(prog, st, before);
      RunGood(prog, st, before);
      if Next(prog, Run(prog, st, before), schedule[|schedule| - 1]) != Run(prog, st, before) {
        StepUsesWork(prog, Run(prog, st, before), schedule[|schedule| - 1]);
      }
    }
  }

  lemma RunOneMore(prog: Program, st: State, schedule: seq<Thread>, u: Thread)
    ensures Run(prog, st, schedule + [u]) == Next(prog, Run(prog, st, schedule), u)
  {
    assert (schedule + [u])[..|schedule|] == schedule;
  }

  lemma OneMoreStep(prog: Program, rank: Pass -> nat, st: State, schedule: seq<Thread>) returns (u: Thread)
    requires WellFormed(prog) && Initial(prog, st) && Ranked(prog, rank) && !AllDone(Run(prog, st, schedule))
    ensures Work(prog, Run(prog, st, schedule + [u])) < Work(prog, Run(prog, st, schedule))
  {
    DeadlockFree(prog, rank, st, schedule);
    u :| u in st.threads && Next(prog, Run(prog, st, schedule), u) != Run(prog, st, schedule);
    RunGood(prog, st, schedule);
    StepUsesWork(prog, Run(prog, st, schedule), u);
    RunOneMore(prog, st, schedule, u);
  }

  /** Every run can be continued until all threads are through. */
  lemma {:induction false} CanFinish(prog: Program, rank: Pass -> nat, st: State, schedule: seq<Thread>) returns (more: seq<Thread>)
    requires WellFormed(prog) && Initial(prog, st) && Ranked(prog, rank)
    ensures AllDone(Run(prog, st, schedule + more))
    decreases Work(prog, Run(prog, st, schedule))
  {
    if AllDone(Run(prog, st, schedule)) {
      assert schedule + [] == schedule;
      return [];
    }
    var u := OneMoreStep(prog, rank, st, schedule);
    var rest := CanFinish(prog, rank, st, schedule + [u]);
    more := [u] + rest;
    assert schedule + more == schedule + [u] + rest;
  }

  // ----- The guard of a default member -----

  ghost predicate DefaultOf(prog: Program, d: Pass, g: Pass) {
    d in prog.decls && g in prog.decls && prog.decls[g] == Group(d) && prog.decls[d].Member? && prog.decls[d].group == g && prog.decls[d].isDefault
  }

  /** Without `if (!def)` the default pass and its group depend on each other. */
  lemma UnguardedIsCyclic(prog: Program, rank: Pass -> nat, d: Pass, g: Pass)
    requires !prog.guarded && DefaultOf(prog, d, g)
    ensures !Ranked(prog, rank)
  {
    assert g in Calls(prog, d) && d in Calls(prog, g);
    assert Ranked(prog, rank) ==> rank(g) < rank(d);
    assert Ranked(prog, rank) ==> rank(d) < rank(g);
  }

  /**
   Members of groups depend on low passes only, low passes on low passes of lower level, and
   every other pass on anything, but on others of its kind only of lower level. Each group has
   a default member.
   */
  ghost predicate Layered(prog: Program, low: set<Pass>, level: Pass -> nat) {
    forall p | p in prog.decls :: InLayer(prog, low, level, p)
  }

  ghost predicate InLayer(prog: Program, low: set<Pass>, level: Pass -> nat, p: Pass)
    requires p in prog.decls
  {
    match prog.decls[p]
    case Plain(deps) =>
      forall c | c in deps :: c in prog.decls
        && (p in low ==> c in low) && (prog.decls[c].Plain? && (p in low <==> c in low) ==> level(c) < level(p))
    case Group(d) => p !in low && DefaultOf(prog, d, p)
    case Member(g, _, deps) =>
      p !in low && g in prog.decls && prog.decls[g].Group? && forall c | c in deps :: c in low && c in prog.decls && prog.decls[c].Plain?
  }

  /** A level above all of the set. */
  lemma {:induction false} LevelAbove(s: set<Pass>, level: Pass -> nat) returns (top: nat)
    ensures forall p | p in s :: level(p) < top
    decreases s
  {
    if s == {} {
      top := 0;
    } else {
      var p :| p in s;
      var t := LevelAbove(s - {p}, level);
      top := if level(p) < t then t else level(p) + 1;
    }
  }

  /** Low passes, default members, groups, other members, and the rest above them. */
  function LayerRank(prog: Program, low: set<Pass>, level: Pass -> nat, top: nat, p: Pass): nat {
    if p !in prog.decls then 0
    else match prog.decls[p]
      case Plain(_) => if p in low then level(p) else top + 3 + level(p)
      case Group(_) => top + 1
      case Member(_, isDefault, _) => if isDefault then top else top + 2
  }

  /** With it, groups never make a cycle: the dependencies are acyclic when those of plain passes are. */
  lemma GuardedIsAcyclic(prog: Program, low: set<Pass>, level: Pass -> nat) returns (rank: Pass -> nat)
    requires prog.guarded && Layered(prog, low, level)
    ensures Ranked(prog, rank)
  {
    var top := LevelAbove(low, level);
    rank := p => LayerRank(prog, low, level, top, p);
    forall p, c | p in prog.decls && c in Calls(prog, p) ensures rank(c) < rank(p) {
      assert InLayer(prog, low, level, p);
      if c in prog.decls {
        assert InLayer(prog, low, level, c);
      }
    }
  }

  /** The only thread of the run, its stack, and the flags of the two passes. */
  ghost predicate Alone(st: State, t: Thread, stack: seq<Frame>, d: Pass, g: Pass, onDefault: CasFlag, onGroup: CasFlag) {
    && st.threads == map[t := ThreadState([], stack)] && d in st.flags && g in st.flags
    && st.flags[d] == onDefault && st.flags[g] == onGroup
  }

  lemma AloneStarts(prog: Program, st: State, t: Thread, d: Pass, g: Pass)
    requires DefaultOf(prog, d, g) && Initial(prog, st) && st.threads == map[t := ThreadState([d], [])]
    ensures Alone(Next(prog, st, t), t, [Enter(d)], d, g, Untouched, Untouched)
  {
    assert Next(prog, st, t).threads[t] == ThreadState([], [Enter(d)]);
  }

  /** The compare-and-swap of the only thread. */
  lemma AloneEnters(prog: Program, st: State, t: Thread, below: seq<Frame>, p: Pass, d: Pass, g: Pass, onDefault: CasFlag, onGroup: CasFlag)
    requires DefaultOf(prog, d, g) && d != g && (p == d || p == g) && Alone(st, t, below + [Enter(p)], d, g, onDefault, onGroup)
    ensures if st.flags[p] == Untouched
            then Alone(Next(prog, st, t), t, below + [Body(p, 0)], d, g, if p == d then Running else onDefault, if p == g then Running else onGroup)
            else Alone(Next(prog, st, t), t, below + [Waiting(p)], d, g, onDefault, onGroup)
  {
    var stack := Next(prog, st, t).threads[t].stack;
    assert stack == below + [Top(Next(prog, st, t).threads[t])];
  }

  /** The first call of the body of the only thread. */
  lemma AloneCalls(prog: Program, st: State, t: Thread, below: seq<Frame>, p: Pass, c: Pass, d: Pass, g: Pass, onDefault: CasFlag, onGroup: CasFlag)
    requires p in prog.decls && Calls(prog, p) != [] && Calls(prog, p)[0] == c && (p == d || p == g)
    requires Alone(st, t, below + [Body(p, 0)], d, g, onDefault, onGroup)
    ensures Alone(Next(prog, st, t), t, below + [Body(p, 1)] + [Enter(c)], d, g, onDefault, onGroup)
  {
    assert Next(prog, st, t).threads[t].stack == below + [Body(p, 1)] + [Enter(c)];
  }

  /** Work is left and every step is a turn of a spin loop. */
  ghost predicate Stuck(prog: Program, st: State) {
    !AllDone(st) && forall u :: Next(prog, st, u) == st
  }

  lemma AloneIsStuck(prog: Program, st: State, t: Thread, below: seq<Frame>, d: Pass, g: Pass)
    requires Alone(st, t, below + [Waiting(d)], d, g, Running, Running)
    ensures Stuck(prog, st)
  {
    assert st.threads[t].stack != [];
  }

  /** The default pass enters its group, which is about to enter the default pass. */
  lemma EntersOwnGroup(prog: Program, st: State, t: Thread, d: Pass, g: Pass) returns (schedule: seq<Thread>)
    requires !prog.guarded && DefaultOf(prog, d, g) && d != g && Initial(prog, st) && st.threads == map[t := ThreadState([d], [])]
    ensures Alone(Run(prog, st, schedule), t, [Body(d, 1), Enter(g)], d, g, Running, Untouched)
  {
    RunOneMore(prog, st, [], t);
    AloneStarts(prog, st, t, d, g);
    schedule := [] + [t];
    assert [] + [Enter(d)] == [Enter(d)];
    RunOneMore(prog, st, schedule, t);
    AloneEnters(prog, Run(prog, st, schedule), t, [], d, d, g, Untouched, Untouched);
    schedule := schedule + [t];
    RunOneMore(prog, st, schedule, t);
    AloneCalls(prog, Run(prog, st, schedule), t, [], d, g, d, g, Running, Untouched);
    schedule := schedule + [t];
    assert [] + [Body(d, 1)] + [Enter(g)] == [Body(d, 1), Enter(g)];
  }

  /** And without it one thread alone, asked for the default pass, waits for itself for ever. */
  lemma UnguardedDeadlocks(prog: Program, st: State, t: Thread, d: Pass, g: Pass) returns (schedule: seq<Thread>)
    requires !prog.guarded && DefaultOf(prog, d, g) && Initial(prog, st) && st.threads == map[t := ThreadState([d], [])]
    ensures Stuck(prog, Run(prog, st, schedule))
  {
    schedule := EntersOwnGroup(prog, st, t, d, g);
    assert [Body(d, 1), Enter(g)] == [Body(d, 1)] + [Enter(g)];
    RunOneMore(prog, st, schedule, t);
    AloneEnters(prog, Run(prog, st, schedule), t, [Body(d, 1)], g, d, g, Running, Untouched);
    schedule := schedule + [t];
    RunOneMore(prog, st, schedule, t);
    AloneCalls(prog, Run(prog, st, schedule), t, [Body(d, 1)], g, d, d, g, Running, Running);
    schedule := schedule + [t];
    RunOneMore(prog, st, schedule, t);
    AloneEnters(prog, Run(prog, st, schedule), t, [Body(d, 1)] + [Body(g, 1)], d, d, g, Running, Running);
    schedule := schedule + [t];
    AloneIsStuck(prog, Run(prog, st, schedule), t, [Body(d, 1)] + [Body(g, 1)], d, g);
  }
}
