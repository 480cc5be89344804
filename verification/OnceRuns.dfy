/** Safety over whole runs of the initialization protocol. */
module OnceRuns {
  import opened OnceProtocol
  import opened OnceRegistry
  import opened Wrappers

  lemma InitialGood(prog: Program, st: State)
    requires WellFormed(prog) && Initial(prog, st)
    ensures RegistryGood(prog, st)
  {
    forall p | p in st.flags ensures OwnerGood(st, p) && FinishGood(prog, st, p) && ListedGood(prog, st, p) {
    }
  }

  /** Whatever the interleaving, the invariant holds at every point of a run. */
  lemma {:induction false} RunGood(prog: Program, st: State, schedule: seq<Thread>)
    requires WellFormed(prog) && Initial(prog, st)
    ensures RegistryGood(prog, Run(prog, st, schedule))
    decreases |schedule|
  {
    if schedule == [] {
      InitialGood(prog, st);
    } else {
      RunGood(prog, st, schedule[..|schedule| - 1]);
      StepRegistered(prog, Run(prog, st, schedule[..|schedule| - 1]), schedule[|schedule| - 1]);
    }
  }

  // ----- A body runs at most once -----

  /** The step claims the guard of p and begins its body. */
  ghost predicate StartsBody(st: State, t: Thread, p: Pass) {
    t in st.threads && st.threads[t].stack != [] && Top(st.threads[t]) == Enter(p) && p in st.flags && st.flags[p] == Untouched
  }

  lemma StartClaims(prog: Program, st: State, t: Thread, p: Pass)
    requires StartsBody(st, t, p) && p in prog.decls
    ensures FlagOf(Next(prog, st, t), p) == Running
  {
  }

  lemma TouchedForGood(prog: Program, st: State, t: Thread, p: Pass)
    requires FlagOf(st, p) != Untouched
    ensures FlagOf(Next(prog, st, t), p) != Untouched
  {
  }

  lemma {:induction false} TouchedLater(prog: Program, st: State, schedule: seq<Thread>, i: nat, j: nat, p: Pass)
    requires i <= j <= |schedule| && FlagOf(Run(prog, st, schedule[..i]), p) != Untouched
    ensures FlagOf(Run(prog, st, schedule[..j]), p) != Untouched
    decreases j
  {
    if i < j {
      TouchedLater(prog, st, schedule, i, j - 1, p);
      assert schedule[..j][..j - 1] == schedule[..j - 1];
      TouchedForGood(prog, Run(prog, st, schedule[..j - 1]), schedule[j - 1], p);
    }
  }

  /** In no run does the body of a pass begin twice. */
  lemma BodyRunsOnce(prog: Program, st: State, schedule: seq<Thread>, i: nat, j: nat, p: Pass)
    requires i <= j < |schedule| && p in prog.decls
    requires StartsBody(Run(prog, st, schedule[..i]), schedule[i], p) && StartsBody(Run(prog, st, schedule[..j]), schedule[j], p)
    ensures i == j
  {
    if i < j {
      StartClaims(prog, Run(prog, st, schedule[..i]), schedule[i], p);
      assert schedule[..i + 1][..i] == schedule[..i];
      TouchedLater(prog, st, schedule, i + 1, j, p);
    }
  }

  // ----- No thread leaves a guard early -----

  /** The step leaves the innermost guard of the thread. */
  ghost predicate LeavesGuard(prog: Program, st: State, t: Thread) {
    t in st.threads && t in Next(prog, st, t).threads && |Next(prog, st, t).threads[t].stack| < |st.threads[t].stack|
  }

  /** No frame anywhere runs the body of p. */
  ghost predicate NobodyRuns(st: State, p: Pass) {
    forall t, k | t in st.threads && 0 <= k < |st.threads[t].stack| :: FrameAt(st, t, k).pass == p ==> !FrameAt(st, t, k).Active()
  }

  lemma FinishedNobody(prog: Program, st: State, p: Pass)
    requires GuardsGood(prog, st) && FlagOf(st, p) == Finished
    ensures NobodyRuns(st, p)
  {
    forall t, k | t in st.threads && 0 <= k < |st.threads[t].stack| && FrameAt(st, t, k).pass == p ensures !FrameAt(st, t, k).Active() {
      assert FrameGood(prog, st, t, k);
    }
  }

  /** Whoever leaves a guard finds the body finished, the pass registered, and its dependencies finished too. */
  lemma LeavesWhenFinished(prog: Program, st: State, schedule: seq<Thread>, t: Thread)
    requires WellFormed(prog) && Initial(prog, st) && LeavesGuard(prog, Run(prog, st, schedule), t)
    ensures var now := Run(prog, st, schedule);
            var after, p := Next(prog, now, t), Top(now.threads[t]).pass;
            && p in prog.decls && FlagOf(after, p) == Finished && NobodyRuns(after, p) && p in after.registry
            && (forall c | c in Calls(prog, p) :: FlagOf(after, c) == Finished && c in after.registry)
  {
    var now := Run(prog, st, schedule);
    RunGood(prog, st, schedule);
    StepRegistered(prog, now, t);
    var after := Next(prog, now, t);
    FinishedMeans(prog, now, t);
    var p := Top(now.threads[t]).pass;
    FinishedNobody(prog, after, p);
    FinishedListed(prog, after, p);
    assert FinishGood(prog, after, p);
    forall c | c in Calls(prog, p) ensures FlagOf(after, c) == Finished && c in after.registry {
      var i :| 0 <= i < |Calls(prog, p)| && Calls(prog, p)[i] == c;
      FinishedListed(prog, after, c);
    }
  }

  lemma FinishedMeans(prog: Program, now: State, t: Thread)
    requires GuardsGood(prog, now) && LeavesGuard(prog, now, t)
    ensures Top(now.threads[t]).pass in prog.decls && FlagOf(Next(prog, now, t), Top(now.threads[t]).pass) == Finished
  {
  }

  // ----- Registration -----

  /** The step registers the pass itself. */
  ghost predicate RegistersPass(prog: Program, st: State, t: Thread, p: Pass) {
    && t in st.threads && st.threads[t].stack != [] && p in prog.decls && p in st.flags && !prog.decls[p].Group?
    && Top(st.threads[t]) == Body(p, |Calls(prog, p)|)
  }

  /** A pass is registered once, when everything it depends on has finished. */
  lemma RegistersAfterDependencies(prog: Program, st: State, schedule: seq<Thread>, t: Thread, p: Pass)
    requires WellFormed(prog) && Initial(prog, st) && RegistersPass(prog, Run(prog, st, schedule), t, p)
    ensures var now := Run(prog, st, schedule);
            && Next(prog, now, t).registry == now.registry + [p] && p !in now.registry
            && (forall c | c in Calls(prog, p) :: FlagOf(now, c) == Finished && NobodyRuns(now, c))
  {
    var now := Run(prog, st, schedule);
    RunGood(prog, st, schedule);
    var n := |now.threads[t].stack| - 1;
    assert FrameGood(prog, now, t, n) && ListedGood(prog, now, p);
    forall c | c in Calls(prog, p) ensures FlagOf(now, c) == Finished && NobodyRuns(now, c) {
      DependencyDone(prog, now, t, p, c);
    }
  }

  lemma DependencyDone(prog: Program, st: State, t: Thread, p: Pass, c: Pass)
    requires WellFormed(prog) && GuardsGood(prog, st) && RegistersPass(prog, st, t, p) && c in Calls(prog, p)
    ensures FlagOf(st, c) == Finished && NobodyRuns(st, c)
  {
    var n := |st.threads[t].stack| - 1;
    assert FrameGood(prog, st, t, n);
    var i :| 0 <= i < |Calls(prog, p)| && Calls(prog, p)[i] == c;
    assert FlagOf(st, Calls(prog, p)[i]) == Finished;
    FinishedNobody(prog, st, c);
  }

  /** At every point of every run the registry has no pass twice and lists dependencies first. */
  lemma RegistrationIsTopological(prog: Program, st: State, schedule: seq<Thread>)
    requires WellFormed(prog) && Initial(prog, st)
    ensures Topological(prog, Run(prog, st, schedule).registry)
  {
    RunGood(prog, st, schedule);
  }

  // ----- What a run that has ended has done -----

  ghost predicate AllDone(st: State) {
    forall t | t in st.threads :: st.threads[t].todo == [] && st.threads[t].stack == []
  }

  /** The pass is still to do, in its guard, or finished. */
  ghost predicate Tended(st: State, t: Thread, p: Pass) {
    FlagOf(st, p) == Finished
    || (t in st.threads && (p in st.threads[t].todo || (st.threads[t].stack != [] && st.threads[t].stack[0].pass == p)))
  }

  lemma TendedStep(prog: Program, st: State, u: Thread, t: Thread, p: Pass)
    requires GuardsGood(prog, st) && Tended(st, t, p)
    ensures Tended(Next(prog, st, u), t, p)
  {
    if u == t && t in st.threads && st.threads[t].stack != [] {
      assert FrameGood(prog, st, t, |st.threads[t].stack| - 1);
    }
  }

  lemma {:induction false} TendedAlways(prog: Program, st: State, schedule: seq<Thread>, t: Thread, p: Pass)
    requires WellFormed(prog) && Initial(prog, st) && t in st.threads && p in st.threads[t].todo
    ensures Tended(Run(prog, st, schedule), t, p)
    decreases |schedule|
  {
    if schedule != [] {
      var before := schedule[..|schedule| - 1];
      TendedAlways(prog, st, before, t, p);
      RunGood(prog, st, before);
      TendedStep(prog, Run(prog, st, before), schedule[|schedule| - 1], t, p);
    }
  }

  /** When all threads are through, everything asked for is finished and registered. */
  lemma AskedForIsRegistered(prog: Program, st: State, schedule: seq<Thread>, t: Thread, p: Pass)
    requires WellFormed(prog) && Initial(prog, st) && t in st.threads && p in st.threads[t].todo
    requires AllDone(Run(prog, st, schedule))
    ensures FlagOf(Run(prog, st, schedule), p) == Finished && p in Run(prog, st, schedule).registry
  {
    RunGood(prog, st, schedule);
    TendedAlways(prog, st, schedule, t, p);
    FinishedListed(prog, Run(prog, st, schedule), p);
  }
}
