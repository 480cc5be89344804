/** What the registry holds during a run of the initialization protocol. */
module OnceRegistry {
  import opened OnceProtocol
  import opened Wrappers

  /** The frame in which the body of p runs. */
  ghost function OwnerFrame(st: State, p: Pass): Frame
    requires p in st.flags && OwnerGood(st, p) && st.flags[p] == Running
  {
    FrameAt(st, st.owners[p].thread, st.owners[p].depth)
  }

  /** The body of p is past its calls. */
  ghost predicate LateNow(st: State, p: Pass)
    requires p in st.flags && OwnerGood(st, p)
  {
    st.flags[p] == Finished || (st.flags[p] == Running && OwnerFrame(st, p).Late())
  }

  /** The body of p is past everything but the store to the flag. */
  ghost predicate JoinedNow(st: State, p: Pass)
    requires p in st.flags && OwnerGood(st, p)
  {
    st.flags[p] == Finished || (st.flags[p] == Running && OwnerFrame(st, p).Publish?)
  }

  /** A pass is registered exactly when its body is past its calls; an interface, at the latest when its group is done. */
  ghost predicate ListedGood(prog: Program, st: State, p: Pass)
    requires p in st.flags && p in prog.decls && OwnerGood(st, p)
  {
    && (!prog.decls[p].Group? ==> (p in st.registry <==> LateNow(st, p)))
    && (!prog.decls[p].Plain? && JoinedNow(st, p) ==> Interface(prog, p) in st.registry)
  }

  /** What a thread saw of the interface is still so. */
  ghost predicate JoinGood(prog: Program, st: State, t: Thread, k: nat)
    requires t in st.threads && k < |st.threads[t].stack|
  {
    var f := FrameAt(st, t, k);
    && (f.Lookup? ==> f.pass in prog.decls && !prog.decls[f.pass].Plain?)
    && (f.Join? ==> f.pass in prog.decls && !prog.decls[f.pass].Plain? && (f.seen <==> Interface(prog, f.pass) in st.registry))
  }

  /** Everything the k-th registered pass calls was registered before it. */
  ghost predicate OrderGood(prog: Program, registry: seq<Pass>, k: nat)
    requires k < |registry|
  {
    registry[k] in prog.decls && forall c | c in Calls(prog, registry[k]) :: c in registry[..k]
  }

  ghost predicate Topological(prog: Program, registry: seq<Pass>) {
    NoDup(registry) && forall k {:trigger OrderGood(prog, registry, k)} | 0 <= k < |registry| :: OrderGood(prog, registry, k)
  }

  ghost predicate RegistryGood(prog: Program, st: State) {
    && GuardsGood(prog, st) && Topological(prog, st.registry)
    && (forall p {:trigger ListedGood(prog, st, p)} | p in st.flags :: ListedGood(prog, st, p))
    && (forall t, k {:trigger JoinGood(prog, st, t, k)} | t in st.threads && 0 <= k < |st.threads[t].stack| :: JoinGood(prog, st, t, k))
  }

  lemma Registers(prog: Program, registry: seq<Pass>, p: Pass)
    requires Topological(prog, registry) && p in prog.decls && p !in registry && forall c | c in Calls(prog, p) :: c in registry
    ensures Topological(prog, registry + [p])
  {
    var r := registry + [p];
    forall k | 0 <= k < |r| ensures OrderGood(prog, r, k) {
      if k < |registry| {
        assert OrderGood(prog, registry, k);
        assert r[..k] == registry[..k];
      } else {
        assert r[..k] == registry;
      }
    }
  }

  /** What is finished is registered. */
  lemma FinishedListed(prog: Program, st: State, c: Pass)
    requires RegistryGood(prog, st) && FlagOf(st, c) == Finished
    ensures c in st.registry
  {
    assert ListedGood(prog, st, c);
  }

  lemma CallsListed(prog: Program, st: State, p: Pass)
    requires RegistryGood(prog, st) && p in prog.decls && DoneUpTo(prog, st, p, |Calls(prog, p)|)
    ensures forall c | c in Calls(prog, p) :: c in st.registry
  {
    forall c | c in Calls(prog, p) ensures c in st.registry {
      var i :| 0 <= i < |Calls(prog, p)| && Calls(prog, p)[i] == c;
      FinishedListed(prog, st, c);
    }
  }

  /** A thread about to register an interface. */
  ghost predicate Joining(prog: Program, st: State, t: Thread) {
    Steps(prog, st, t) && Top(st.threads[t]).Join? && !Top(st.threads[t]).seen
  }

  /** Only the group itself or its default pass ever registers the interface. */
  lemma JoinerIs(prog: Program, st: State, t: Thread)
    requires RegistryGood(prog, st) && Joining(prog, st, t)
    ensures var p := Top(st.threads[t]).pass;
            && p in prog.decls && FlagOf(st, p) == Running && DoneUpTo(prog, st, p, |Calls(prog, p)|) && !prog.decls[p].Plain?
            && Interface(prog, p) in prog.decls && prog.decls[Interface(prog, p)].Group?
            && Interface(prog, p) !in st.registry
            && (prog.decls[p].Member? ==> prog.decls[Interface(prog, p)].defaultPass == p && p in st.registry)
  {
    var n := |st.threads[t].stack| - 1;
    var p := Top(st.threads[t]).pass;
    assert FrameGood(prog, st, t, n) && JoinGood(prog, st, t, n) && ListedGood(prog, st, p);
    if prog.decls[p].Member? && !prog.decls[p].isDefault {
      assert Calls(prog, p)[0] == prog.decls[p].group;
      FinishedListed(prog, st, prog.decls[p].group);
    }
  }

  lemma GroupDefaultDone(prog: Program, st: State, p: Pass)
    requires p in prog.decls && DoneUpTo(prog, st, p, |Calls(prog, p)|)
    ensures prog.decls[p].Group? ==> FlagOf(st, prog.decls[p].defaultPass) == Finished
  {
    if prog.decls[p].Group? {
      assert Calls(prog, p)[0] == prog.decls[p].defaultPass;
    }
  }

  /** No two threads are about to register the same interface. */
  lemma OneJoiner(prog: Program, st: State, t: Thread, u: Thread)
    requires RegistryGood(prog, st) && Joining(prog, st, t) && Joining(prog, st, u)
    requires Top(st.threads[t]).pass in prog.decls && Top(st.threads[u]).pass in prog.decls
    requires Interface(prog, Top(st.threads[t]).pass) == Interface(prog, Top(st.threads[u]).pass)
    ensures t == u
  {
    JoinerIs(prog, st, t);
    GroupDefaultDone(prog, st, Top(st.threads[t]).pass);
    JoinerIs(prog, st, u);
    GroupDefaultDone(prog, st, Top(st.threads[u]).pass);
    assert FrameGood(prog, st, t, |st.threads[t].stack| - 1) && FrameGood(prog, st, u, |st.threads[u].stack| - 1);
  }

  // ----- Every step keeps the registry in order -----

  lemma RegistryAfter(prog: Program, st: State, t: Thread)
    requires RegistryGood(prog, st) && Steps(prog, st, t)
    ensures Topological(prog, Next(prog, st, t).registry)
    ensures forall p | p in st.registry :: p in Next(prog, st, t).registry
  {
    TopGood(prog, st, t);
    var f, n := Top(st.threads[t]), |st.threads[t].stack| - 1;
    var p := f.pass;
    assert ListedGood(prog, st, p) && FrameGood(prog, st, t, n);
    if f.Body? && f.calls == |Calls(prog, p)| && !prog.decls[p].Group? {
      CallsListed(prog, st, p);
      Registers(prog, st.registry, p);
    } else if Joining(prog, st, t) {
      JoinerIs(prog, st, t);
      CallsListed(prog, st, p);
      Registers(prog, st.registry, Interface(prog, p));
    }
  }

  lemma ListedAfter(prog: Program, st: State, t: Thread, q: Pass)
    requires RegistryGood(prog, st) && Steps(prog, st, t) && GuardsGood(prog, Next(prog, st, t)) && q in st.flags
    requires forall p | p in st.registry :: p in Next(prog, st, t).registry
    ensures q in Next(prog, st, t).flags && ListedGood(prog, Next(prog, st, t), q)
  {
    TopGood(prog, st, t);
    var p, n, st' := Top(st.threads[t]).pass, |st.threads[t].stack| - 1, Next(prog, st, t);
    assert ListedGood(prog, st, q) && OwnerGood(st, q) && OwnerGood(st', q) && JoinGood(prog, st, t, n);
    assert Joining(prog, st, t) ==> prog.decls[Interface(prog, p)].Group? by {
      if Joining(prog, st, t) {
        JoinerIs(prog, st, t);
      }
    }
    if q != p && st.flags[q] == Running {
      OwnerStays(prog, st, t, q);
    }
  }

  /** The body of another pass is where it was, in the same frame or, at a call, one call further. */
  lemma OwnerStays(prog: Program, st: State, t: Thread, q: Pass)
    requires GuardsGood(prog, st) && Steps(prog, st, t) && GuardsGood(prog, Next(prog, st, t))
    requires q in st.flags && q != Top(st.threads[t]).pass && st.flags[q] == Running
    ensures q in Next(prog, st, t).flags && Next(prog, st, t).flags[q] == Running
    ensures OwnerGood(st, q) && OwnerGood(Next(prog, st, t), q) && OwnerFrame(Next(prog, st, t), q) == OwnerFrame(st, q)
  {
    TopGood(prog, st, t);
    assert OwnerGood(st, q) && OwnerGood(Next(prog, st, t), q);
    var o := st.owners[q];
    assert FrameGood(prog, st, o.thread, o.depth);
  }

  lemma JoinAfter(prog: Program, st: State, t: Thread, u: Thread, k: nat)
    requires RegistryGood(prog, st) && Steps(prog, st, t) && GuardsGood(prog, Next(prog, st, t))
    requires u in Next(prog, st, t).threads && k < |Next(prog, st, t).threads[u].stack|
    ensures JoinGood(prog, Next(prog, st, t), u, k)
  {
    TopGood(prog, st, t);
    var p, n, st' := Top(st.threads[t]).pass, |st.threads[t].stack| - 1, Next(prog, st, t);
    assert JoinGood(prog, st, t, n);
    if k < |st.threads[u].stack| {
      assert JoinGood(prog, st, u, k) && FrameGood(prog, st, u, k);
    }
    if u != t && FrameAt(st, u, k).Join? {
      JoinElsewhere(prog, st, t, u, k);
    }
  }

  lemma JoinElsewhere(prog: Program, st: State, t: Thread, u: Thread, k: nat)
    requires RegistryGood(prog, st) && Steps(prog, st, t) && u in st.threads && u != t && k < |st.threads[u].stack| && FrameAt(st, u, k).Join?
    ensures FrameAt(st, u, k).pass in prog.decls
    ensures Interface(prog, FrameAt(st, u, k).pass) in st.registry <==> Interface(prog, FrameAt(st, u, k).pass) in Next(prog, st, t).registry
  {
    TopGood(prog, st, t);
    assert JoinGood(prog, st, u, k) && FrameGood(prog, st, u, k) && JoinGood(prog, st, t, |st.threads[t].stack| - 1);
    var p, q := Top(st.threads[t]).pass, FrameAt(st, u, k).pass;
    assert Top(st.threads[u]) == FrameAt(st, u, k);
    if Joining(prog, st, t) && Joining(prog, st, u) && Interface(prog, p) == Interface(prog, q) {
      OneJoiner(prog, st, t, u);
    }
    if Joining(prog, st, u) {
      JoinerIs(prog, st, u);
    }
  }

  lemma StepRegistered(prog: Program, st: State, t: Thread)
    requires WellFormed(prog) && RegistryGood(prog, st)
    ensures RegistryGood(prog, Next(prog, st, t))
  {
    StepKept(prog, st, t);
    var st' := Next(prog, st, t);
    if Steps(prog, st, t) {
      RegistryAfter(prog, st, t);
      forall p | p in st'.flags ensures ListedGood(prog, st', p) {
        ListedAfter(prog, st, t, p);
      }
      forall u, k | u in st'.threads && 0 <= k < |st'.threads[u].stack| ensures JoinGood(prog, st', u, k) {
        JoinAfter(prog, st, t, u, k);
      }
    } else if t in st.threads {
      StartRegistered(prog, st, t);
    }
  }

  lemma StartRegistered(prog: Program, st: State, t: Thread)
    requires WellFormed(prog) && RegistryGood(prog, st) && GuardsGood(prog, Next(prog, st, t)) && t in st.threads && st.threads[t].stack == []
    ensures RegistryGood(prog, Next(prog, st, t))
  {
    var st' := Next(prog, st, t);
    forall p | p in st'.flags ensures ListedGood(prog, st', p) {
      assert ListedGood(prog, st, p) && OwnerGood(st, p) && OwnerGood(st', p);
    }
    forall u, k | u in st'.threads && 0 <= k < |st'.threads[u].stack| ensures JoinGood(prog, st', u, k) {
      assert u != t ==> JoinGood(prog, st, u, k);
    }
  }
}
