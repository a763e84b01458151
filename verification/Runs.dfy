/** Runs of reconciles and restarts, with persists that may fail. */
module Runs {
  import opened Wrappers
  import opened Viola
  import opened Inventory
  import opened Normalization
  import opened Schedule
  import opened Reconciler
  import opened Coherence

  datatype Event = Reconcile(input: Input) | Restart

  function After(plan: Plan, s: State, e: Event): State {
    match e
    case Reconcile(input) => Step(plan, s, input).0
    case Restart => Restarted(s)
  }

  function RunOf(plan: Plan, s: State, es: seq<Event>): State {
    if es == [] then s else After(plan, RunOf(plan, s, es[..|es| - 1]), es[|es| - 1])
  }

  /** The last attempt to persist succeeded, or there was none: nothing was logged since. */
  predicate Settled(plan: Plan, mem: Memory) {
    mem.store.Some? ==> mem.store.value.writes == 0 || plan(mem.store.value.writes - 1).Renamed?
  }

  ghost predicate FileCurrent(mem: Memory) {
    mem.store.Some? ==> mem.store.value.disk == mem.store.value.data
  }

  ghost predicate FileFollows(plan: Plan, mem: Memory) {
    Settled(plan, mem) ==> FileCurrent(mem)
  }

  /** Memory is coherent, and the file holds it whenever the last persist succeeded. */
  ghost predicate Inv(plan: Plan, s: State) {
    Coherent(s.mem, s.remote) && FileFollows(plan, s.mem)
  }

  /** Restarts happen only while the file is settled; reconciles are unrestricted. */
  ghost predicate SettledRestarts(plan: Plan, s: State, es: seq<Event>) {
    forall i :: 0 <= i < |es| && es[i].Restart? ==> Settled(plan, RunOf(plan, s, es[..i]).mem)
  }

  // ---------- The file follows memory ----------

  lemma {:induction false} FilterFileFollows(plan: Plan, mem: Memory, p: string, nodes: seq<NodeConfig>, now: int)
    requires FileFollows(plan, mem)
    ensures FileFollows(plan, FilterChanged(plan, mem, p, nodes, now).mem)
  {
    if nodes == [] {
    } else {
      FilterFileFollows(plan, mem, p, nodes[..|nodes| - 1], now);
    }
  }

  lemma RememberedFileFollows(plan: Plan, mem: Memory, p: string, hashes: map<string, Hash>, sent: seq<NodeConfig>,
                              at: int)
    requires FileFollows(plan, mem)
    ensures FileFollows(plan, Remembered(plan, mem, p, hashes, sent, at))
  {
  }

  lemma StepKeepsInv(plan: Plan, s: State, input: Input)
    requires Inv(plan, s)
    ensures Inv(plan, Step(plan, s, input).0)
  {
    StepKeepsCoherent(plan, s, input);
    FilterFileFollows(plan, s.mem, input.providerID, input.nodes, input.now);
    var f := Changed(plan, s, input);
    var (payload, hashes) := PayloadFor(f, input);
    RememberedFileFollows(plan, f.mem, input.providerID, hashes, payload, input.sendTime);
  }

  lemma RestartKeepsInv(plan: Plan, s: State)
    requires Inv(plan, s) && Settled(plan, s.mem)
    ensures Inv(plan, Restarted(s))
  {
  }

  /** Over every run of reconciles, failed POSTs, failed persists and restarts from a settled file,
      each cache entry and inventory record holds the hash of the config last acknowledged for its own
      node, even when keys of different pairs collide or nodes share a name. */
  lemma {:induction false} RunKeepsInv(plan: Plan, s: State, es: seq<Event>)
    requires Inv(plan, s) && SettledRestarts(plan, s, es)
    ensures Inv(plan, RunOf(plan, s, es))
  {
    if es == [] {
    } else {
      var init, last := es[..|es| - 1], es[|es| - 1];
      assert forall i {:trigger init[i]} :: 0 <= i < |init| ==> es[i] == init[i] && es[..i] == init[..i];
      RunKeepsInv(plan, s, init);
      match last
      case Reconcile(input) => StepKeepsInv(plan, RunOf(plan, s, init), input);
      case Restart =>
        assert es[|es| - 1].Restart?;
        RestartKeepsInv(plan, RunOf(plan, s, init));
    }
  }

  /** When no persist ever fails, restarts are unrestricted. */
  lemma ReliablePersists(plan: Plan, s: State, es: seq<Event>)
    requires forall n :: plan(n).Renamed?
    ensures SettledRestarts(plan, s, es)
  {
  }

  /** The state an operator first starts in. */
  predicate Fresh(s: State) {
    && s.mem.cache == map[] && s.remote == map[]
    && (s.mem.store.Some? ==> s.mem.store.value.data == map[] && s.mem.store.value.disk == map[])
  }

  lemma FreshInv(plan: Plan, s: State)
    requires Fresh(s)
    ensures Inv(plan, s)
  {
  }

  /** A new process knows exactly the configs whose hashes the file holds, and no time of a change. */
  lemma RestartForgets(s: State, p: string, norm: NodeConfig)
    ensures Known(Restarted(s).mem, p, norm) <==>
            && s.mem.store.Some? && Key(p, norm.nodeName) in s.mem.store.value.disk
            && s.mem.store.value.disk[Key(p, norm.nodeName)].lastConfigHash == HashOf(norm)
    ensures Restarted(s).lastChange == map[] && Restarted(s).remote == s.remote
  {
  }

  // ---------- Restarting from an unsettled file ----------

  /** The file and memory agree on what was sent, for every node the file knows. */
  predicate FileUpToDate(store: StoreState) {
    forall k :: k in store.disk ==>
      k in store.data && store.disk[k].config == store.data[k].config
      && store.disk[k].lastConfigHash == store.data[k].lastConfigHash
  }

  /** Under every key of the file, memory holds a record of the same node. */
  ghost predicate SameNodes(store: StoreState) {
    forall k :: k in store.disk ==>
      k in store.data && store.disk[k].config.nodeName == store.data[k].config.nodeName
  }

  /** While file and memory hold the same node under each key, a restart keeps memory coherent exactly when the file
      is up to date about every node it knows: one failed persist is harmless until the process stops. */
  lemma RestartCoherence(s: State)
    requires Coherent(s.mem, s.remote) && s.mem.store.Some? && SameNodes(s.mem.store.value)
    ensures Coherent(Restarted(s).mem, s.remote) <==> FileUpToDate(s.mem.store.value)
  {
  }

  /** Every record under a key of the map is about a node of one of these providers. */
  ghost predicate Owned(data: Data, ps: set<string>) {
    forall k :: k in data ==> exists p :: p in ps && k == Key(p, data[k].config.nodeName)
  }

  ghost predicate OwnedStore(mem: Memory, ps: set<string>) {
    mem.store.Some? ==>
      var store := mem.store.value;
      Owned(store.data, ps) && Owned(store.disk, ps) && store.disk.Keys <= store.data.Keys
  }

  /** No two of these providers share a key. */
  ghost predicate Apart(ps: set<string>) {
    forall p, q :: p in ps && q in ps && p != q ==> !Collide(p, q)
  }

  /** Every reconcile of the run is for one of these providers. */
  ghost predicate ForProviders(es: seq<Event>, ps: set<string>) {
    forall i :: 0 <= i < |es| && es[i].Reconcile? ==> es[i].input.providerID in ps
  }

  lemma UpsertedOwned(plan: Plan, cache: Cache, store: StoreState, ps: set<string>, p: string, node: NodeConfig,
                      hash: Hash, at: int)
    requires OwnedStore(Memory(cache, Some(store)), ps) && p in ps
    ensures OwnedStore(Memory(cache, Some(store.Upserted(plan, p, node, hash, at))), ps)
  {
  }

  lemma {:induction false} FilterOwned(plan: Plan, mem: Memory, remote: Remote, p: string, nodes: seq<NodeConfig>,
                                       now: int, ps: set<string>)
    requires Coherent(mem, remote) && OwnedStore(mem, ps) && p in ps
    ensures OwnedStore(FilterChanged(plan, mem, p, nodes, now).mem, ps)
  {
    if nodes == [] {
    } else {
      var init, norm := nodes[..|nodes| - 1], Normalize(nodes[|nodes| - 1]);
      FilterOwned(plan, mem, remote, p, init, now, ps);
      FilterKeepsCoherent(plan, mem, remote, p, init, now);
      var f := FilterChanged(plan, mem, p, init, now);
      if Known(f.mem, p, norm) && f.mem.store.Some? {
        KnownMeansAcked(f.mem, remote, p, norm);
        UpsertedOwned(plan, f.mem.cache, f.mem.store.value, ps, p, norm, HashOf(norm), now);
      }
    }
  }

  lemma {:induction false} StoreSentOwned(plan: Plan, cache: Cache, store: StoreState, ps: set<string>, p: string,
                                          hashes: map<string, Hash>, sent: seq<NodeConfig>, at: int)
    requires OwnedStore(Memory(cache, Some(store)), ps) && p in ps
    ensures OwnedStore(Memory(cache, Some(StoreSent(plan, store, p, hashes, sent, at))), ps)
  {
    if sent == [] {
    } else {
      var init, node := sent[..|sent| - 1], sent[|sent| - 1];
      StoreSentOwned(plan, cache, store, ps, p, hashes, init, at);
      UpsertedOwned(plan, cache, StoreSent(plan, store, p, hashes, init, at), ps, p, node,
                    if node.nodeName in hashes then hashes[node.nodeName] else Absent, at);
    }
  }

  lemma StepOwned(plan: Plan, s: State, input: Input, ps: set<string>)
    requires Coherent(s.mem, s.remote) && OwnedStore(s.mem, ps) && input.providerID in ps
    ensures OwnedStore(Step(plan, s, input).0.mem, ps)
  {
    var f := Changed(plan, s, input);
    var (payload, hashes) := PayloadFor(f, input);
    FilterOwned(plan, s.mem, s.remote, input.providerID, input.nodes, input.now, ps);
    if f.mem.store.Some? {
      StoreSentOwned(plan, f.mem.cache, f.mem.store.value, ps, input.providerID, hashes, payload, input.sendTime);
    }
  }

  lemma {:induction false} RunOwned(plan: Plan, s: State, es: seq<Event>, ps: set<string>)
    requires Inv(plan, s) && OwnedStore(s.mem, ps) && SettledRestarts(plan, s, es) && ForProviders(es, ps)
    ensures OwnedStore(RunOf(plan, s, es).mem, ps)
  {
    if es == [] {
    } else {
      var init, last := es[..|es| - 1], es[|es| - 1];
      assert forall i {:trigger init[i]} :: 0 <= i < |init| ==> es[i] == init[i] && es[..i] == init[..i];
      RunOwned(plan, s, init, ps);
      RunKeepsInv(plan, s, init);
      match last
      case Reconcile(input) =>
        assert es[|es| - 1].Reconcile?;
        StepOwned(plan, RunOf(plan, s, init), input, ps);
      case Restart =>
    }
  }

  lemma OwnedMeansSameNodes(mem: Memory, ps: set<string>)
    requires mem.store.Some? && OwnedStore(mem, ps) && Apart(ps)
    ensures SameNodes(mem.store.value)
  {
    var store := mem.store.value;
    forall k | k in store.disk
      ensures k in store.data && store.disk[k].config.nodeName == store.data[k].config.nodeName
    {
      var p :| p in ps && k == Key(p, store.disk[k].config.nodeName);
      var q :| q in ps && k == Key(q, store.data[k].config.nodeName);
      SameOwner(p, store.disk[k].config.nodeName, q, store.data[k].config.nodeName);
    }
  }

  /** From a fresh start with the inventory enabled, after any run with settled restarts over providers that share no
      key, one more restart keeps memory coherent exactly when the file is up to date. */
  lemma RunRestartCoherence(plan: Plan, s: State, es: seq<Event>, ps: set<string>)
    requires Fresh(s) && RunOf(plan, s, es).mem.store.Some?
    requires SettledRestarts(plan, s, es) && ForProviders(es, ps) && Apart(ps)
    ensures var end := RunOf(plan, s, es);
            Coherent(Restarted(end).mem, end.remote) <==> FileUpToDate(end.mem.store.value)
  {
    FreshInv(plan, s);
    RunKeepsInv(plan, s, es);
    RunOwned(plan, s, es, ps);
    OwnedMeansSameNodes(RunOf(plan, s, es).mem, ps);
    RestartCoherence(RunOf(plan, s, es));
  }

  /** What an out-of-date record does: after the restart, the reconcile that wants the recorded config reports
      NoChange and skips its POST, although another config was acknowledged. */
  lemma StaleRecordSkipsPost(plan: Plan, s: State, k: string, input: Input, node: NodeConfig)
    requires Coherent(s.mem, s.remote) && s.mem.store.Some?
    requires var store := s.mem.store.value;
             && k in store.disk && k in store.data && store.disk[k].lastConfigHash == HashOf(store.disk[k].config)
             && store.disk[k].config.nodeName == store.data[k].config.nodeName
             && store.disk[k].config != store.data[k].config
             && Normalize(node) == store.disk[k].config
    requires k == Key(input.providerID, node.nodeName) && input.nodes == [node] && input.downHash == NoDown
    ensures var (s', report) := Step(plan, Restarted(s), input);
            report.reason == NoChange && !Acked(s'.remote, input.providerID, Normalize(node))
  {
    KeyProvider(input.providerID, node.nodeName);
    assert EntryTrue(k, s.mem.store.value.data[k].lastConfigHash, s.mem.store.value.data[k].config, s.remote);
    assert input.nodes[..0] == [];
    var mem := Restarted(s).mem;
    assert FilterChanged(plan, mem, input.providerID, input.nodes[..0], input.now) == Filtered(mem, [], map[]);
    assert Known(mem, input.providerID, Normalize(node));
  }

  lemma SingleStep(plan: Plan, s: State, input: Input, node: NodeConfig)
    requires input.nodes == [node] && Normalize(node) == node && input.downHash == NoDown && input.postOk
    ensures var (s', r) := Step(plan, s, input);
            var k := Key(input.providerID, node.nodeName);
            if Known(s.mem, input.providerID, node)
            then r.reason == NoChange && s'.remote == s.remote
            else
              && r.reason == Synced && s'.remote == s.remote[(input.providerID, node.nodeName) := node]
              && s'.mem.cache == s.mem.cache[k := CacheEntry(HashOf(node), node)]
              && (s.mem.store.Some? ==>
                    s'.mem.store == Some(s.mem.store.value.Upserted(plan, input.providerID, node, HashOf(node),
                                                                    input.sendTime)))
  {
    assert input.nodes[..0] == [] && [node][..0] == [];
    var f := Changed(plan, s, input);
    assert FilterChanged(plan, s.mem, input.providerID, input.nodes[..0], input.now) == Filtered(s.mem, [], map[]);
    if !Known(s.mem, input.providerID, node) {
      var hashes := map[][node.nodeName := HashOf(node)];
      assert f == Filtered(s.mem, [] + [node], hashes) && [] + [node] == [node];
      assert PayloadFor(f, input) == ([node], hashes);
      assert Acknowledged(s.remote, input.providerID, [node][..0]) == s.remote;
      assert CacheSent(s.mem.cache, input.providerID, hashes, [node][..0]) == s.mem.cache;
      if s.mem.store.Some? {
        var store := s.mem.store.value;
        assert StoreSent(plan, store, input.providerID, hashes, [node][..0], input.sendTime) == store;
      }
    }
  }

  /** Why restarts must wait: send `a`, then `b` with a persist that fails, restart, and want `a` again.
      The stale record makes the operator report NoChange while the Viola API still has `b`. */
  lemma StaleFileSkipsSend(plan: Plan, s: State, wantB: Input, wantA: Input, a: NodeConfig, b: NodeConfig)
    requires a.nodeName == b.nodeName && a != b && Normalize(a) == a && Normalize(b) == b
    requires wantA.providerID == wantB.providerID
    requires wantA.nodes == [a] && wantA.downHash == NoDown && wantA.postOk
    requires wantB.nodes == [b] && wantB.downHash == NoDown && wantB.postOk
    requires s.mem.store.Some? && s.mem.store.value.disk == s.mem.store.value.data
    requires s.mem.store.value.HashAt(Key(wantA.providerID, a.nodeName)) == HashOf(a)
    requires !CacheHit(s.mem, Key(wantB.providerID, b.nodeName), HashOf(b))
    requires !plan(s.mem.store.value.writes).Renamed?
    ensures var s1 := Step(plan, s, wantB);
            var s2 := Step(plan, Restarted(s1.0), wantA);
            && s1.1.reason == Synced && s2.1.reason == NoChange
            && !Acked(s2.0.remote, wantA.providerID, a)
  {
    SingleStep(plan, s, wantB, b);
    SingleStep(plan, Restarted(Step(plan, s, wantB).0), wantA, a);
  }

  /** Such a state is reached: from a fresh start, send `a`, then `b` with a persist that fails, and restart. */
  lemma StaleFileIsReached(plan: Plan, s: State, wantB: Input, wantA: Input, a: NodeConfig, b: NodeConfig)
    requires Fresh(s) && s.mem.store.Some?
    requires plan(s.mem.store.value.writes).Renamed? && !plan(s.mem.store.value.writes + 1).Renamed?
    requires a.nodeName == b.nodeName && a != b && Normalize(a) == a && Normalize(b) == b
    requires wantA.providerID == wantB.providerID
    requires wantA.nodes == [a] && wantA.downHash == NoDown && wantA.postOk
    requires wantB.nodes == [b] && wantB.downHash == NoDown && wantB.postOk
    ensures var end := RunOf(plan, s, [Reconcile(wantA), Reconcile(wantB), Restart]);
            && Step(plan, end, wantA).1.reason == NoChange
            && !Acked(Step(plan, end, wantA).0.remote, wantA.providerID, a)
  {
    var s1 := Step(plan, s, wantA).0;
    SingleStep(plan, s, wantA, a);
    StaleFileSkipsSend(plan, s1, wantB, wantA, a, b);
    ThreeEvents(plan, s, Reconcile(wantA), Reconcile(wantB), Restart);
  }

  lemma RunSnoc(plan: Plan, s: State, es: seq<Event>, e: Event)
    ensures RunOf(plan, s, es + [e]) == After(plan, RunOf(plan, s, es), e)
  {
    assert (es + [e])[..|es|] == es;
  }

  lemma ThreeEvents(plan: Plan, s: State, x: Event, y: Event, z: Event)
    ensures RunOf(plan, s, [x, y, z]) == After(plan, After(plan, After(plan, s, x), y), z)
  {
    RunSnoc(plan, s, [], x);
    RunSnoc(plan, s, [x], y);
    RunSnoc(plan, s, [x, y], z);
    assert [] + [x] == [x] && [x] + [y] == [x, y] && [x, y] + [z] == [x, y, z];
  }
}
