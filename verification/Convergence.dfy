/** When a reconcile reports success the wanted configs are in place, the two-level memory sends
    exactly what the simple rule would send, and a second reconcile is quiet. */
module Convergence {
  import opened Wrappers
  import opened Viola
  import opened Inventory
  import opened Normalization
  import opened Schedule
  import opened Reconciler
  import opened Coherence
  import opened Runs
  import Seqs

  ghost predicate DistinctNames(nodes: seq<NodeConfig>) {
    forall i, j :: 0 <= i < j < |nodes| ==> nodes[i].nodeName != nodes[j].nodeName
  }

  /** The last acknowledged POST of every wanted node is its normalized config. */
  ghost predicate InPlace(remote: Remote, p: string, nodes: seq<NodeConfig>) {
    forall i :: 0 <= i < |nodes| ==> Acked(remote, p, Normalize(nodes[i]))
  }

  /** Everything in the payload is the normalized form of a wanted node. */
  ghost predicate FromNodes(payload: seq<NodeConfig>, nodes: seq<NodeConfig>) {
    forall x :: x in payload ==> exists i :: 0 <= i < |nodes| && x == Normalize(nodes[i])
  }

  const NORMALIZE: NodeConfig -> NodeConfig := node => Normalize(node)

  // ---------- What is sent ----------

  lemma {:induction false} FilterFromNodes(plan: Plan, mem: Memory, p: string, nodes: seq<NodeConfig>, now: int)
    ensures FromNodes(FilterChanged(plan, mem, p, nodes, now).send, nodes)
  {
    if nodes == [] {
    } else {
      var init := nodes[..|nodes| - 1];
      FilterFromNodes(plan, mem, p, init, now);
      var send := FilterChanged(plan, mem, p, nodes, now).send;
      forall x | x in send ensures exists i :: 0 <= i < |nodes| && x == Normalize(nodes[i]) {
        if x in FilterChanged(plan, mem, p, init, now).send {
          var i :| 0 <= i < |init| && x == Normalize(init[i]);
          assert x == Normalize(nodes[i]);
        } else {
          assert x == Normalize(nodes[|nodes| - 1]);
        }
      }
    }
  }

  lemma {:induction false} MergedFromNodes(send: seq<NodeConfig>, hashes: map<string, Hash>, extras: seq<NodeConfig>,
                                           nodes: seq<NodeConfig>)
    requires FromNodes(send, nodes) && forall x :: x in extras ==> x in nodes
    ensures FromNodes(Merged(send, hashes, extras).0, nodes)
  {
    if extras == [] {
    } else {
      var init, last := extras[..|extras| - 1], extras[|extras| - 1];
      MergedFromNodes(send, hashes, init, nodes);
      assert last in extras;
      var k :| 0 <= k < |nodes| && nodes[k] == last;
      assert Normalize(last) == Normalize(nodes[k]);
    }
  }

  /** Merging keeps the payload's order and covers the name of every extra node. */
  lemma {:induction false} MergedCovers(send: seq<NodeConfig>, hashes: map<string, Hash>, extras: seq<NodeConfig>)
    ensures send <= Merged(send, hashes, extras).0
    ensures Names(extras) <= Names(Merged(send, hashes, extras).0)
  {
    if extras == [] {
    } else {
      MergedCovers(send, hashes, extras[..|extras| - 1]);
      NamesInit(extras);
      NamesSnoc(Merged(send, hashes, extras[..|extras| - 1]).0, Normalize(extras[|extras| - 1]));
    }
  }

  lemma PayloadFromNodes(plan: Plan, s: State, input: Input)
    ensures var f := Changed(plan, s, input); var payload := PayloadFor(f, input).0;
            FromNodes(payload, input.nodes) && f.send <= payload
  {
    var f := Changed(plan, s, input);
    FilterFromNodes(plan, s.mem, input.providerID, input.nodes, input.now);
    MergedFromNodes(f.send, f.hashes, Seqs.Filter(Named(input.downNodes), input.nodes), input.nodes);
    MergedCovers(f.send, f.hashes, Seqs.Filter(Named(input.downNodes), input.nodes));
  }

  /** A node that is not sent was already in place. */
  lemma {:induction false} FilterSkipsAcked(plan: Plan, mem: Memory, remote: Remote, p: string, nodes: seq<NodeConfig>,
                                            now: int, i: nat)
    requires Coherent(mem, remote) && i < |nodes|
    ensures Normalize(nodes[i]) in FilterChanged(plan, mem, p, nodes, now).send || Acked(remote, p, Normalize(nodes[i]))
  {
    var init := nodes[..|nodes| - 1];
    if i < |init| {
      FilterSkipsAcked(plan, mem, remote, p, init, now, i);
    } else {
      var f := FilterChanged(plan, mem, p, init, now);
      FilterKeepsCoherent(plan, mem, remote, p, init, now);
      if Known(f.mem, p, Normalize(nodes[i])) {
        KnownMeansAcked(f.mem, remote, p, Normalize(nodes[i]));
      }
    }
  }

  // ---------- Exactly what is sent ----------

  /** Under this name nothing is in the list yet. */
  function NotNamedIn(names: set<string>): NodeConfig -> bool {
    (norm: NodeConfig) => norm.nodeName !in names
  }

  /** The missing ones among the extra nodes, normalized and in order. */
  function Missing(send: seq<NodeConfig>, extras: seq<NodeConfig>): seq<NodeConfig> {
    Seqs.Filter(NotNamedIn(Names(send)), Seqs.Map(NORMALIZE, extras))
  }

  lemma MissingSnoc(send: seq<NodeConfig>, extras: seq<NodeConfig>, i: nat)
    requires i < |extras|
    ensures var norm := Normalize(extras[i]);
            Missing(send, extras[..i + 1]) ==
            if norm.nodeName in Names(send) then Missing(send, extras[..i]) else Missing(send, extras[..i]) + [norm]
  {
    var norms := Seqs.Map(NORMALIZE, extras[..i]);
    Seqs.MapSnoc(NORMALIZE, extras, i);
    assert (norms + [NORMALIZE(extras[i])])[..i] == norms;
  }

  lemma MergedSnoc(send: seq<NodeConfig>, hashes: map<string, Hash>, extras: seq<NodeConfig>, i: nat)
    requires i < |extras|
    ensures var s, norm := Merged(send, hashes, extras[..i]).0, Normalize(extras[i]);
            Merged(send, hashes, extras[..i + 1]).0 == if norm.nodeName in Names(s) then s else s + [norm]
  {
    assert extras[..i + 1][..i] == extras[..i];
  }

  lemma {:induction false} MergedNames(send: seq<NodeConfig>, hashes: map<string, Hash>, extras: seq<NodeConfig>)
    ensures Names(Merged(send, hashes, extras).0) == Names(send) + Names(extras)
  {
    if extras == [] {
    } else {
      var i := |extras| - 1;
      MergedNames(send, hashes, extras[..i]);
      NamesInit(extras);
      NamesSnoc(Merged(send, hashes, extras[..i]).0, Normalize(extras[i]));
      MergedSnoc(send, hashes, extras, i);
      assert extras[..i + 1] == extras;
    }
  }

  /** Merging appends the extra nodes whose names are missing, normalized and in order. */
  lemma {:induction false} MergedExactly(send: seq<NodeConfig>, hashes: map<string, Hash>, extras: seq<NodeConfig>)
    requires DistinctNames(extras)
    ensures Merged(send, hashes, extras).0 == send + Missing(send, extras)
  {
    if extras == [] {
    } else {
      var i := |extras| - 1;
      MergedExactly(send, hashes, extras[..i]);
      MergedNames(send, hashes, extras[..i]);
      LastNameIsNew(extras);
      MergedSnoc(send, hashes, extras, i);
      MissingSnoc(send, extras, i);
      assert extras[..i + 1] == extras;
    }
  }

  lemma LastNameIsNew(nodes: seq<NodeConfig>)
    requires nodes != [] && DistinctNames(nodes)
    ensures nodes[|nodes| - 1].nodeName !in Names(nodes[..|nodes| - 1])
  {
  }

  /** The nodes with DOWN ports that the changed list does not name. */
  function DownAndUnsent(downNodes: set<string>, send: seq<NodeConfig>): NodeConfig -> bool {
    (norm: NodeConfig) => norm.nodeName in downNodes && norm.nodeName !in Names(send)
  }

  lemma FilteredNames(ok: NodeConfig -> bool, nodes: seq<NodeConfig>)
    requires DistinctNames(nodes)
    ensures DistinctNames(Seqs.Filter(ok, nodes))
  {
    var rel := (a: NodeConfig, b: NodeConfig) => a.nodeName != b.nodeName;
    Seqs.FilterKeepsPairs(ok, nodes, rel);
    var r := Seqs.Filter(ok, nodes);
    forall i, j | 0 <= i < j < |r| ensures r[i].nodeName != r[j].nodeName {
      assert rel(r[i], r[j]);
    }
  }

  /** Whether the nodes with DOWN ports are sent along. */
  predicate SendsDown(plan: Plan, s: State, input: Input) {
    && input.downHash != NoDown
    && (ShouldRetry(input.status, input.downHash, input.now, input.polls).0 || Changed(plan, s, input).send != [])
  }

  /** Nothing is sent but changed nodes and nodes with DOWN ports; and of wanted nodes with distinct names, exactly
      the changed ones and then, when a DOWN retry is due or something is sent anyway, the remaining nodes with DOWN
      ports, normalized and in order. */
  lemma PayloadExactly(plan: Plan, s: State, input: Input)
    ensures var send, payload := Changed(plan, s, input).send, Step(plan, s, input).1.payload;
            && (forall n :: n in payload ==> n in send || (SendsDown(plan, s, input) && n.nodeName in input.downNodes))
            && (DistinctNames(input.nodes) ==>
                  payload ==
                  send + if SendsDown(plan, s, input)
                         then Seqs.Filter(DownAndUnsent(input.downNodes, send), Seqs.Map(NORMALIZE, input.nodes))
                         else [])
  {
    if SendsDown(plan, s, input) {
      var f := Changed(plan, s, input);
      var extras := Seqs.Filter(Named(input.downNodes), input.nodes);
      MergedMembers(f.send, f.hashes, extras, input.downNodes);
      if DistinctNames(input.nodes) {
        FilteredNames(Named(input.downNodes), input.nodes);
        MergedExactly(f.send, f.hashes, extras);
        DownExtrasExactly(f.send, input.nodes, input.downNodes);
      }
    }
  }

  lemma {:induction false} MergedMembers(send: seq<NodeConfig>, hashes: map<string, Hash>, extras: seq<NodeConfig>,
                                         downNodes: set<string>)
    requires forall n :: n in extras ==> n.nodeName in downNodes
    ensures forall n :: n in Merged(send, hashes, extras).0 ==> n in send || n.nodeName in downNodes
  {
    if extras == [] {
    } else {
      MergedMembers(send, hashes, extras[..|extras| - 1], downNodes);
      assert extras[|extras| - 1] in extras;
    }
  }

  lemma DownExtrasExactly(send: seq<NodeConfig>, nodes: seq<NodeConfig>, downNodes: set<string>)
    ensures Missing(send, Seqs.Filter(Named(downNodes), nodes))
            == Seqs.Filter(DownAndUnsent(downNodes, send), Seqs.Map(NORMALIZE, nodes))
  {
    var norms := Seqs.Map(NORMALIZE, nodes);
    Seqs.FilterOfMap(Named(downNodes), Named(downNodes), NORMALIZE, nodes);
    Seqs.FilterBoth(NotNamedIn(Names(send)), Named(downNodes), DownAndUnsent(downNodes, send), norms);
  }

  /** How a reconcile ends. Nothing to send is NoChange. Otherwise the POST decides: when it fails nothing is
      acknowledged and no change is recorded; when it succeeds exactly the payload is acknowledged, the last of
      equally named configs standing, and the change is recorded at the time of the POST. */
  lemma OutcomeMeaning(plan: Plan, s: State, input: Input, p: string, name: string)
    ensures var (s', report) := Step(plan, s, input);
            && (report.reason == NoChange <==> report.payload == [])
            && (report.reason == Synced <==> report.payload != [] && input.postOk)
            && (report.reason != Synced ==> s'.remote == s.remote && s'.lastChange == s.lastChange)
            && (report.reason == Synced ==>
                  && s'.lastChange == s.lastChange[input.stateKey := input.sendTime]
                  && if p == input.providerID && name in Names(report.payload)
                     then (p, name) in s'.remote && s'.remote[(p, name)] == LastNamed(report.payload, name)
                     else ((p, name) in s'.remote <==> (p, name) in s.remote)
                          && ((p, name) in s.remote ==> s'.remote[(p, name)] == s.remote[(p, name)]))
  {
    AcknowledgedAt(s.remote, input.providerID, Step(plan, s, input).1.payload, (p, name));
  }

  // ---------- Convergence ----------

  /** Among nodes with distinct names, the last config sent under a name is that node's own. */
  lemma LastIsOwn(payload: seq<NodeConfig>, nodes: seq<NodeConfig>, i: nat)
    requires FromNodes(payload, nodes) && DistinctNames(nodes) && i < |nodes|
    requires nodes[i].nodeName in Names(payload)
    ensures LastNamed(payload, nodes[i].nodeName) == Normalize(nodes[i])
  {
    LastNamedIsThere(payload, nodes[i].nodeName);
    var j :| 0 <= j < |nodes| && LastNamed(payload, nodes[i].nodeName) == Normalize(nodes[j]);
    assert nodes[j].nodeName == nodes[i].nodeName;
    assert i == j;
  }

  lemma InNames(payload: seq<NodeConfig>, x: NodeConfig)
    requires x in payload
    ensures x.nodeName in Names(payload)
  {
  }

  lemma StepPutsInPlace(plan: Plan, s: State, input: Input, i: nat)
    requires Coherent(s.mem, s.remote) && DistinctNames(input.nodes) && i < |input.nodes|
    requires Step(plan, s, input).1.reason != ViolaPostError
    ensures Acked(Step(plan, s, input).0.remote, input.providerID, Normalize(input.nodes[i]))
  {
    var p, node := input.providerID, input.nodes[i];
    var f := Changed(plan, s, input);
    var payload := PayloadFor(f, input).0;
    PayloadFromNodes(plan, s, input);
    FilterSkipsAcked(plan, s.mem, s.remote, p, input.nodes, input.now, i);
    AcknowledgedAt(s.remote, p, payload, (p, node.nodeName));
    if Normalize(node) in f.send {
      InNames(payload, Normalize(node));
    }
    if node.nodeName in Names(payload) {
      LastIsOwn(payload, input.nodes, i);
    }
  }

  lemma InPlaceMeansDistinct(remote: Remote, p: string, nodes: seq<NodeConfig>)
    requires InPlace(remote, p, nodes) && DistinctInstances(nodes)
    ensures DistinctNames(nodes)
  {
  }

  /** Whenever a reconcile ends in NoChange or Synced, every wanted node has its normalized config as
      its last acknowledged POST, exactly when the wanted nodes have distinct names. */
  lemma Converges(plan: Plan, s: State, input: Input)
    requires Coherent(s.mem, s.remote) && DistinctInstances(input.nodes)
    requires Step(plan, s, input).1.reason != ViolaPostError
    ensures InPlace(Step(plan, s, input).0.remote, input.providerID, input.nodes) <==> DistinctNames(input.nodes)
  {
    var remote := Step(plan, s, input).0.remote;
    if DistinctNames(input.nodes) {
      forall i | 0 <= i < |input.nodes| ensures Acked(remote, input.providerID, Normalize(input.nodes[i])) {
        StepPutsInPlace(plan, s, input, i);
      }
    }
    if InPlace(remote, input.providerID, input.nodes) {
      InPlaceMeansDistinct(remote, input.providerID, input.nodes);
    }
  }

  /** Two VMs with one node name: no reconcile ever reports NoChange, so the operator re-sends for ever. */
  lemma SharedNameNeverQuiet(plan: Plan, s: State, input: Input)
    requires Coherent(s.mem, s.remote) && DistinctInstances(input.nodes) && !DistinctNames(input.nodes)
    ensures Changed(plan, s, input).send != [] && Step(plan, s, input).1.reason != NoChange
  {
    var f := Changed(plan, s, input);
    PayloadFromNodes(plan, s, input);
    if f.send == [] {
      forall i | 0 <= i < |input.nodes| ensures Acked(s.remote, input.providerID, Normalize(input.nodes[i])) {
        FilterSkipsAcked(plan, s.mem, s.remote, input.providerID, input.nodes, input.now, i);
      }
      InPlaceMeansDistinct(s.remote, input.providerID, input.nodes);
      assert false;
    }
  }

  // ---------- The simple rule ----------

  function Unacked(remote: Remote, p: string): NodeConfig -> bool {
    norm => !Acked(remote, p, norm)
  }

  /** The simple rule: send the normalized configs that differ from the last acknowledged ones. */
  function Differing(remote: Remote, p: string, nodes: seq<NodeConfig>): seq<NodeConfig> {
    Seqs.Filter(Unacked(remote, p), Seqs.Map(NORMALIZE, nodes))
  }

  /** The inventory knows everything the provider's nodes acknowledged. */
  ghost predicate Complete(mem: Memory, remote: Remote, p: string) {
    && mem.store.Some?
    && forall n :: (p, n) in remote ==> mem.store.value.HashAt(Key(p, n)) == HashOf(remote[(p, n)])
  }

  lemma ComparedKeepsComplete(plan: Plan, mem: Memory, remote: Remote, p: string, norm: NodeConfig, now: int, q: string)
    requires Coherent(mem, remote) && Complete(mem, remote, q)
    ensures p == q || !Collide(p, q) ==> Complete(Compared(plan, mem, p, norm, now), remote, q)
  {
    if Known(mem, p, norm) {
      KnownMeansAcked(mem, remote, p, norm);
    }
    if p == q || !Collide(p, q) {
      var mem' := Compared(plan, mem, p, norm, now);
      forall n | (q, n) in remote ensures mem'.store.value.HashAt(Key(q, n)) == HashOf(remote[(q, n)]) {
        if Key(q, n) == Key(p, norm.nodeName) {
          SameOwner(p, norm.nodeName, q, n);
        }
      }
    }
  }

  lemma {:induction false} FilterKeepsComplete(plan: Plan, mem: Memory, remote: Remote, p: string,
                                               nodes: seq<NodeConfig>, now: int, q: string)
    requires Coherent(mem, remote) && Complete(mem, remote, q) && (p == q || !Collide(p, q))
    ensures Complete(FilterChanged(plan, mem, p, nodes, now).mem, remote, q)
  {
    if nodes == [] {
    } else {
      var init := nodes[..|nodes| - 1];
      FilterKeepsComplete(plan, mem, remote, p, init, now, q);
      FilterKeepsCoherent(plan, mem, remote, p, init, now);
      ComparedKeepsComplete(plan, FilterChanged(plan, mem, p, init, now).mem, remote, p,
                            Normalize(nodes[|nodes| - 1]), now, q);
    }
  }

  lemma KnownIffAcked(mem: Memory, remote: Remote, p: string, norm: NodeConfig)
    requires Coherent(mem, remote) && Complete(mem, remote, p)
    ensures Known(mem, p, norm) <==> Acked(remote, p, norm)
  {
    if Known(mem, p, norm) {
      KnownMeansAcked(mem, remote, p, norm);
    }
  }

  /** Refinement: cache and inventory together send exactly what the simple rule sends, in order. */
  lemma {:induction false} FilterIsSimpleRule(plan: Plan, mem: Memory, remote: Remote, p: string,
                                              nodes: seq<NodeConfig>, now: int)
    requires Coherent(mem, remote) && Complete(mem, remote, p)
    ensures FilterChanged(plan, mem, p, nodes, now).send == Differing(remote, p, nodes)
  {
    if nodes == [] {
    } else {
      var init, norm := nodes[..|nodes| - 1], Normalize(nodes[|nodes| - 1]);
      FilterIsSimpleRule(plan, mem, remote, p, init, now);
      FilterKeepsCoherent(plan, mem, remote, p, init, now);
      FilterKeepsComplete(plan, mem, remote, p, init, now, p);
      KnownIffAcked(FilterChanged(plan, mem, p, init, now).mem, remote, p, norm);
      assert Seqs.Map(NORMALIZE, nodes)[..|nodes| - 1] == Seqs.Map(NORMALIZE, init);
    }
  }

  lemma StoreSentComplete(plan: Plan, store: StoreState, remote: Remote, p: string, hashes: map<string, Hash>,
                          sent: seq<NodeConfig>, at: int, q: string, cache: Cache)
    requires Complete(Memory(cache, Some(store)), remote, q) && HashesMatch(sent, hashes) && (p == q || !Collide(p, q))
    ensures Complete(Memory(cache, Some(StoreSent(plan, store, p, hashes, sent, at))), Acknowledged(remote, p, sent), q)
  {
    var remote' := Acknowledged(remote, p, sent);
    var store' := StoreSent(plan, store, p, hashes, sent, at);
    forall n | (q, n) in remote' ensures store'.HashAt(Key(q, n)) == HashOf(remote'[(q, n)]) {
      AcknowledgedAt(remote, p, sent, (q, n));
      if name :| name in Names(sent) && Key(q, n) == Key(p, name) {
        SameOwner(p, name, q, n);
        StoreSentAt(plan, store, p, hashes, sent, at, n);
      } else {
        StoreSentElsewhere(plan, store, p, hashes, sent, at, Key(q, n));
      }
    }
  }

  lemma CompleteIgnoresCache(mem: Memory, cache: Cache, remote: Remote, q: string)
    requires Complete(mem, remote, q)
    ensures Complete(Memory(cache, mem.store), remote, q)
  {
  }

  lemma StepKeepsComplete(plan: Plan, s: State, input: Input, q: string)
    requires Coherent(s.mem, s.remote) && Complete(s.mem, s.remote, q)
    requires input.providerID == q || !Collide(input.providerID, q)
    ensures var s' := Step(plan, s, input).0; Complete(s'.mem, s'.remote, q)
  {
    var f := Changed(plan, s, input);
    var (payload, hashes) := PayloadFor(f, input);
    FilterKeepsComplete(plan, s.mem, s.remote, input.providerID, input.nodes, input.now, q);
    if payload != [] && input.postOk {
      PayloadHashesMatch(plan, s, input);
      var s' := Step(plan, s, input).0;
      CompleteIgnoresCache(f.mem, s'.mem.cache, s.remote, q);
      StoreSentComplete(plan, f.mem.store.value, s.remote, input.providerID, hashes, payload, input.sendTime, q,
                        s'.mem.cache);
    }
  }

  /** Every reconcile of the run is for `q` or for a provider whose keys never meet those of `q`. */
  ghost predicate KeepsApart(es: seq<Event>, q: string) {
    forall i :: 0 <= i < |es| && es[i].Reconcile? ==> es[i].input.providerID == q || !Collide(es[i].input.providerID, q)
  }

  lemma {:induction false} RunKeepsComplete(plan: Plan, s: State, es: seq<Event>, q: string)
    requires Inv(plan, s) && Complete(s.mem, s.remote, q)
    requires SettledRestarts(plan, s, es) && KeepsApart(es, q)
    ensures Complete(RunOf(plan, s, es).mem, RunOf(plan, s, es).remote, q)
  {
    if es == [] {
    } else {
      var init, last := es[..|es| - 1], es[|es| - 1];
      assert forall i {:trigger init[i]} :: 0 <= i < |init| ==> es[i] == init[i] && es[..i] == init[..i];
      RunKeepsComplete(plan, s, init, q);
      RunKeepsInv(plan, s, init);
      match last
      case Reconcile(input) =>
        assert es[|es| - 1].Reconcile?;
        StepKeepsComplete(plan, RunOf(plan, s, init), input, q);
      case Restart =>
        assert es[|es| - 1].Restart?;
    }
  }

  /** From a fresh start with the inventory enabled, after any run with settled restarts, the operator
      sends exactly the wanted configs that differ from what was last acknowledged, each with its own
      hash when names are distinct. */
  lemma CacheRefinesSimpleRule(plan: Plan, s: State, es: seq<Event>, p: string, nodes: seq<NodeConfig>, now: int)
    requires Fresh(s) && s.mem.store.Some?
    requires SettledRestarts(plan, s, es) && KeepsApart(es, p)
    ensures var end := RunOf(plan, s, es);
            var f := FilterChanged(plan, end.mem, p, nodes, now);
            f.send == Differing(end.remote, p, nodes) && HashesMatch(f.send, f.hashes)
  {
    var end := RunOf(plan, s, es);
    FreshInv(plan, s);
    RunKeepsInv(plan, s, es);
    RunKeepsComplete(plan, s, es, p);
    FilterIsSimpleRule(plan, end.mem, end.remote, p, nodes, now);
    FilterHashesMatch(plan, end.mem, p, nodes, now);
  }

  // ---------- The exact rule, for any providers ----------

  /** Whatever the cache holds, the inventory holds too. */
  ghost predicate Aligned(mem: Memory) {
    mem.store.Some? ==>
      forall k :: k in mem.cache ==>
        k in mem.store.value.data && mem.store.value.data[k].config == mem.cache[k].node
  }

  /** The inventory record under the node's key is about that very node. */
  predicate HoldsNode(mem: Memory, p: string, nodeName: string) {
    && mem.store.Some? && Key(p, nodeName) in mem.store.value.data
    && mem.store.value.data[Key(p, nodeName)].config.nodeName == nodeName
  }

  ghost predicate SameConfigs(mem: Memory, mem': Memory) {
    && mem.store.Some? && mem'.store.Some? && mem.store.value.data.Keys == mem'.store.value.data.Keys
    && forall k :: k in mem.store.value.data ==>
         mem.store.value.data[k].config == mem'.store.value.data[k].config
  }

  lemma ComparedKeepsAligned(plan: Plan, mem: Memory, remote: Remote, p: string, norm: NodeConfig, now: int)
    requires Coherent(mem, remote) && Aligned(mem)
    ensures Aligned(Compared(plan, mem, p, norm, now))
    ensures mem.store.Some? ==> SameConfigs(mem, Compared(plan, mem, p, norm, now))
  {
    if Known(mem, p, norm) {
      KnownMeansAcked(mem, remote, p, norm);
      var k := Key(p, norm.nodeName);
      if StoreHit(mem, k, HashOf(norm)) {
        TrueHashMeansAcked(p, norm, mem.store.value.data[k].config, remote);
      }
    }
  }

  lemma {:induction false} FilterKeepsAligned(plan: Plan, mem: Memory, remote: Remote, p: string,
                                              nodes: seq<NodeConfig>, now: int)
    requires Coherent(mem, remote) && Aligned(mem)
    ensures Aligned(FilterChanged(plan, mem, p, nodes, now).mem)
    ensures mem.store.Some? ==> SameConfigs(mem, FilterChanged(plan, mem, p, nodes, now).mem)
  {
    if nodes == [] {
    } else {
      var init := nodes[..|nodes| - 1];
      FilterKeepsAligned(plan, mem, remote, p, init, now);
      FilterKeepsCoherent(plan, mem, remote, p, init, now);
      ComparedKeepsAligned(plan, FilterChanged(plan, mem, p, init, now).mem, remote, p,
                           Normalize(nodes[|nodes| - 1]), now);
    }
  }

  lemma RememberedAligned(plan: Plan, mem: Memory, p: string, hashes: map<string, Hash>, sent: seq<NodeConfig>,
                          at: int)
    requires Aligned(mem) && HashesMatch(sent, hashes)
    ensures Aligned(Remembered(plan, mem, p, hashes, sent, at))
  {
    if mem.store.Some? {
      var cache := CacheSent(mem.cache, p, hashes, sent);
      var data := StoreSent(plan, mem.store.value, p, hashes, sent, at).data;
      forall k | k in cache ensures k in data && data[k].config == cache[k].node {
        if name :| name in Names(sent) && k == Key(p, name) {
          CacheSentAt(mem.cache, p, hashes, sent, name);
          StoreSentAt(plan, mem.store.value, p, hashes, sent, at, name);
        } else {
          CacheSentElsewhere(mem.cache, p, hashes, sent, k);
          StoreSentElsewhere(plan, mem.store.value, p, hashes, sent, at, k);
        }
      }
    }
  }

  lemma StepKeepsAligned(plan: Plan, s: State, input: Input)
    requires Coherent(s.mem, s.remote) && Aligned(s.mem)
    ensures Aligned(Step(plan, s, input).0.mem)
  {
    var f := Changed(plan, s, input);
    var (payload, hashes) := PayloadFor(f, input);
    FilterKeepsAligned(plan, s.mem, s.remote, input.providerID, input.nodes, input.now);
    PayloadHashesMatch(plan, s, input);
    RememberedAligned(plan, f.mem, input.providerID, hashes, payload, input.sendTime);
  }

  lemma {:induction false} RunKeepsAligned(plan: Plan, s: State, es: seq<Event>)
    requires Inv(plan, s) && Aligned(s.mem) && SettledRestarts(plan, s, es)
    ensures Aligned(RunOf(plan, s, es).mem)
  {
    if es == [] {
    } else {
      var init, last := es[..|es| - 1], es[|es| - 1];
      assert forall i {:trigger init[i]} :: 0 <= i < |init| ==> es[i] == init[i] && es[..i] == init[..i];
      RunKeepsAligned(plan, s, init);
      RunKeepsInv(plan, s, init);
      match last
      case Reconcile(input) => StepKeepsAligned(plan, RunOf(plan, s, init), input);
      case Restart =>
    }
  }

  /** A config is known exactly when it is acknowledged and the inventory record under its key is about its own
      node. */
  lemma KnownExactly(mem: Memory, remote: Remote, p: string, norm: NodeConfig)
    requires Coherent(mem, remote) && Aligned(mem) && mem.store.Some?
    ensures Known(mem, p, norm) <==> Acked(remote, p, norm) && HoldsNode(mem, p, norm.nodeName)
  {
    var k, data := Key(p, norm.nodeName), mem.store.value.data;
    KeyProvider(p, norm.nodeName);
    if Known(mem, p, norm) {
      KnownMeansAcked(mem, remote, p, norm);
      if StoreHit(mem, k, HashOf(norm)) {
        TrueHashMeansAcked(p, norm, data[k].config, remote);
      }
    }
    if Acked(remote, p, norm) && HoldsNode(mem, p, norm.nodeName) {
      assert EntryTrue(k, data[k].lastConfigHash, data[k].config, remote);
    }
  }

  function NotHeld(mem: Memory, remote: Remote, p: string): NodeConfig -> bool {
    norm => !(Acked(remote, p, norm) && HoldsNode(mem, p, norm.nodeName))
  }

  lemma {:induction false} FilterExactly(plan: Plan, mem: Memory, remote: Remote, p: string, nodes: seq<NodeConfig>,
                                         now: int)
    requires Coherent(mem, remote) && Aligned(mem) && mem.store.Some?
    ensures FilterChanged(plan, mem, p, nodes, now).send ==
            Seqs.Filter(NotHeld(mem, remote, p), Seqs.Map(NORMALIZE, nodes))
  {
    if nodes == [] {
    } else {
      var init, norm := nodes[..|nodes| - 1], Normalize(nodes[|nodes| - 1]);
      FilterExactly(plan, mem, remote, p, init, now);
      FilterKeepsCoherent(plan, mem, remote, p, init, now);
      FilterKeepsAligned(plan, mem, remote, p, init, now);
      KnownExactly(FilterChanged(plan, mem, p, init, now).mem, remote, p, norm);
      assert Seqs.Map(NORMALIZE, nodes)[..|nodes| - 1] == Seqs.Map(NORMALIZE, init);
    }
  }

  /** Every wanted config that is acknowledged has a record of its own. */
  ghost predicate AckedAreHeld(mem: Memory, remote: Remote, p: string, nodes: seq<NodeConfig>) {
    forall i :: 0 <= i < |nodes| && Acked(remote, p, Normalize(nodes[i])) ==> HoldsNode(mem, p, nodes[i].nodeName)
  }

  lemma SimpleRuleIff(mem: Memory, remote: Remote, p: string, nodes: seq<NodeConfig>)
    ensures Seqs.Filter(NotHeld(mem, remote, p), Seqs.Map(NORMALIZE, nodes)) == Differing(remote, p, nodes)
            <==> AckedAreHeld(mem, remote, p, nodes)
  {
    var norms := Seqs.Map(NORMALIZE, nodes);
    if AckedAreHeld(mem, remote, p, nodes) {
      Seqs.FilterAgree(NotHeld(mem, remote, p), Unacked(remote, p), norms);
    } else {
      var i :| 0 <= i < |nodes| && Acked(remote, p, Normalize(nodes[i])) && !HoldsNode(mem, p, nodes[i].nodeName);
      Seqs.FilterMember(NotHeld(mem, remote, p), norms, norms[i]);
      Seqs.FilterMember(Unacked(remote, p), norms, norms[i]);
    }
  }

  /** In every state reached from a fresh start with the inventory enabled, whatever the providers: sent are exactly
      the wanted configs that are not acknowledged or whose key another node's record has taken; and this is the
      simple rule exactly when no acknowledged config has lost its record. */
  lemma SentExactly(plan: Plan, s: State, es: seq<Event>, p: string, nodes: seq<NodeConfig>, now: int)
    requires Fresh(s) && RunOf(plan, s, es).mem.store.Some? && SettledRestarts(plan, s, es)
    ensures var end := RunOf(plan, s, es);
            var send := FilterChanged(plan, end.mem, p, nodes, now).send;
            && send == Seqs.Filter(NotHeld(end.mem, end.remote, p), Seqs.Map(NORMALIZE, nodes))
            && (send == Differing(end.remote, p, nodes) <==> AckedAreHeld(end.mem, end.remote, p, nodes))
  {
    var end := RunOf(plan, s, es);
    FreshInv(plan, s);
    RunKeepsInv(plan, s, es);
    RunKeepsAligned(plan, s, es);
    FilterExactly(plan, end.mem, end.remote, p, nodes, now);
    SimpleRuleIff(end.mem, end.remote, p, nodes);
  }

  // ---------- Failed POSTs and collisions ----------

  /** A failed POST is forgotten by nobody: it acknowledges nothing and records no change, and with the
      inventory enabled the next reconcile of the same nodes finds exactly the same nodes to send. */
  lemma FailedPostIsRepeated(plan: Plan, s: State, input: Input, next: Input)
    requires Coherent(s.mem, s.remote) && Complete(s.mem, s.remote, input.providerID)
    requires Step(plan, s, input).1.reason == ViolaPostError
    requires next.providerID == input.providerID && next.nodes == input.nodes
    ensures var (s', report) := Step(plan, s, input);
            && s'.remote == s.remote && s'.lastChange == s.lastChange && report.requeue == input.polls.error
            && report.status == ClearedStatus(input)
            && Changed(plan, s', next).send == Changed(plan, s, input).send
  {
    var s' := Step(plan, s, input).0;
    StepKeepsCoherent(plan, s, input);
    StepKeepsComplete(plan, s, input, input.providerID);
    FilterIsSimpleRule(plan, s.mem, s.remote, input.providerID, input.nodes, input.now);
    FilterIsSimpleRule(plan, s'.mem, s'.remote, input.providerID, next.nodes, next.now);
  }

  /** Keys that meet break the rule: once two providers share a key, an acknowledged config can be
      unknown and is sent again. */
  lemma CollisionHidesAcked(plan: Plan, s: State, input: Input, p: string, node: NodeConfig)
    requires Coherent(s.mem, s.remote) && Acked(s.remote, p, node)
    requires input.nodes != [] && DistinctNames(input.nodes) && input.providerID != p
    requires Key(input.providerID, input.nodes[0].nodeName) == Key(p, node.nodeName)
    requires Step(plan, s, input).1.reason != ViolaPostError
    ensures var s' := Step(plan, s, input).0; Acked(s'.remote, p, node) && !Known(s'.mem, p, node)
  {
    var s' := Step(plan, s, input).0;
    AcknowledgedAt(s.remote, input.providerID, PayloadFor(Changed(plan, s, input), input).0, (p, node.nodeName));
    StepRemembers(plan, s, input, 0);
    assert input.nodes[0].nodeName != node.nodeName by {
      if input.nodes[0].nodeName == node.nodeName {
        KeyProvider(p, node.nodeName);
        KeyProvider(input.providerID, node.nodeName);
      }
    }
  }

  // ---------- Quiescence ----------

  /** Both levels of memory hold this config's hash. */
  predicate Remembers(mem: Memory, p: string, norm: NodeConfig) {
    var k := Key(p, norm.nodeName);
    CacheHit(mem, k, HashOf(norm)) && (mem.store.Some? ==> StoreHit(mem, k, HashOf(norm)))
  }

  lemma ComparedRemembers(plan: Plan, mem: Memory, remote: Remote, p: string, norm: NodeConfig, now: int)
    requires Coherent(mem, remote) && Known(mem, p, norm)
    ensures Remembers(Compared(plan, mem, p, norm, now), p, norm)
  {
  }

  lemma ComparedKeepsOthers(plan: Plan, mem: Memory, remote: Remote, p: string, norm: NodeConfig, now: int,
                            other: NodeConfig)
    requires Coherent(mem, remote) && norm.nodeName != other.nodeName && Remembers(mem, p, other)
    ensures Remembers(Compared(plan, mem, p, norm, now), p, other)
  {
  }

  lemma {:induction false} FilterRemembers(plan: Plan, mem: Memory, remote: Remote, p: string, nodes: seq<NodeConfig>,
                                           now: int, i: nat)
    requires Coherent(mem, remote) && DistinctNames(nodes) && i < |nodes|
    ensures var f := FilterChanged(plan, mem, p, nodes, now);
            Normalize(nodes[i]) in f.send || Remembers(f.mem, p, Normalize(nodes[i]))
  {
    var init, last := nodes[..|nodes| - 1], nodes[|nodes| - 1];
    var f := FilterChanged(plan, mem, p, init, now);
    FilterKeepsCoherent(plan, mem, remote, p, init, now);
    if i < |init| {
      FilterRemembers(plan, mem, remote, p, init, now, i);
      if Remembers(f.mem, p, Normalize(nodes[i])) {
        ComparedKeepsOthers(plan, f.mem, remote, p, Normalize(last), now, Normalize(nodes[i]));
      }
    } else if Known(f.mem, p, Normalize(last)) {
      ComparedRemembers(plan, f.mem, remote, p, Normalize(last), now);
    }
  }

  lemma SentRemembered(plan: Plan, mem: Memory, p: string, hashes: map<string, Hash>, sent: seq<NodeConfig>, at: int,
                       norm: NodeConfig)
    requires HashesMatch(sent, hashes)
    requires norm.nodeName in Names(sent) ==> LastNamed(sent, norm.nodeName) == norm
    requires norm.nodeName !in Names(sent) ==> Remembers(mem, p, norm)
    ensures Remembers(Remembered(plan, mem, p, hashes, sent, at), p, norm)
  {
    var k := Key(p, norm.nodeName);
    if norm.nodeName in Names(sent) {
      CacheSentAt(mem.cache, p, hashes, sent, norm.nodeName);
      if mem.store.Some? {
        StoreSentAt(plan, mem.store.value, p, hashes, sent, at, norm.nodeName);
      }
    } else {
      forall name | name in Names(sent) ensures k != Key(p, name) {
        if k == Key(p, name) {
          KeyInjectiveInNode(p, name, norm.nodeName);
        }
      }
      CacheSentElsewhere(mem.cache, p, hashes, sent, k);
      if mem.store.Some? {
        StoreSentElsewhere(plan, mem.store.value, p, hashes, sent, at, k);
      }
    }
  }

  /** After a successful reconcile of distinctly named nodes, every wanted config is remembered. */
  lemma StepRemembers(plan: Plan, s: State, input: Input, i: nat)
    requires Coherent(s.mem, s.remote) && DistinctNames(input.nodes) && i < |input.nodes|
    requires Step(plan, s, input).1.reason != ViolaPostError
    ensures Remembers(Step(plan, s, input).0.mem, input.providerID, Normalize(input.nodes[i]))
  {
    var norm := Normalize(input.nodes[i]);
    var f := Changed(plan, s, input);
    var (payload, hashes) := PayloadFor(f, input);
    PayloadFromNodes(plan, s, input);
    PayloadHashesMatch(plan, s, input);
    FilterRemembers(plan, s.mem, s.remote, input.providerID, input.nodes, input.now, i);
    if norm in f.send {
      InNames(payload, norm);
    }
    if norm.nodeName in Names(payload) {
      LastIsOwn(payload, input.nodes, i);
    }
    if payload != [] {
      SentRemembered(plan, f.mem, input.providerID, hashes, payload, input.sendTime, norm);
    }
  }

  lemma {:induction false} CachedSendsNothing(plan: Plan, mem: Memory, p: string, nodes: seq<NodeConfig>, now: int)
    requires forall i :: 0 <= i < |nodes| ==> CacheHit(mem, Key(p, nodes[i].nodeName), HashOf(Normalize(nodes[i])))
    ensures FilterChanged(plan, mem, p, nodes, now).send == []
    ensures FilterChanged(plan, mem, p, nodes, now).mem.cache == mem.cache
  {
    if nodes == [] {
    } else {
      CachedSendsNothing(plan, mem, p, nodes[..|nodes| - 1], now);
    }
  }

  lemma {:induction false} StoredSendsNothing(plan: Plan, mem: Memory, p: string, nodes: seq<NodeConfig>, now: int)
    requires forall i :: 0 <= i < |nodes| ==> StoreHit(mem, Key(p, nodes[i].nodeName), HashOf(Normalize(nodes[i])))
    ensures FilterChanged(plan, mem, p, nodes, now).send == []
    ensures FilterChanged(plan, mem, p, nodes, now).mem.store == mem.store
  {
    if nodes == [] {
    } else {
      StoredSendsNothing(plan, mem, p, nodes[..|nodes| - 1], now);
    }
  }

  /** A second reconcile of the same nodes changes nothing, in the same process or, with the inventory
      enabled, after a restart from a settled file. Distinct names are what it takes: see
      `SharedNameNeverQuiet`. */
  lemma SecondReconcileIsQuiet(plan: Plan, s: State, first: Input, second: Input)
    requires Inv(plan, s) && DistinctNames(first.nodes)
    requires Step(plan, s, first).1.reason != ViolaPostError
    requires second.providerID == first.providerID && second.nodes == first.nodes
    ensures var s' := Step(plan, s, first).0;
            && Changed(plan, s', second).send == []
            && (s'.mem.store.Some? && Settled(plan, s'.mem) ==> Changed(plan, Restarted(s'), second).send == [])
    ensures second.downHash == NoDown ==>
              var s' := Step(plan, s, first).0;
              && Step(plan, s', second).1.reason == NoChange
              && (s'.mem.store.Some? && Settled(plan, s'.mem) ==>
                    Step(plan, Restarted(s'), second).1.reason == NoChange)
  {
    var s', p := Step(plan, s, first).0, first.providerID;
    StepKeepsInv(plan, s, first);
    forall i | 0 <= i < |first.nodes| ensures Remembers(s'.mem, p, Normalize(first.nodes[i])) {
      StepRemembers(plan, s, first, i);
    }
    CachedSendsNothing(plan, s'.mem, p, second.nodes, second.now);
    if s'.mem.store.Some? && Settled(plan, s'.mem) {
      forall i | 0 <= i < |first.nodes|
        ensures StoreHit(Restarted(s').mem, Key(p, first.nodes[i].nodeName), HashOf(Normalize(first.nodes[i])))
      {
        assert Remembers(s'.mem, p, Normalize(first.nodes[i]));
      }
      StoredSendsNothing(plan, Restarted(s').mem, p, second.nodes, second.now);
    }
  }

  /** A reconcile that succeeded is followed by a quiet one exactly when the node names are distinct. */
  lemma QuietIffDistinctNames(plan: Plan, s: State, first: Input, second: Input)
    requires Inv(plan, s) && DistinctInstances(first.nodes)
    requires Step(plan, s, first).1.reason != ViolaPostError
    requires second.providerID == first.providerID && second.nodes == first.nodes
    ensures Changed(plan, Step(plan, s, first).0, second).send == [] <==> DistinctNames(first.nodes)
  {
    StepKeepsCoherent(plan, s, first);
    if DistinctNames(first.nodes) {
      SecondReconcileIsQuiet(plan, s, first, second);
    } else {
      SharedNameNeverQuiet(plan, Step(plan, s, first).0, second);
    }
  }
}
