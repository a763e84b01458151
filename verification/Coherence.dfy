/** What the two-level memory says about the Viola API, in every run. */
module Coherence {
  import opened Viola
  import opened Inventory
  import opened Normalization
  import opened Reconciler
  import Seqs

  // ---------- Keys ----------

  /** The provider a key belongs to, once the node name is known. */
  function ProviderOf(k: string, nodeName: string): string
    requires |nodeName| < |k|
  {
    k[..|k| - |nodeName| - 1]
  }

  lemma KeyProvider(providerID: string, nodeName: string)
    ensures |nodeName| < |Key(providerID, nodeName)| && ProviderOf(Key(providerID, nodeName), nodeName) == providerID
  {
  }

  lemma KeyInjectiveInNode(providerID: string, n: string, n': string)
    requires Key(providerID, n) == Key(providerID, n')
    ensures n == n'
  {
    assert n == Key(providerID, n)[|providerID| + 1..];
    assert n' == Key(providerID, n')[|providerID| + 1..];
  }

  /** Some node of `p` and some node of `p'` share a key. */
  ghost predicate Collide(p: string, p': string) {
    exists n, n' :: Key(p, n) == Key(p', n')
  }

  /** Two different providers share a key exactly when one of them, with its separator, is a prefix of
      the other; provider IDs without '|' never do. */
  lemma CollisionCondition(p: string, p': string)
    requires p != p'
    ensures Collide(p, p') <==> p + "|" <= p' || p' + "|" <= p
    ensures '|' !in p && '|' !in p' ==> !Collide(p, p')
  {
    if p + "|" <= p' {
      var n := p'[|p| + 1..] + "|";
      assert Key(p, n) == Key(p', "");
      assert p'[|p|] == '|';
    }
    if p' + "|" <= p {
      var n := p[|p'| + 1..] + "|";
      assert Key(p, "") == Key(p', n);
      assert p[|p'|] == '|';
    }
    if Collide(p, p') {
      var n, n' :| Key(p, n) == Key(p', n');
      SharedKey(p, n, p', n');
    }
  }

  lemma SharedKey(p: string, n: string, p': string, n': string)
    requires Key(p, n) == Key(p', n') && p != p'
    ensures p + "|" <= p' || p' + "|" <= p
  {
    var k := Key(p, n);
    assert k[..|p|] == p && k[|p|] == '|' && k[..|p'|] == p' && k[|p'|] == '|';
    if |p| < |p'| {
      assert p'[..|p|] == p && p'[|p|] == '|';
      assert p + "|" == p'[..|p| + 1];
    } else if |p'| < |p| {
      assert p[..|p'|] == p' && p[|p'|] == '|';
      assert p' + "|" == p[..|p'| + 1];
    }
  }

  lemma SameOwner(p: string, n: string, q: string, m: string)
    requires Key(p, n) == Key(q, m) && (p == q || !Collide(p, q))
    ensures p == q && n == m
  {
    if p == q {
      KeyInjectiveInNode(p, n, m);
    } else {
      assert Collide(p, q);
    }
  }

  // ---------- Coherence ----------

  /** The entry under `k` holds the hash of a config, and that config is what the Viola API last
      acknowledged for the (provider, node) the config itself says it is for. */
  predicate EntryTrue(k: string, hash: Hash, node: NodeConfig, remote: Remote) {
    && hash == HashOf(node)
    && |node.nodeName| < |k|
    && var who := (ProviderOf(k, node.nodeName), node.nodeName);
       k == Key(who.0, who.1) && who in remote && remote[who] == node
  }

  ghost predicate CacheTrue(cache: Cache, remote: Remote) {
    forall k :: k in cache ==> EntryTrue(k, cache[k].hash, cache[k].node, remote)
  }

  ghost predicate DataTrue(data: Data, remote: Remote) {
    forall k :: k in data ==> EntryTrue(k, data[k].lastConfigHash, data[k].config, remote)
  }

  ghost predicate Coherent(mem: Memory, remote: Remote) {
    CacheTrue(mem.cache, remote) && (mem.store.Some? ==> DataTrue(mem.store.value.data, remote))
  }

  /** `who` last acknowledged exactly this config. */
  predicate Acked(remote: Remote, providerID: string, norm: NodeConfig) {
    (providerID, norm.nodeName) in remote && remote[(providerID, norm.nodeName)] == norm
  }

  /** A true entry that carries a config's hash under that config's key is about that very config, also
      when other pairs share the key. */
  lemma TrueHashMeansAcked(providerID: string, norm: NodeConfig, node: NodeConfig, remote: Remote)
    requires EntryTrue(Key(providerID, norm.nodeName), HashOf(norm), node, remote)
    ensures node == norm && Acked(remote, providerID, norm)
  {
    KeyProvider(providerID, norm.nodeName);
  }

  lemma AckedMakesTrue(providerID: string, norm: NodeConfig, remote: Remote)
    requires Acked(remote, providerID, norm)
    ensures EntryTrue(Key(providerID, norm.nodeName), HashOf(norm), norm, remote)
  {
    KeyProvider(providerID, norm.nodeName);
  }

  lemma KnownMeansAcked(mem: Memory, remote: Remote, providerID: string, norm: NodeConfig)
    requires Coherent(mem, remote) && Known(mem, providerID, norm)
    ensures Acked(remote, providerID, norm)
    ensures CacheHit(mem, Key(providerID, norm.nodeName), HashOf(norm)) ==>
              mem.cache[Key(providerID, norm.nodeName)].node == norm
  {
    var k := Key(providerID, norm.nodeName);
    if CacheHit(mem, k, HashOf(norm)) {
      TrueHashMeansAcked(providerID, norm, mem.cache[k].node, remote);
    } else {
      TrueHashMeansAcked(providerID, norm, mem.store.value.data[k].config, remote);
    }
  }

  lemma ComparedKeepsCoherent(plan: Plan, mem: Memory, remote: Remote, providerID: string, norm: NodeConfig, now: int)
    requires Coherent(mem, remote)
    ensures Coherent(Compared(plan, mem, providerID, norm, now), remote)
  {
  }

  lemma {:induction false} FilterKeepsCoherent(plan: Plan, mem: Memory, remote: Remote, providerID: string,
                                               nodes: seq<NodeConfig>, now: int)
    requires Coherent(mem, remote)
    ensures Coherent(FilterChanged(plan, mem, providerID, nodes, now).mem, remote)
  {
    if nodes == [] {
    } else {
      var init := nodes[..|nodes| - 1];
      FilterKeepsCoherent(plan, mem, remote, providerID, init, now);
      ComparedKeepsCoherent(plan, FilterChanged(plan, mem, providerID, init, now).mem, remote, providerID,
                            Normalize(nodes[|nodes| - 1]), now);
    }
  }

  // ---------- The payload ----------

  /** The last config with this name. */
  function LastNamed(nodes: seq<NodeConfig>, name: string): NodeConfig
    requires name in Names(nodes)
  {
    if nodes[|nodes| - 1].nodeName == name then nodes[|nodes| - 1]
    else
      NamesInit(nodes);
      LastNamed(nodes[..|nodes| - 1], name)
  }

  lemma NamesInit(nodes: seq<NodeConfig>)
    requires nodes != []
    ensures Names(nodes) == Names(nodes[..|nodes| - 1]) + {nodes[|nodes| - 1].nodeName}
  {
  }

  lemma LastNamedSnoc(nodes: seq<NodeConfig>, node: NodeConfig, name: string)
    requires name in Names(nodes + [node])
    ensures LastNamed(nodes + [node], name) ==
            if name == node.nodeName then node else (NamesSnoc(nodes, node); LastNamed(nodes, name))
  {
  }

  lemma {:induction false} LastNamedIsThere(nodes: seq<NodeConfig>, name: string)
    requires name in Names(nodes)
    ensures LastNamed(nodes, name) in nodes && LastNamed(nodes, name).nodeName == name
  {
    if nodes[|nodes| - 1].nodeName == name {
    } else {
      NamesInit(nodes);
      LastNamedIsThere(nodes[..|nodes| - 1], name);
    }
  }

  /** The hash map covers exactly the payload's names, each with the hash of the last config sent
      under that name. */
  ghost predicate HashesMatch(send: seq<NodeConfig>, hashes: map<string, Hash>) {
    && hashes.Keys == Names(send)
    && forall name :: name in Names(send) ==> hashes[name] == HashOf(LastNamed(send, name))
  }

  lemma HashesMatchSnoc(send: seq<NodeConfig>, hashes: map<string, Hash>, norm: NodeConfig)
    requires HashesMatch(send, hashes)
    ensures HashesMatch(send + [norm], hashes[norm.nodeName := HashOf(norm)])
  {
    var send', hashes' := send + [norm], hashes[norm.nodeName := HashOf(norm)];
    NamesSnoc(send, norm);
    forall name | name in Names(send') ensures hashes'[name] == HashOf(LastNamed(send', name)) {
      LastNamedSnoc(send, norm, name);
    }
  }

  lemma {:induction false} FilterHashesMatch(plan: Plan, mem: Memory, providerID: string, nodes: seq<NodeConfig>,
                                             now: int)
    ensures var f := FilterChanged(plan, mem, providerID, nodes, now); HashesMatch(f.send, f.hashes)
  {
    if nodes == [] {
    } else {
      var init, norm := nodes[..|nodes| - 1], Normalize(nodes[|nodes| - 1]);
      FilterHashesMatch(plan, mem, providerID, init, now);
      var f := FilterChanged(plan, mem, providerID, init, now);
      HashesMatchSnoc(f.send, f.hashes, norm);
    }
  }

  lemma {:induction false} MergedHashesMatch(send: seq<NodeConfig>, hashes: map<string, Hash>, extras: seq<NodeConfig>)
    requires HashesMatch(send, hashes)
    ensures var (s, h) := Merged(send, hashes, extras); HashesMatch(s, h)
  {
    if extras == [] {
    } else {
      var init, norm := extras[..|extras| - 1], Normalize(extras[|extras| - 1]);
      MergedHashesMatch(send, hashes, init);
      var (s, h) := Merged(send, hashes, init);
      HashesMatchSnoc(s, h, norm);
    }
  }

  lemma PayloadHashesMatch(plan: Plan, s: State, input: Input)
    ensures var (payload, hashes) := PayloadFor(Changed(plan, s, input), input); HashesMatch(payload, hashes)
  {
    var f := Changed(plan, s, input);
    FilterHashesMatch(plan, s.mem, input.providerID, input.nodes, input.now);
    MergedHashesMatch(f.send, f.hashes, Seqs.Filter(Named(input.downNodes), input.nodes));
  }

  // ---------- What remembering and acknowledging do, key by key ----------

  lemma {:induction false} AcknowledgedAt(remote: Remote, p: string, sent: seq<NodeConfig>, who: (string, string))
    ensures var r := Acknowledged(remote, p, sent);
            if who.0 == p && who.1 in Names(sent) then who in r && r[who] == LastNamed(sent, who.1)
            else (who in r <==> who in remote) && (who in r ==> r[who] == remote[who])
  {
    if sent == [] {
    } else {
      NamesInit(sent);
      AcknowledgedAt(remote, p, sent[..|sent| - 1], who);
    }
  }

  lemma {:induction false} CacheSentAt(cache: Cache, p: string, hashes: map<string, Hash>, sent: seq<NodeConfig>,
                                       name: string)
    requires name in Names(sent) && name in hashes
    ensures var c, k := CacheSent(cache, p, hashes, sent), Key(p, name);
            k in c && c[k] == CacheEntry(hashes[name], LastNamed(sent, name))
  {
    NamesInit(sent);
    var last := sent[|sent| - 1];
    if last.nodeName == name {
    } else {
      if Key(p, last.nodeName) == Key(p, name) {
        KeyInjectiveInNode(p, last.nodeName, name);
      }
      CacheSentAt(cache, p, hashes, sent[..|sent| - 1], name);
    }
  }

  lemma {:induction false} CacheSentElsewhere(cache: Cache, p: string, hashes: map<string, Hash>,
                                              sent: seq<NodeConfig>, k: string)
    requires forall name :: name in Names(sent) ==> k != Key(p, name)
    ensures var c := CacheSent(cache, p, hashes, sent);
            (k in c <==> k in cache) && (k in c ==> c[k] == cache[k])
  {
    if sent == [] {
    } else {
      NamesInit(sent);
      CacheSentElsewhere(cache, p, hashes, sent[..|sent| - 1], k);
    }
  }

  lemma {:induction false} StoreSentAt(plan: Plan, store: StoreState, p: string, hashes: map<string, Hash>,
                                       sent: seq<NodeConfig>, at: int, name: string)
    requires name in Names(sent) && name in hashes
    ensures var d, k := StoreSent(plan, store, p, hashes, sent, at).data, Key(p, name);
            && k in d && d[k].lastConfigHash == hashes[name] && d[k].config == LastNamed(sent, name)
            && d[k].providerID == p && d[k].instanceID == LastNamed(sent, name).instanceID && d[k].updatedAt == at
  {
    NamesInit(sent);
    var last := sent[|sent| - 1];
    if last.nodeName == name {
    } else {
      if Key(p, last.nodeName) == Key(p, name) {
        KeyInjectiveInNode(p, last.nodeName, name);
      }
      StoreSentAt(plan, store, p, hashes, sent[..|sent| - 1], at, name);
    }
  }

  lemma {:induction false} StoreSentElsewhere(plan: Plan, store: StoreState, p: string, hashes: map<string, Hash>,
                                              sent: seq<NodeConfig>, at: int, k: string)
    requires forall name :: name in Names(sent) ==> k != Key(p, name)
    ensures var d := StoreSent(plan, store, p, hashes, sent, at).data;
            (k in d <==> k in store.data) && (k in d ==> d[k] == store.data[k])
  {
    if sent == [] {
    } else {
      NamesInit(sent);
      StoreSentElsewhere(plan, store, p, hashes, sent[..|sent| - 1], at, k);
    }
  }

  // ---------- Coherence of a POST ----------

  lemma SentEntryTrue(remote: Remote, p: string, sent: seq<NodeConfig>, name: string)
    requires name in Names(sent)
    ensures EntryTrue(Key(p, name), HashOf(LastNamed(sent, name)), LastNamed(sent, name), Acknowledged(remote, p, sent))
  {
    LastNamedIsThere(sent, name);
    AcknowledgedAt(remote, p, sent, (p, name));
    AckedMakesTrue(p, LastNamed(sent, name), Acknowledged(remote, p, sent));
  }

  lemma OldEntryTrue(remote: Remote, p: string, sent: seq<NodeConfig>, k: string, hash: Hash, node: NodeConfig)
    requires EntryTrue(k, hash, node, remote)
    requires forall name :: name in Names(sent) ==> k != Key(p, name)
    ensures EntryTrue(k, hash, node, Acknowledged(remote, p, sent))
  {
  }

  lemma CacheSentTrue(cache: Cache, remote: Remote, p: string, hashes: map<string, Hash>, sent: seq<NodeConfig>)
    requires CacheTrue(cache, remote) && HashesMatch(sent, hashes)
    ensures CacheTrue(CacheSent(cache, p, hashes, sent), Acknowledged(remote, p, sent))
  {
    var c := CacheSent(cache, p, hashes, sent);
    forall k | k in c ensures EntryTrue(k, c[k].hash, c[k].node, Acknowledged(remote, p, sent)) {
      if name :| name in Names(sent) && k == Key(p, name) {
        CacheSentAt(cache, p, hashes, sent, name);
        SentEntryTrue(remote, p, sent, name);
      } else {
        CacheSentElsewhere(cache, p, hashes, sent, k);
        OldEntryTrue(remote, p, sent, k, cache[k].hash, cache[k].node);
      }
    }
  }

  lemma StoreSentTrue(plan: Plan, store: StoreState, remote: Remote, p: string, hashes: map<string, Hash>,
                      sent: seq<NodeConfig>, at: int)
    requires DataTrue(store.data, remote) && HashesMatch(sent, hashes)
    ensures DataTrue(StoreSent(plan, store, p, hashes, sent, at).data, Acknowledged(remote, p, sent))
  {
    var d := StoreSent(plan, store, p, hashes, sent, at).data;
    forall k | k in d ensures EntryTrue(k, d[k].lastConfigHash, d[k].config, Acknowledged(remote, p, sent)) {
      if name :| name in Names(sent) && k == Key(p, name) {
        StoreSentAt(plan, store, p, hashes, sent, at, name);
        SentEntryTrue(remote, p, sent, name);
      } else {
        StoreSentElsewhere(plan, store, p, hashes, sent, at, k);
        OldEntryTrue(remote, p, sent, k, store.data[k].lastConfigHash, store.data[k].config);
      }
    }
  }

  /** Every reconcile keeps memory coherent: whatever the node names and provider IDs, whichever
      persists fail, and whether or not the POST succeeds. */
  lemma StepKeepsCoherent(plan: Plan, s: State, input: Input)
    requires Coherent(s.mem, s.remote)
    ensures var (s', _) := Step(plan, s, input); Coherent(s'.mem, s'.remote)
  {
    var f := Changed(plan, s, input);
    var (payload, hashes) := PayloadFor(f, input);
    FilterKeepsCoherent(plan, s.mem, s.remote, input.providerID, input.nodes, input.now);
    if payload != [] && input.postOk {
      PayloadHashesMatch(plan, s, input);
      CacheSentTrue(f.mem.cache, s.remote, input.providerID, hashes, payload);
      if f.mem.store.Some? {
        StoreSentTrue(plan, f.mem.store.value, s.remote, input.providerID, hashes, payload, input.sendTime);
      }
    }
  }
}
