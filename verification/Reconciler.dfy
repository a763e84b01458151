/** The part of a reconcile that decides what to send, sends it, and remembers it: an in-memory cache
    over the inventory, checked against a ghost record of what the Viola API last acknowledged. */
module Reconciler {
  import opened Wrappers
  import opened Viola
  import opened Inventory
  import opened Normalization
  import opened Schedule
  import Seqs

  datatype CacheEntry = CacheEntry(hash: Hash, node: NodeConfig)

  type Cache = map<string, CacheEntry>

  /** What the operator remembers: the cache, and the inventory unless it is disabled. */
  datatype Memory = Memory(cache: Cache, store: Option<StoreState>)

  /** The last acknowledged config per (provider, node name). */
  type Remote = map<(string, string), NodeConfig>

  type Plan = nat -> Outcome

  // ---------- Which nodes changed ----------

  predicate CacheHit(mem: Memory, k: string, hash: Hash) {
    k in mem.cache && mem.cache[k].hash == hash
  }

  predicate StoreHit(mem: Memory, k: string, hash: Hash) {
    mem.store.Some? && mem.store.value.HashAt(k) == hash
  }

  predicate Known(mem: Memory, providerID: string, norm: NodeConfig) {
    var k := Key(providerID, norm.nodeName);
    CacheHit(mem, k, HashOf(norm)) || StoreHit(mem, k, HashOf(norm))
  }

  /** Memory after one node was compared: a cache hit repairs a stale inventory record, an inventory
      hit fills the cache. */
  function Compared(plan: Plan, mem: Memory, providerID: string, norm: NodeConfig, now: int): Memory {
    var k, hash := Key(providerID, norm.nodeName), HashOf(norm);
    if CacheHit(mem, k, hash) then
      if mem.store.Some? && !StoreHit(mem, k, hash)
      then mem.(store := Some(mem.store.value.Upserted(plan, providerID, mem.cache[k].node, mem.cache[k].hash, now)))
      else mem
    else if StoreHit(mem, k, hash) then mem.(cache := mem.cache[k := CacheEntry(hash, norm)])
    else mem
  }

  datatype Filtered = Filtered(mem: Memory, send: seq<NodeConfig>, hashes: map<string, Hash>)

  function FilterChanged(plan: Plan, mem: Memory, providerID: string, nodes: seq<NodeConfig>, now: int): Filtered {
    if nodes == [] then Filtered(mem, [], map[])
    else
      var f := FilterChanged(plan, mem, providerID, nodes[..|nodes| - 1], now);
      var norm := Normalize(nodes[|nodes| - 1]);
      var mem' := Compared(plan, f.mem, providerID, norm, now);
      if Known(f.mem, providerID, norm) then f.(mem := mem')
      else Filtered(mem', f.send + [norm], f.hashes[norm.nodeName := HashOf(norm)])
  }

  // ---------- Nodes with DOWN ports ----------

  function Named(names: set<string>): NodeConfig -> bool {
    (node: NodeConfig) => node.nodeName in names
  }

  function Names(nodes: seq<NodeConfig>): set<string> {
    set i | 0 <= i < |nodes| :: nodes[i].nodeName
  }

  /** The payload and its hashes, with the extra nodes whose names are not there yet appended. */
  function Merged(send: seq<NodeConfig>, hashes: map<string, Hash>, extras: seq<NodeConfig>)
    : (seq<NodeConfig>, map<string, Hash>)
  {
    if extras == [] then (send, hashes)
    else
      var (s, h) := Merged(send, hashes, extras[..|extras| - 1]);
      var norm := Normalize(extras[|extras| - 1]);
      if norm.nodeName in Names(s) then (s, h)
      else (s + [norm], if norm.nodeName in h then h else h[norm.nodeName := HashOf(norm)])
  }

  // ---------- Remembering what was sent ----------

  function CacheSent(cache: Cache, providerID: string, hashes: map<string, Hash>, sent: seq<NodeConfig>): Cache {
    if sent == [] then cache
    else
      var node := sent[|sent| - 1];
      var hash := if node.nodeName in hashes then hashes[node.nodeName] else Absent;
      CacheSent(cache, providerID, hashes, sent[..|sent| - 1])
        [Key(providerID, node.nodeName) := CacheEntry(hash, node)]
  }

  function StoreSent(plan: Plan, store: StoreState, providerID: string, hashes: map<string, Hash>,
                     sent: seq<NodeConfig>, at: int): StoreState
  {
    if sent == [] then store
    else
      var node := sent[|sent| - 1];
      var hash := if node.nodeName in hashes then hashes[node.nodeName] else Absent;
      StoreSent(plan, store, providerID, hashes, sent[..|sent| - 1], at).Upserted(plan, providerID, node, hash, at)
  }

  function Remembered(plan: Plan, mem: Memory, providerID: string, hashes: map<string, Hash>,
                      sent: seq<NodeConfig>, at: int): Memory
  {
    Memory(CacheSent(mem.cache, providerID, hashes, sent),
           if mem.store.None? then None
           else Some(StoreSent(plan, mem.store.value, providerID, hashes, sent, at)))
  }

  /** The receiver applies a payload in order, so of two configs for one name the later one stands. */
  function Acknowledged(remote: Remote, providerID: string, sent: seq<NodeConfig>): Remote {
    if sent == [] then remote
    else
      Acknowledged(remote, providerID, sent[..|sent| - 1])
        [(providerID, sent[|sent| - 1].nodeName) := sent[|sent| - 1]]
  }

  // ---------- One reconcile ----------

  /** What a reconcile works on once the ports are compiled: the desired nodes, the DOWN ports, the
      clock before and after the POST, and whether the POST and the status writes succeed. */
  datatype Input = Input(providerID: string, stateKey: string, nodes: seq<NodeConfig>, downNodes: set<string>,
                         downHash: DownHash, now: int, sendTime: int, postOk: bool, statusOk: bool, polls: Polls,
                         status: Option<Retry>)

  datatype State = State(mem: Memory, lastChange: map<string, int>, remote: Remote)

  datatype Reason = NoChange | ViolaPostError | Synced

  datatype Report = Report(reason: Reason, payload: seq<NodeConfig>, requeue: int, status: Option<Retry>)

  function LastChange(s: State, key: string): Option<int> {
    if key in s.lastChange then Some(s.lastChange[key]) else None
  }

  /** The payload: the changed nodes and, when a retry is due or something is sent anyway, every node
      with a DOWN port. */
  function PayloadFor(f: Filtered, input: Input): (seq<NodeConfig>, map<string, Hash>) {
    if input.downHash != NoDown && (ShouldRetry(input.status, input.downHash, input.now, input.polls).0 || f.send != [])
    then Merged(f.send, f.hashes, Seqs.Filter(Named(input.downNodes), input.nodes))
    else (f.send, f.hashes)
  }

  function Changed(plan: Plan, s: State, input: Input): Filtered {
    FilterChanged(plan, s.mem, input.providerID, input.nodes, input.now)
  }

  /** The retry record before the POST: dropped once no port is down. */
  function ClearedStatus(input: Input): Option<Retry> {
    if input.downHash == NoDown && input.statusOk then None else input.status
  }

  function QuietRequeue(s: State, input: Input): int {
    var requeue := AdaptiveRequeue(input.now, false, LastChange(s, input.stateKey), input.polls);
    var (due, wait) := ShouldRetry(input.status, input.downHash, input.now, input.polls);
    if input.downHash != NoDown && !due && 0 < wait < requeue then wait else requeue
  }

  /** The retry record after a successful POST. */
  function SentStatus(input: Input, payload: seq<NodeConfig>): Option<Retry> {
    if input.downHash != NoDown && Names(payload) * input.downNodes != {} && input.statusOk
    then StoredRetry(NextRetry(input.status, input.downHash, input.sendTime, input.polls))
    else ClearedStatus(input)
  }

  function Step(plan: Plan, s: State, input: Input): (State, Report) {
    var f := Changed(plan, s, input);
    var (payload, hashes) := PayloadFor(f, input);
    if payload == [] then
      (s.(mem := f.mem), Report(NoChange, payload, QuietRequeue(s, input), ClearedStatus(input)))
    else if !input.postOk then
      (s.(mem := f.mem), Report(ViolaPostError, payload, input.polls.error, ClearedStatus(input)))
    else
      (State(Remembered(plan, f.mem, input.providerID, hashes, payload, input.sendTime),
             s.lastChange[input.stateKey := input.sendTime],
             Acknowledged(s.remote, input.providerID, payload)),
       Report(Synced, payload, AdaptiveRequeue(input.sendTime, true, None, input.polls), SentStatus(input, payload)))
  }

  /** A new process: the cache and the poll state are gone, the inventory is read back from its file. */
  function Restarted(s: State): State {
    State(Memory(map[], if s.mem.store.None? then None else Some(s.mem.store.value.Reopened())), map[], s.remote)
  }

  // ---------- The reconciler object ----------

  class Operator {
    const inventory: Store?
    const plan: Plan
    var cache: map<string, CacheEntry>
    var lastChange: map<string, int>
    ghost var remote: Remote

    ghost function Parts(): set<object> {
      {this} + (if inventory == null then {} else {inventory, inventory.disk})
    }

    ghost predicate Valid()
      reads Parts()
    {
      inventory != null ==> inventory.Valid() && inventory.disk.plan == plan
    }

    ghost function View(): State
      reads Parts()
    {
      State(Memory(cache, if inventory == null then None else Some(inventory.View())), lastChange, remote)
    }

    constructor (inventory: Store?, plan: Plan, ghost remote: Remote)
      requires inventory != null ==> inventory.Valid() && inventory.disk.plan == plan
      ensures this.inventory == inventory && this.plan == plan && Valid()
      ensures View() == State(Memory(map[], if inventory == null then None else Some(inventory.View())), map[], remote)
    {
      this.inventory, this.plan := inventory, plan;
      cache, lastChange := map[], map[];
      this.remote := remote;
    }

    /** Keeps the nodes whose normalized form neither the cache nor the inventory knows. */
    method FilterChangedNodes(providerID: string, nodes: seq<NodeConfig>, now: int)
      returns (nodesToSend: seq<NodeConfig>, hashes: map<string, Hash>)
      requires Valid()
      modifies Parts()
      ensures Valid() && lastChange == old(lastChange) && remote == old(remote)
      ensures Filtered(View().mem, nodesToSend, hashes) == FilterChanged(plan, old(View()).mem, providerID, nodes, now)
    {
      nodesToSend, hashes := [], map[];
      ghost var before := View().mem;
      for i := 0 to |nodes|
        invariant Valid() && lastChange == old(lastChange) && remote == old(remote)
        invariant Filtered(View().mem, nodesToSend, hashes) == FilterChanged(plan, before, providerID, nodes[..i], now)
      {
        assert nodes[..i + 1][..i] == nodes[..i];
        var norm := NormalizeNodeConfig(nodes[i]);
        var known := CompareNode(providerID, norm, now);
        if known {
          continue;
        }
        nodesToSend := nodesToSend + [norm];
        hashes := hashes[norm.nodeName := HashOf(norm)];
      }
      assert nodes[..|nodes|] == nodes;
    }

    method CompareNode(providerID: string, norm: NodeConfig, now: int) returns (known: bool)
      requires Valid()
      modifies Parts()
      ensures Valid() && lastChange == old(lastChange) && remote == old(remote)
      ensures known == Known(old(View()).mem, providerID, norm)
      ensures View().mem == Compared(plan, old(View()).mem, providerID, norm, now)
    {
      var hash := HashOf(norm);
      var key := Key(providerID, norm.nodeName);
      if key in cache && cache[key].hash == hash {
        if inventory != null {
          var last := inventory.GetHash(providerID, norm.nodeName);
          if last != hash {
            var _ := inventory.Upsert(providerID, cache[key].node, cache[key].hash, now);
          }
        }
        return true;
      }
      if inventory != null {
        var last := inventory.GetHash(providerID, norm.nodeName);
        if last == hash {
          cache := cache[key := CacheEntry(hash, norm)];
          return true;
        }
      }
      known := false;
    }

    /** After an acknowledged POST, caches and stores every node that was sent. */
    method Remember(providerID: string, sent: seq<NodeConfig>, hashes: map<string, Hash>, sendTime: int)
      requires Valid()
      modifies Parts()
      ensures Valid() && lastChange == old(lastChange) && remote == old(remote)
      ensures View().mem == Remembered(plan, old(View()).mem, providerID, hashes, sent, sendTime)
    {
      ghost var before := View().mem;
      for i := 0 to |sent|
        invariant Valid() && lastChange == old(lastChange) && remote == old(remote)
        invariant View().mem == Remembered(plan, before, providerID, hashes, sent[..i], sendTime)
      {
        assert sent[..i + 1][..i] == sent[..i];
        var node := sent[i];
        var hash := if node.nodeName in hashes then hashes[node.nodeName] else Absent;
        cache := cache[Key(providerID, node.nodeName) := CacheEntry(hash, node)];
        if inventory != null {
          var _ := inventory.Upsert(providerID, node, hash, sendTime);
        }
      }
      assert sent[..|sent|] == sent;
    }

    /** Finds the changed nodes and adds the nodes with DOWN ports when they are to be sent again. */
    method BuildPayload(input: Input, due: bool) returns (nodesToSend: seq<NodeConfig>, hashes: map<string, Hash>)
      requires Valid() && due == ShouldRetry(input.status, input.downHash, input.now, input.polls).0
      modifies Parts()
      ensures Valid() && lastChange == old(lastChange) && remote == old(remote)
      ensures View().mem == Changed(plan, old(View()), input).mem
      ensures (nodesToSend, hashes) == PayloadFor(Changed(plan, old(View()), input), input)
    {
      nodesToSend, hashes := FilterChangedNodes(input.providerID, input.nodes, input.now);
      if input.downHash != NoDown && (due || |nodesToSend| > 0) {
        var downNodesToSend := SelectNodesByName(input.nodes, input.downNodes);
        nodesToSend, hashes := MergeNodesToSend(nodesToSend, hashes, downNodesToSend);
      }
    }

    /** One reconcile, from the compiled nodes on. */
    method Reconcile(input: Input) returns (report: Report)
      requires Valid()
      modifies Parts()
      ensures Valid()
      ensures (View(), report) == Step(plan, old(View()), input)
    {
      var (due, wait) := ShouldRetry(input.status, input.downHash, input.now, input.polls);
      var status := input.status;
      if input.downHash == NoDown && status.Some? && input.statusOk {
        status := None;
      }
      var nodesToSend, hashes := BuildPayload(input, due);
      if |nodesToSend| == 0 {
        var last := if input.stateKey in lastChange then Some(lastChange[input.stateKey]) else None;
        var requeue := AdaptiveRequeue(input.now, false, last, input.polls);
        if input.downHash != NoDown && !due && wait > 0 && wait < requeue {
          requeue := wait;
        }
        return Report(NoChange, nodesToSend, requeue, status);
      }
      if !input.postOk {
        return Report(ViolaPostError, nodesToSend, input.polls.error, status);
      }
      remote := Acknowledged(remote, input.providerID, nodesToSend);
      Remember(input.providerID, nodesToSend, hashes, input.sendTime);
      lastChange := lastChange[input.stateKey := input.sendTime];
      var requeue := AdaptiveRequeue(input.sendTime, true, None, input.polls);
      if input.downHash != NoDown {
        var contains := ContainsDownNodes(nodesToSend, input.downNodes);
        if contains && input.statusOk {
          status := StoredRetry(NextRetry(input.status, input.downHash, input.sendTime, input.polls));
        }
      }
      report := Report(Synced, nodesToSend, requeue, status);
    }
  }

  method SelectNodesByName(nodes: seq<NodeConfig>, names: set<string>) returns (out: seq<NodeConfig>)
    ensures out == Seqs.Filter(Named(names), nodes)
  {
    out := [];
    for i := 0 to |nodes|
      invariant out == Seqs.Filter(Named(names), nodes[..i])
    {
      Seqs.FilterSnoc(Named(names), nodes, i);
      if nodes[i].nodeName in names {
        out := out + [nodes[i]];
      }
    }
    assert nodes[..|nodes|] == nodes;
  }

  method MergeNodesToSend(send: seq<NodeConfig>, hashes: map<string, Hash>, extras: seq<NodeConfig>)
    returns (nodes: seq<NodeConfig>, merged: map<string, Hash>)
    ensures (nodes, merged) == Merged(send, hashes, extras)
  {
    nodes, merged := send, hashes;
    var existing := set node | node in send :: node.nodeName;
    for i := 0 to |extras|
      invariant (nodes, merged) == Merged(send, hashes, extras[..i])
      invariant existing == Names(nodes)
    {
      assert extras[..i + 1][..i] == extras[..i];
      var normalized := NormalizeNodeConfig(extras[i]);
      if normalized.nodeName in existing {
        continue;
      }
      NamesSnoc(nodes, normalized);
      nodes := nodes + [normalized];
      existing := existing + {normalized.nodeName};
      if normalized.nodeName !in merged {
        merged := merged[normalized.nodeName := HashOf(normalized)];
      }
    }
    assert extras[..|extras|] == extras;
  }

  lemma NamesSnoc(nodes: seq<NodeConfig>, node: NodeConfig)
    ensures Names(nodes + [node]) == Names(nodes) + {node.nodeName}
  {
    var all := nodes + [node];
    assert forall i :: 0 <= i < |nodes| ==> all[i] == nodes[i];
    assert all[|nodes|] == node;
  }

  method ContainsDownNodes(nodes: seq<NodeConfig>, downNodes: set<string>) returns (r: bool)
    ensures r <==> Names(nodes) * downNodes != {}
  {
    for i := 0 to |nodes|
      invariant forall k :: 0 <= k < i ==> nodes[k].nodeName !in downNodes
    {
      if nodes[i].nodeName in downNodes {
        assert nodes[i].nodeName in Names(nodes) * downNodes;
        return true;
      }
    }
    r := false;
  }

  /** Starts an operator on whatever the inventory file holds; fails when the file cannot be read. */
  method Boot(disk: Disk?, plan: Plan, ghost remote: Remote) returns (op: Operator?)
    requires disk != null ==> disk.plan == plan
    ensures op == null <==> disk != null && (disk.file.Unreadable? || disk.file.Malformed?)
    ensures op != null ==> op.Valid() && op.plan == plan
    ensures op != null && disk == null ==> op.View() == State(Memory(map[], None), map[], remote)
    ensures op != null && disk != null ==>
              var held := FileData(disk.file);
              op.View() == State(Memory(map[], Some(StoreState(held, held, disk.writes))), map[], remote)
  {
    if disk == null {
      op := new Operator(null, plan, remote);
    } else {
      var store := Store.Open(disk);
      if store == null {
        return null;
      }
      op := new Operator(store, plan, remote);
    }
  }

  /** Replaces a stopped operator by a new one on the same file. */
  method Restart(op: Operator) returns (next: Operator?)
    requires op.Valid()
    ensures next == null <==>
            op.inventory != null && (op.inventory.disk.file.Unreadable? || op.inventory.disk.file.Malformed?)
    ensures next != null ==> next.Valid() && next.View() == Restarted(op.View())
  {
    next := Boot(if op.inventory == null then null else op.inventory.disk, op.plan, op.remote);
  }
}
