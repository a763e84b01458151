/** Whole reconcile rounds, from the Neutron listing to the next wake-up. */
module Rounds {
  import opened Wrappers
  import opened Viola
  import opened Normalization
  import opened Schedule
  import opened Ports
  import opened PortTheorems
  import opened Reconciler
  import opened Coherence
  import opened Runs
  import opened Convergence
  import Seqs
  import Subnets
  import Text

  datatype Round = Round(providerID: string, stateKey: string, query: Query, ports: seq<Port>, now: int, sendTime: int,
                         postOk: bool, statusOk: bool, polls: Polls, status: Option<Retry>)

  function InputOf(r: Round): Input {
    var m := MapPorts(r.query, r.ports);
    Input(r.providerID, r.stateKey, Desired(r.query, r.ports), m.downNodes, HashDown(m.downPortIDs), r.now, r.sendTime,
          r.postOk, r.statusOk, r.polls, r.status)
  }

  /** One round on the operator object. */
  method ReconcileRound(op: Operator, r: Round) returns (report: Report)
    requires op.Valid()
    modifies op.Parts()
    ensures op.Valid()
    ensures (op.View(), report) == Step(op.plan, old(op.View()), InputOf(r))
  {
    var m := MapPortsToNodes(r.query, r.ports);
    var nodes := FilterNodesWithInterfaces(m.nodes);
    var downHash := HashDownPorts(m.downPortIDs);
    report := op.Reconcile(Input(r.providerID, r.stateKey, nodes, m.downNodes, downHash, r.now, r.sendTime, r.postOk,
                                 r.statusOk, r.polls, r.status));
  }

  // ---------- Listing order ----------

  /** The order in which Neutron lists the ports changes nothing: same payload and hashes, same memory,
      same outcome, same wake-up, same retry record. */
  lemma ListingOrderInvariance(plan: Plan, s: State, r: Round, ports': seq<Port>)
    requires IdentifiedByID(r.ports) && multiset(r.ports) == multiset(ports')
    ensures Step(plan, s, InputOf(r)) == Step(plan, s, InputOf(r.(ports := ports')))
  {
    ListingOrderIrrelevant(r.query, r.ports, ports');
  }

  /** A round that succeeds puts every desired node in place, exactly when their names are distinct. */
  lemma RoundConverges(plan: Plan, s: State, r: Round)
    requires Inv(plan, s)
    requires Step(plan, s, InputOf(r)).1.reason != ViolaPostError
    ensures InPlace(Step(plan, s, InputOf(r)).0.remote, r.providerID, Desired(r.query, r.ports))
            <==> DistinctNames(Desired(r.query, r.ports))
  {
    MappingMeaning(r.query, r.ports);
    Converges(plan, s, InputOf(r));
  }

  /** From a fresh start, after any run whose restarts follow a successful persist, a round that succeeds puts
      every desired node in place, exactly when their names are distinct. */
  lemma EveryRunConverges(plan: Plan, start: State, es: seq<Event>, r: Round)
    requires Fresh(start) && SettledRestarts(plan, start, es)
    requires Step(plan, RunOf(plan, start, es), InputOf(r)).1.reason != ViolaPostError
    ensures InPlace(Step(plan, RunOf(plan, start, es), InputOf(r)).0.remote, r.providerID, Desired(r.query, r.ports))
            <==> DistinctNames(Desired(r.query, r.ports))
  {
    FreshInv(plan, start);
    RunKeepsInv(plan, start, es);
    RoundConverges(plan, RunOf(plan, start, es), r);
  }

  /** After a round that succeeds, a round on any reordering of the same listing with no DOWN port sends
      nothing, also after a restart from a settled inventory file. */
  lemma PermutedRoundIsQuiet(plan: Plan, s: State, r: Round, next: Round)
    requires Inv(plan, s) && DistinctNames(Desired(r.query, r.ports))
    requires Step(plan, s, InputOf(r)).1.reason != ViolaPostError
    requires IdentifiedByID(r.ports) && multiset(next.ports) == multiset(r.ports)
    requires next.query == r.query && next.providerID == r.providerID
    requires MapPorts(r.query, r.ports).downPortIDs == []
    ensures var s' := Step(plan, s, InputOf(r)).0;
            && Step(plan, s', InputOf(next)).1.reason == NoChange
            && (s'.mem.store.Some? && Settled(plan, s'.mem) ==>
                  Step(plan, Restarted(s'), InputOf(next)).1.reason == NoChange)
  {
    ListingOrderIrrelevant(r.query, r.ports, next.ports);
    SecondReconcileIsQuiet(plan, s, InputOf(r), InputOf(next));
  }

  // ---------- Node names ----------

  lemma DesiredIsNodeFor(q: Query, ports: seq<Port>, node: NodeConfig) returns (vm: string)
    requires node in Desired(q, ports)
    ensures vm in q.vmIDs && node == q.NodeFor(ports, vm) && HasInterfaces(node)
  {
    var vms := Subnets.Unique(q.vmIDs);
    CollectedMeaning(NodeOn(q, ports), DownOn(q, ports), vms);
    var nodes := Seqs.Map(NodeOn(q, ports), vms);
    Seqs.FilterMember(HAS_INTERFACES, nodes, node);
    var i :| 0 <= i < |nodes| && nodes[i] == node;
    OnVM(q, ports, vms[i]);
    vm := vms[i];
  }

  lemma NodeIsDesired(q: Query, ports: seq<Port>, vm: string) returns (i: nat)
    requires vm in q.vmIDs && HasInterfaces(q.NodeFor(ports, vm))
    ensures i < |Desired(q, ports)|
    ensures Desired(q, ports)[i].instanceID == vm && Desired(q, ports)[i].nodeName == q.NameOf(vm)
  {
    var vms := Subnets.Unique(q.vmIDs);
    CollectedMeaning(NodeOn(q, ports), DownOn(q, ports), vms);
    var nodes := Seqs.Map(NodeOn(q, ports), vms);
    assert vm in vms;
    var k :| 0 <= k < |vms| && vms[k] == vm;
    OnVM(q, ports, vm);
    assert nodes[k] in nodes;
    Seqs.FilterMember(HAS_INTERFACES, nodes, nodes[k]);
    i :| 0 <= i < |Desired(q, ports)| && Desired(q, ports)[i] == q.NodeFor(ports, vm);
  }

  /** A requested VM that gets interfaces. */
  predicate Wanted(q: Query, ports: seq<Port>, vm: string) {
    vm in q.vmIDs && HasInterfaces(q.NodeFor(ports, vm))
  }

  /** The VMs that are wanted have names of their own. */
  ghost predicate NamesApart(q: Query, ports: seq<Port>) {
    forall a, b :: Wanted(q, ports, a) && Wanted(q, ports, b) && a != b ==> q.NameOf(a) != q.NameOf(b)
  }

  lemma DesiredIsWanted(q: Query, ports: seq<Port>, i: nat)
    requires i < |Desired(q, ports)|
    ensures var node := Desired(q, ports)[i];
            Wanted(q, ports, node.instanceID) && node.nodeName == q.NameOf(node.instanceID)
  {
    var vm := DesiredIsNodeFor(q, ports, Desired(q, ports)[i]);
  }

  lemma ApartMeansDistinct(q: Query, ports: seq<Port>)
    requires NamesApart(q, ports)
    ensures DistinctNames(Desired(q, ports))
  {
    var desired := Desired(q, ports);
    MappingMeaning(q, ports);
    forall i, j | 0 <= i < j < |desired| ensures desired[i].nodeName != desired[j].nodeName {
      DesiredIsWanted(q, ports, i);
      DesiredIsWanted(q, ports, j);
      assert desired[i].instanceID != desired[j].instanceID;
    }
  }

  lemma SharedMeansNotDistinct(q: Query, ports: seq<Port>, a: string, b: string)
    requires Wanted(q, ports, a) && Wanted(q, ports, b) && a != b && q.NameOf(a) == q.NameOf(b)
    ensures !DistinctNames(Desired(q, ports))
  {
    var i := NodeIsDesired(q, ports, a);
    var j := NodeIsDesired(q, ports, b);
    TwoShareName(Desired(q, ports), i, j);
  }

  lemma TwoShareName(nodes: seq<NodeConfig>, i: nat, j: nat)
    requires i < |nodes| && j < |nodes|
    requires nodes[i].nodeName == nodes[j].nodeName && nodes[i].instanceID != nodes[j].instanceID
    ensures !DistinctNames(nodes)
  {
  }

  /** Desired nodes have distinct names exactly when no two requested VMs with interfaces are mapped to one name. */
  lemma DistinctNamesMeaning(q: Query, ports: seq<Port>)
    ensures DistinctNames(Desired(q, ports)) <==> NamesApart(q, ports)
  {
    if NamesApart(q, ports) {
      ApartMeansDistinct(q, ports);
    } else {
      var a, b :| Wanted(q, ports, a) && Wanted(q, ports, b) && a != b && q.NameOf(a) == q.NameOf(b);
      SharedMeansNotDistinct(q, ports, a, b);
    }
  }

  lemma PortGivesInterfaces(q: Query, ports: seq<Port>, p: Port)
    requires p in ports && q.filters == []
    ensures HasInterfaces(q.NodeFor(ports, p.deviceID))
  {
    assert Subnets.ByID(q.filters) == map[];
    EligibleMeaning(q, ports, p.deviceID, p);
    assert p in multiset(ports);
    assert p in multiset(EligibleOf(q, ports, p.deviceID));
    var dropped := TopK(q, ports, p.deviceID);
    InterfacesAreKept(q, ports, p.deviceID);
  }

  /** Such a listing: two VMs that Nova gives one name, each with a port, and no subnet filter. No round on it ever
      reports NoChange. */
  lemma SharedNameRound(plan: Plan, s: State, r: Round, name: string, p: Port, p': Port)
    requires Inv(plan, s) && p in r.ports && p' in r.ports && p.deviceID != p'.deviceID
    requires r.query.vmIDs == [p.deviceID, p'.deviceID] && r.query.filters == []
    requires r.query.nodeNames == map[p.deviceID := name, p'.deviceID := name] && Text.TrimSpace(name) != ""
    ensures !DistinctNames(Desired(r.query, r.ports)) && Step(plan, s, InputOf(r)).1.reason != NoChange
  {
    PortGivesInterfaces(r.query, r.ports, p);
    PortGivesInterfaces(r.query, r.ports, p');
    SharedMeansNotDistinct(r.query, r.ports, p.deviceID, p'.deviceID);
    MappingMeaning(r.query, r.ports);
    SharedNameNeverQuiet(plan, s, InputOf(r));
  }

  // ---------- DOWN ports ----------

  lemma DownExtras(nodes: seq<NodeConfig>, names: set<string>)
    requires AllNamed(names, nodes)
    ensures Names(Seqs.Filter(Named(names), nodes)) == names
  {
    var extras := Seqs.Filter(Named(names), nodes);
    forall name ensures name in Names(extras) <==> name in names {
      if name in Names(extras) {
        var i :| 0 <= i < |extras| && extras[i].nodeName == name;
        assert extras[i] in extras;
      }
      if name in names {
        var i :| 0 <= i < |nodes| && nodes[i].nodeName == name;
        Seqs.FilterCounts(Named(names), nodes, nodes[i]);
        assert nodes[i] in multiset(extras);
        InNames(extras, nodes[i]);
      }
    }
  }

  /** The DOWN ports of an input are those of its nodes: every down name is a wanted node's, and there is
      a down name exactly when there is a DOWN port. */
  ghost predicate DownConsistent(input: Input) {
    AllNamed(input.downNodes, input.nodes) && (input.downHash == NoDown <==> input.downNodes == {})
  }

  lemma RoundIsDownConsistent(r: Round)
    ensures DownConsistent(InputOf(r))
  {
    MappingMeaning(r.query, r.ports);
  }

  /** Whenever something is sent while a kept port is DOWN, the payload names every down node, so the
      guard that records the attempt holds exactly when there is a DOWN port; and nothing is sent with
      a DOWN port around only while the retry is not yet due. */
  lemma DownCoverage(plan: Plan, s: State, input: Input)
    requires DownConsistent(input)
    ensures var payload := PayloadFor(Changed(plan, s, input), input).0;
            && (payload != [] ==> input.downNodes <= Names(payload))
            && (payload != [] ==> (Names(payload) * input.downNodes != {} <==> input.downHash != NoDown))
            && (payload == [] && input.downHash != NoDown ==>
                  !ShouldRetry(input.status, input.downHash, input.now, input.polls).0)
  {
    var f := Changed(plan, s, input);
    var payload := PayloadFor(f, input).0;
    if input.downHash != NoDown {
      DownExtras(input.nodes, input.downNodes);
      MergedCovers(f.send, f.hashes, Seqs.Filter(Named(input.downNodes), input.nodes));
      var name :| name in input.downNodes;
      if payload != [] {
        assert name in Names(payload) * input.downNodes;
      }
    }
  }

  /** Two rounds have one DOWN hash exactly when the same ports are kept and DOWN, unless an ID contains a comma. */
  lemma RoundHashMeaning(r: Round, r': Round)
    requires forall id :: id in MapPorts(r.query, r.ports).downPortIDs ==> NoComma(id)
    requires forall id :: id in MapPorts(r'.query, r'.ports).downPortIDs ==> NoComma(id)
    ensures InputOf(r).downHash == InputOf(r').downHash <==>
            multiset(MapPorts(r.query, r.ports).downPortIDs) == multiset(MapPorts(r'.query, r'.ports).downPortIDs)
  {
    HashDownMeaning(MapPorts(r.query, r.ports).downPortIDs, MapPorts(r'.query, r'.ports).downPortIDs);
  }

  // ---------- The payload ----------

  /** Why a node is posted: in every state reached from a fresh start with the inventory enabled, for a provider whose
      keys meet no other's, either its config differs from the one last acknowledged, or a requested VM of its name
      keeps a DOWN port and a retry is due or something is sent anyway. */
  lemma WhyPosted(plan: Plan, start: State, es: seq<Event>, r: Round, n: NodeConfig)
    requires Fresh(start) && start.mem.store.Some?
    requires SettledRestarts(plan, start, es) && KeepsApart(es, r.providerID)
    requires n in Step(plan, RunOf(plan, start, es), InputOf(r)).1.payload
    ensures var end := RunOf(plan, start, es);
            || !Acked(end.remote, r.providerID, n)
            || (HasDownVM(r.query, r.ports, r.query.vmIDs, n.nodeName) && SendsDown(plan, end, InputOf(r)))
  {
    var end, input := RunOf(plan, start, es), InputOf(r);
    PayloadExactly(plan, end, input);
    CacheRefinesSimpleRule(plan, start, es, r.providerID, input.nodes, input.now);
    DownNodesMeaning(r.query, r.ports, n.nodeName);
  }

  /** A round posts for its own provider and resource, with its own clock and outcomes: what is acknowledged, recorded
      and reported says so in the round's terms. */
  lemma RoundOutcome(plan: Plan, s: State, r: Round, name: string)
    ensures var (s', report) := Step(plan, s, InputOf(r));
            && (report.reason == NoChange <==> report.payload == [])
            && (report.reason == Synced <==> report.payload != [] && r.postOk)
            && (report.reason != Synced ==> s'.remote == s.remote && s'.lastChange == s.lastChange)
            && (report.reason == Synced ==>
                  && s'.lastChange == s.lastChange[r.stateKey := r.sendTime]
                  && (name in Names(report.payload) ==>
                        (r.providerID, name) in s'.remote
                        && s'.remote[(r.providerID, name)] == LastNamed(report.payload, name)))
            && (report.reason == NoChange && InputOf(r).downHash == NoDown ==>
                  report.requeue == if r.stateKey in s.lastChange && r.polls.window > 0
                                       && r.now - s.lastChange[r.stateKey] <= r.polls.window
                                    then r.polls.fast else r.polls.slow)
            && (report.reason == Synced && InputOf(r).downHash != NoDown && r.statusOk ==>
                  report.status.Some? && report.status.value.lastAttempt == Some(Stored(r.sendTime)))
            && (!r.statusOk ==> report.status == r.status)
  {
    OutcomeMeaning(plan, s, InputOf(r), r.providerID, name);
    RoundIsDownConsistent(r);
    RecordAfterStep(plan, s, InputOf(r));
  }

  /** A well-formed payload entry: 1 to 10 interfaces, strictly ordered by MAC, port ID and address, and
      numbered and named by position. */
  ghost predicate WellFormedNode(n: NodeConfig) {
    && 1 <= |n.interfaces| <= MAX_INTERFACES_PER_NODE
    && (forall i, j :: 0 <= i < j < |n.interfaces| ==> InterfaceBefore(n.interfaces[i], n.interfaces[j]))
    && (forall i :: 0 <= i < |n.interfaces| ==> n.interfaces[i].id == i && n.interfaces[i].name == InterfaceName(i))
  }

  lemma DesiredNodeWellFormed(q: Query, ports: seq<Port>, vm: string)
    requires DistinctIDs(ports) && q.max == MAX_INTERFACES_PER_NODE && HasInterfaces(q.NodeFor(ports, vm))
    ensures WellFormedNode(Normalize(q.NodeFor(ports, vm)))
  {
    var node := q.NodeFor(ports, vm);
    var dropped := TopK(q, ports, vm);
    NodePortIDsDistinct(q, ports, vm);
    NormalFormProperties(node);
    NormalFormIsStrict(node);
    assert |Normalize(node).interfaces| == |node.interfaces|;
  }

  lemma {:induction false} FilterDistinctNames(plan: Plan, mem: Memory, p: string, nodes: seq<NodeConfig>, now: int)
    requires DistinctNames(nodes)
    ensures DistinctNames(FilterChanged(plan, mem, p, nodes, now).send)
  {
    if nodes == [] {
    } else {
      var init, last := nodes[..|nodes| - 1], nodes[|nodes| - 1];
      FilterDistinctNames(plan, mem, p, init, now);
      FilterFromNodes(plan, mem, p, init, now);
      var send := FilterChanged(plan, mem, p, init, now).send;
      forall i | 0 <= i < |send| ensures send[i].nodeName != last.nodeName {
        assert send[i] in send;
        var k :| 0 <= k < |init| && send[i] == Normalize(init[k]);
        assert nodes[k].nodeName != nodes[|nodes| - 1].nodeName;
      }
    }
  }

  lemma {:induction false} MergedDistinctNames(send: seq<NodeConfig>, hashes: map<string, Hash>,
                                               extras: seq<NodeConfig>)
    requires DistinctNames(send)
    ensures DistinctNames(Merged(send, hashes, extras).0)
  {
    if extras == [] {
    } else {
      MergedDistinctNames(send, hashes, extras[..|extras| - 1]);
      var s := Merged(send, hashes, extras[..|extras| - 1]).0;
      forall i | 0 <= i < |s| ensures s[i].nodeName in Names(s) {
      }
    }
  }

  /** On every round, whatever the operator remembers: each posted node is well formed and has a hash,
      the hash of the last config posted under its name; and no two posted nodes share a name when the
      desired ones do not. */
  lemma PayloadWellFormed(plan: Plan, s: State, r: Round)
    requires DistinctIDs(r.ports) && r.query.max == MAX_INTERFACES_PER_NODE
    ensures var (payload, hashes) := PayloadFor(Changed(plan, s, InputOf(r)), InputOf(r));
            && (forall n :: n in payload ==> WellFormedNode(n))
            && HashesMatch(payload, hashes)
            && (DistinctNames(Desired(r.query, r.ports)) ==> DistinctNames(payload))
  {
    var input := InputOf(r);
    var f := Changed(plan, s, input);
    var (payload, hashes) := PayloadFor(f, input);
    PayloadHashesMatch(plan, s, input);
    PayloadFromNodes(plan, s, input);
    forall n | n in payload ensures WellFormedNode(n) {
      var i :| 0 <= i < |input.nodes| && n == Normalize(input.nodes[i]);
      var vm := DesiredIsNodeFor(r.query, r.ports, input.nodes[i]);
      DesiredNodeWellFormed(r.query, r.ports, vm);
    }
    if DistinctNames(input.nodes) {
      FilterDistinctNames(plan, s.mem, input.providerID, input.nodes, input.now);
      MergedDistinctNames(f.send, f.hashes, Seqs.Filter(Named(input.downNodes), input.nodes));
    }
  }

  // ---------- The next wake-up ----------

  /** The resource changed, and not longer ago than the window. */
  predicate RecentlyChanged(s: State, input: Input) {
    && input.stateKey in s.lastChange && input.polls.window > 0
    && input.now - s.lastChange[input.stateKey] <= input.polls.window
  }

  /** A quiet reconcile wakes up after the fast interval when the resource changed recently and after the slow one
      otherwise, or at the next retry deadline when a port is DOWN and that comes first; the delay is positive. */
  lemma QuietWakeUp(plan: Plan, s: State, input: Input)
    requires ValidPolls(input.polls) && DownConsistent(input)
    requires Step(plan, s, input).1.reason == NoChange
    ensures var requeue := Step(plan, s, input).1.requeue;
            var poll := if RecentlyChanged(s, input) then input.polls.fast else input.polls.slow;
            && requeue > 0
            && (input.downHash == NoDown ==> requeue == poll)
            && (input.downHash != NoDown ==>
                  && input.status.Some? && input.status.value.lastAttempt.Some?
                  && var left := Deadline(input.status.value, input.polls) - input.now;
                     requeue == if left < poll then left else poll)
  {
    DownCoverage(plan, s, input);
  }

  /** A new process knows of no change, so while it stays quiet without DOWN ports it polls slowly. */
  lemma QuietAfterRestart(plan: Plan, s: State, input: Input)
    requires ValidPolls(input.polls) && DownConsistent(input) && input.downHash == NoDown
    requires Step(plan, Restarted(s), input).1.reason == NoChange
    ensures Step(plan, Restarted(s), input).1.requeue == input.polls.slow
  {
    QuietWakeUp(plan, Restarted(s), input);
  }

  /** The retry record after every kind of reconcile: dropped once no port is DOWN, advanced to the second of the
      POST when one succeeds whose payload names a down node, and otherwise left alone. */
  lemma RecordAfterAnyStep(plan: Plan, s: State, input: Input)
    ensures var report := Step(plan, s, input).1;
            report.status ==
            if !input.statusOk then input.status
            else if input.downHash == NoDown then None
            else if report.reason == Synced && Names(report.payload) * input.downNodes != {}
            then StoredRetry(NextRetry(input.status, input.downHash, input.sendTime, input.polls))
            else input.status
  {
  }

  /** In a compiled round every payload with a DOWN port around names a down node. */
  lemma RecordAfterStep(plan: Plan, s: State, input: Input)
    requires DownConsistent(input)
    ensures var report := Step(plan, s, input).1;
            report.status ==
            if !input.statusOk then input.status
            else if input.downHash == NoDown then None
            else if report.reason == Synced
            then StoredRetry(NextRetry(input.status, input.downHash, input.sendTime, input.polls))
            else input.status
  {
    RecordAfterAnyStep(plan, s, input);
    DownCoverage(plan, s, input);
  }

  /** A reconcile that sent something wakes up after the fast interval, measured from the POST. The record
      keeps whole seconds, so the recorded deadline can fall a fraction of a second earlier: the wake-up
      passes it exactly when the slack between the two intervals is below that fraction. */
  lemma SyncedWakeUp(plan: Plan, s: State, input: Input)
    requires ValidPolls(input.polls) && DownConsistent(input) && input.statusOk
    requires Step(plan, s, input).1.reason == Synced && input.downHash != NoDown
    ensures var report := Step(plan, s, input).1;
            && report.requeue == input.polls.fast > 0
            && report.status.Some? && report.status.value.lastAttempt.Some?
            && (input.sendTime + report.requeue <= Deadline(report.status.value, input.polls) <==>
                  input.sendTime % SECOND <= IntervalFor(report.status.value, input.polls) - input.polls.fast)
            && input.sendTime + report.requeue < Deadline(report.status.value, input.polls) + SECOND
  {
    DownCoverage(plan, s, input);
  }

  /** Whatever was sent, with DOWN ports or without, a reconcile that succeeded wakes up after the fast interval; one
      whose POST failed after the error interval. */
  lemma SentWakeUp(plan: Plan, s: State, input: Input)
    ensures var report := Step(plan, s, input).1;
            && (report.reason == Synced ==> report.requeue == input.polls.fast)
            && (report.reason == ViolaPostError ==> report.requeue == input.polls.error)
  {
  }

  /** After a reconcile that sent something, a quiet one of the same resource with no DOWN port polls fast
      exactly within the window, and slowly after it. */
  lemma FastWithinWindow(plan: Plan, s: State, first: Input, second: Input)
    requires Step(plan, s, first).1.reason == Synced && second.stateKey == first.stateKey
    requires second.downHash == NoDown && ValidPolls(second.polls)
    requires Step(plan, Step(plan, s, first).0, second).1.reason == NoChange
    ensures Step(plan, Step(plan, s, first).0, second).1.requeue ==
            if 0 < second.polls.window && second.now <= first.sendTime + second.polls.window
            then second.polls.fast else second.polls.slow
  {
  }
}
