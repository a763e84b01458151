/** Compiling a Neutron port listing into one node config per VM. */
module Ports {
  import opened Wrappers
  import opened Viola
  import opened Subnets
  import Seqs
  import Sorting
  import Text

  const MAX_INTERFACES_PER_NODE := 10

  datatype Port = Port(id: string, networkID: string, mac: string, deviceID: string, status: string,
                       fixedIPs: seq<FixedIP>)

  // ---------- One port ----------

  function OrderForPort(filters: Filters, p: Port): int {
    if |filters| == 0 then 0 else LowestOrder(filters, p.fixedIPs)
  }

  predicate PortBefore(filters: Filters, a: Port, b: Port) {
    if OrderForPort(filters, a) != OrderForPort(filters, b) then OrderForPort(filters, a) < OrderForPort(filters, b)
    else if a.mac != b.mac then Text.Before(a.mac, b.mac)
    else if a.id != b.id then Text.Before(a.id, b.id)
    else Text.Before(a.networkID, b.networkID)
  }

  function PortOrder(filters: Filters): (Port, Port) -> bool {
    (a, b) => PortBefore(filters, a, b)
  }

  lemma PortOrderIsStrict(filters: Filters)
    ensures Sorting.StrictWeakOrder(PortOrder(filters))
  {
    Text.BeforeIsTotalOrder();
  }

  /** The address fields a port contributes. */
  datatype Pick = Pick(address: string, cidr: string, mtu: int, subnetID: string)

  /** What a port contributes; `None` when the subnet filters skip it. */
  function PickFor(filters: Filters, p: Port): Option<Pick> {
    if |filters| > 0 then
      match BestMatch(filters, p.fixedIPs)
      case None => None
      case Some(m) =>
        if m.filter.networkID != "" && p.networkID != m.filter.networkID then None
        else Some(Pick(m.fip.ip, m.filter.cidr, m.filter.mtu, m.fip.subnetID))
    else if p.fixedIPs == [] then Some(Pick("", "", 0, ""))
    else Some(Pick(p.fixedIPs[0].ip, "", 0, p.fixedIPs[0].subnetID))
  }

  function Eligible(filters: Filters): Port -> bool {
    p => PickFor(filters, p).Some?
  }

  function InterfaceFrom(p: Port, pick: Pick, i: nat): NodeInterface {
    NodeInterface(i, p.id, InterfaceName(i), p.mac, pick.address, pick.cidr, pick.mtu, p.deviceID, p.networkID,
                  pick.subnetID, "")
  }

  function InterfaceFor(filters: Filters, p: Port, i: nat): NodeInterface {
    InterfaceFrom(p, PickFor(filters, p).GetOr(Pick("", "", 0, "")), i)
  }

  predicate FoldsTo(c: char, lower: char, upper: char) {
    c == lower || c == upper
  }

  /** Case-insensitive comparison with "DOWN"; only ASCII letters fold to its four letters. */
  predicate EqualFoldDown(s: string) {
    |s| == 4 && FoldsTo(s[0], 'd', 'D') && FoldsTo(s[1], 'o', 'O') && FoldsTo(s[2], 'w', 'W') && FoldsTo(s[3], 'n', 'N')
  }

  /** Spelled out: each letter is that of "DOWN" or of "down". */
  lemma FoldedSpelled(s: string)
    ensures EqualFoldDown(s) <==> |s| == |"DOWN"| && forall i :: 0 <= i < |s| ==> s[i] == "DOWN"[i] || s[i] == "down"[i]
  {
    assert |s| == 4 ==>
        ((forall i :: 0 <= i < |s| ==> s[i] == "DOWN"[i] || s[i] == "down"[i]) <==>
         forall i :: i in {0, 1, 2, 3} ==> s[i] == "DOWN"[i] || s[i] == "down"[i]);
  }

  predicate IsPortDown(status: string) {
    EqualFoldDown(Text.TrimSpace(status))
  }

  /** A status is DOWN exactly when it reads "down" in any case with nothing but white space around it. */
  lemma PortDownMeaning(status: string)
    ensures IsPortDown(status) <==>
            exists i: nat, j: nat :: i <= j <= |status| && EqualFoldDown(status[i..j])
              && (forall k :: 0 <= k < i || j <= k < |status| ==> Text.IsSpace(status[k]))
  {
    Text.TrimMeaning(status, Text.SPACE);
    if i: nat, j: nat :| i <= j <= |status| && EqualFoldDown(status[i..j])
                         && (forall k :: 0 <= k < i || j <= k < |status| ==> Text.IsSpace(status[k])) {
      assert status[i..j][0] == status[i] && status[i..j][3] == status[j - 1];
      Text.TrimUnique(status, Text.SPACE, i, j);
    }
  }

  const DOWN: Port -> bool := (p: Port) => IsPortDown(p.status)
  const ID: Port -> string := (p: Port) => p.id

  // ---------- One VM ----------

  function OnDevice(vm: string): Port -> bool {
    (p: Port) => p.deviceID == vm
  }

  function PortsOf(vm: string, ports: seq<Port>): seq<Port> {
    Seqs.Filter(OnDevice(vm), ports)
  }

  function Sorted(filters: Filters, list: seq<Port>): seq<Port> {
    Sorting.Sort(PortOrder(filters), list)
  }

  /** The first `max` eligible ports in sort order; all of them when `max` is not positive. */
  function Kept(filters: Filters, max: int, list: seq<Port>): seq<Port> {
    var eligible := Seqs.Filter(Eligible(filters), Sorted(filters, list));
    if 0 < max < |eligible| then eligible[..max] else eligible
  }

  function InterfacesOf(filters: Filters, kept: seq<Port>): (r: seq<NodeInterface>)
    ensures |r| == |kept| && forall i :: 0 <= i < |kept| ==> r[i] == InterfaceFor(filters, kept[i], i)
  {
    seq(|kept|, i requires 0 <= i < |kept| => InterfaceFor(filters, kept[i], i))
  }

  function DownIDs(kept: seq<Port>): seq<string> {
    Seqs.Map(ID, Seqs.Filter(DOWN, kept))
  }

  method SelectAddress(filters: Filters, p: Port) returns (pick: Option<Pick>)
    ensures pick == PickFor(filters, p)
  {
    var address, cidr, mtu := "", "", 0;
    var subnetID := if p.fixedIPs == [] then "" else p.fixedIPs[0].subnetID;
    if |filters| > 0 {
      var m := SelectFixedIPByFilters(p.fixedIPs, filters);
      if m.None? {
        return None;
      }
      if m.value.filter.networkID != "" && p.networkID != m.value.filter.networkID {
        return None;
      }
      address := m.value.fip.ip;
      subnetID := m.value.fip.subnetID;
      cidr := m.value.filter.cidr;
      mtu := m.value.filter.mtu;
    } else if |p.fixedIPs| > 0 {
      address := p.fixedIPs[0].ip;
    }
    pick := Some(Pick(address, cidr, mtu, subnetID));
  }

  lemma TakeInterface(filters: Filters, taken: seq<Port>, p: Port)
    ensures InterfacesOf(filters, taken + [p]) == InterfacesOf(filters, taken) + [InterfaceFor(filters, p, |taken|)]
  {
  }

  lemma TakeDown(taken: seq<Port>, p: Port)
    ensures DownIDs(taken + [p]) == if IsPortDown(p.status) then DownIDs(taken) + [p.id] else DownIDs(taken)
  {
  }

  /** What a walk over ports in the given order collects, skipping those the filters reject. */
  function Walk(filters: Filters, list: seq<Port>): (seq<NodeInterface>, seq<string>) {
    if list == [] then ([], [])
    else
      var (ifaces, down) := Walk(filters, list[..|list| - 1]);
      var p := list[|list| - 1];
      match PickFor(filters, p)
      case None => (ifaces, down)
      case Some(pick) =>
        (ifaces + [InterfaceFrom(p, pick, |ifaces|)], if IsPortDown(p.status) then down + [p.id] else down)
  }

  lemma WalkSnoc(filters: Filters, list: seq<Port>, i: nat)
    requires i < |list|
    ensures var (ifaces, down) := Walk(filters, list[..i]);
            var pick := PickFor(filters, list[i]);
            Walk(filters, list[..i + 1]) ==
            if pick.None? then (ifaces, down)
            else (ifaces + [InterfaceFrom(list[i], pick.value, |ifaces|)],
                  if IsPortDown(list[i].status) then down + [list[i].id] else down)
  {
    assert list[..i + 1][..i] == list[..i];
  }

  lemma {:induction false} WalkMeaning(filters: Filters, list: seq<Port>)
    ensures Walk(filters, list).0 == InterfacesOf(filters, Seqs.Filter(Eligible(filters), list))
    ensures Walk(filters, list).1 == DownIDs(Seqs.Filter(Eligible(filters), list))
  {
    if list == [] {
    } else {
      var init, last := list[..|list| - 1], list[|list| - 1];
      WalkMeaning(filters, init);
      TakeInterface(filters, Seqs.Filter(Eligible(filters), init), last);
      TakeDown(Seqs.Filter(Eligible(filters), init), last);
    }
  }

  lemma KeptIsPrefix(filters: Filters, max: int, list: seq<Port>, i: nat)
    requires i <= |list|
    requires var n := |Seqs.Filter(Eligible(filters), Sorted(filters, list)[..i])|;
             (max > 0 ==> n <= max) && (i == |list| || (max > 0 && n == max))
    ensures Kept(filters, max, list) == Seqs.Filter(Eligible(filters), Sorted(filters, list)[..i])
  {
    Seqs.FilterPrefix(Eligible(filters), Sorted(filters, list), i);
    assert Sorted(filters, list)[..|list|] == Sorted(filters, list);
  }

  /** A walk that stops at the end or at the cap has kept exactly the ports it should. */
  lemma WalkedIsKept(filters: Filters, max: int, list: seq<Port>, i: nat)
    requires i <= |list|
    requires var n := |Walk(filters, Sorted(filters, list)[..i]).0|;
             (max > 0 ==> n <= max) && (i == |list| || (max > 0 && n == max))
    ensures Walk(filters, Sorted(filters, list)[..i]) ==
            (InterfacesOf(filters, Kept(filters, max, list)), DownIDs(Kept(filters, max, list)))
  {
    WalkMeaning(filters, Sorted(filters, list)[..i]);
    KeptIsPrefix(filters, max, list, i);
  }

  /** Sorts one VM's ports, then walks them, skipping what the filters reject and stopping at the cap. */
  method CompileVM(filters: Filters, max: int, list: seq<Port>)
    returns (ifaces: seq<NodeInterface>, downPortIDs: seq<string>)
    ensures ifaces == InterfacesOf(filters, Kept(filters, max, list))
    ensures downPortIDs == DownIDs(Kept(filters, max, list))
  {
    var sorted := Sorting.SortCopy(PortOrder(filters), list);
    var i: nat;
    ifaces, downPortIDs, i := WalkToCap(filters, max, sorted);
    WalkedIsKept(filters, max, list, i);
  }

  method WalkToCap(filters: Filters, max: int, sorted: seq<Port>)
    returns (ifaces: seq<NodeInterface>, downPortIDs: seq<string>, i: nat)
    ensures i <= |sorted| && (ifaces, downPortIDs) == Walk(filters, sorted[..i])
    ensures max > 0 ==> |ifaces| <= max
    ensures i == |sorted| || (max > 0 && |ifaces| == max)
  {
    ifaces, downPortIDs, i := [], [], 0;
    while i < |sorted|
      invariant i <= |sorted| && (ifaces, downPortIDs) == Walk(filters, sorted[..i])
      invariant max > 0 ==> |ifaces| <= max
    {
      if max > 0 && |ifaces| >= max {
        break;
      }
      var p := sorted[i];
      WalkSnoc(filters, sorted, i);
      i := i + 1;
      var pick := SelectAddress(filters, p);
      if pick.None? {
        continue;
      }
      if IsPortDown(p.status) {
        downPortIDs := downPortIDs + [p.id];
      }
      ifaces := ifaces + [InterfaceFrom(p, pick.value, |ifaces|)];
    }
  }

  // ---------- The whole listing ----------

  /** What the operator asks for: VM IDs, their node names, subnet filters and the interface cap. */
  datatype Query = Query(vmIDs: seq<string>, nodeNames: map<string, string>, filters: seq<SubnetFilter>, max: int)
  {
    function NameOf(vm: string): string {
      var mapped := Text.TrimSpace(if vm in nodeNames then nodeNames[vm] else "");
      if mapped != "" then mapped else vm
    }

    function KeptOf(ports: seq<Port>, vm: string): seq<Port> {
      Kept(ByID(filters), max, PortsOf(vm, ports))
    }

    function NodeFor(ports: seq<Port>, vm: string): NodeConfig {
      NodeConfig(NameOf(vm), vm, InterfacesOf(ByID(filters), KeptOf(ports, vm)))
    }
  }

  datatype Mapping = Mapping(nodes: seq<NodeConfig>, downNodes: set<string>, downPortIDs: seq<string>)

  function NodeOn(q: Query, ports: seq<Port>): string -> NodeConfig {
    vm => q.NodeFor(ports, vm)
  }

  /** The IDs of the DOWN ports a VM keeps. */
  function DownOn(q: Query, ports: seq<Port>): string -> seq<string> {
    vm => DownIDs(q.KeptOf(ports, vm))
  }

  function DownNames(nodes: seq<NodeConfig>, downs: seq<seq<string>>): set<string>
    requires |nodes| == |downs|
  {
    set i | 0 <= i < |nodes| && downs[i] != [] :: nodes[i].nodeName
  }

  /** The mapping of a list of VMs, given each VM's node and DOWN ports. */
  function Collected(node: string -> NodeConfig, down: string -> seq<string>, vms: seq<string>): Mapping {
    if vms == [] then Mapping([], {}, [])
    else
      var rest := Collected(node, down, vms[..|vms| - 1]);
      var n, d := node(vms[|vms| - 1]), down(vms[|vms| - 1]);
      Mapping(rest.nodes + [n], rest.downNodes + (if d != [] then {n.nodeName} else {}), rest.downPortIDs + d)
  }

  lemma {:induction false} CollectedMeaning(node: string -> NodeConfig, down: string -> seq<string>, vms: seq<string>)
    ensures var nodes, downs := Seqs.Map(node, vms), Seqs.Map(down, vms);
            Collected(node, down, vms) == Mapping(nodes, DownNames(nodes, downs), Seqs.Flatten(downs))
  {
    if vms == [] {
    } else {
      var i := |vms| - 1;
      var nodes, downs := Seqs.Map(node, vms[..i]), Seqs.Map(down, vms[..i]);
      CollectedMeaning(node, down, vms[..i]);
      assert vms[..i + 1] == vms;
      Seqs.MapSnoc(node, vms, i);
      Seqs.MapSnoc(down, vms, i);
      DownNamesSnoc(nodes, downs, node(vms[i]), down(vms[i]));
      assert (downs + [down(vms[i])])[..|downs|] == downs;
    }
  }

  lemma CollectedSnoc(node: string -> NodeConfig, down: string -> seq<string>, vms: seq<string>, i: nat)
    requires i < |vms|
    ensures var rest, n, d := Collected(node, down, vms[..i]), node(vms[i]), down(vms[i]);
            Collected(node, down, vms[..i + 1]) ==
            Mapping(rest.nodes + [n], rest.downNodes + (if d != [] then {n.nodeName} else {}), rest.downPortIDs + d)
  {
    assert vms[..i + 1][..i] == vms[..i];
  }

  lemma DownNamesSnoc(nodes: seq<NodeConfig>, downs: seq<seq<string>>, node: NodeConfig, down: seq<string>)
    requires |nodes| == |downs|
    ensures DownNames(nodes + [node], downs + [down]) ==
            DownNames(nodes, downs) + if down != [] then {node.nodeName} else {}
  {
    var nodes', downs' := nodes + [node], downs + [down];
    assert forall i :: 0 <= i < |nodes| ==> nodes'[i] == nodes[i] && downs'[i] == downs[i];
    assert nodes'[|nodes|] == node && downs'[|nodes|] == down;
  }

  function MapPorts(q: Query, ports: seq<Port>): Mapping {
    Collected(NodeOn(q, ports), DownOn(q, ports), Unique(q.vmIDs))
  }

  /** Groups the listing by VM, keeping listing order inside each group. */
  method GroupPorts(vms: seq<string>, ports: seq<Port>) returns (nodePorts: map<string, seq<Port>>)
    ensures forall vm :: vm in vms ==>
              (if vm in nodePorts then nodePorts[vm] else []) == PortsOf(vm, ports)
  {
    var vmSet := set vm | vm in vms;
    nodePorts := map[];
    for i := 0 to |ports|
      invariant forall vm :: vm in vms ==>
                  (if vm in nodePorts then nodePorts[vm] else []) == PortsOf(vm, ports[..i])
    {
      var p := ports[i];
      forall vm | vm in vms
        ensures PortsOf(vm, ports[..i + 1]) ==
                if p.deviceID == vm then PortsOf(vm, ports[..i]) + [p] else PortsOf(vm, ports[..i])
      {
        Seqs.FilterSnoc(OnDevice(vm), ports, i);
      }
      if p.deviceID !in vmSet {
        continue;
      }
      var list := if p.deviceID in nodePorts then nodePorts[p.deviceID] else [];
      nodePorts := nodePorts[p.deviceID := list + [p]];
    }
    assert ports[..|ports|] == ports;
  }

  /** What the two functions say of a VM is its node and its DOWN ports. */
  ghost predicate CompilesAt(q: Query, ports: seq<Port>, nodeOf: string -> NodeConfig, downOf: string -> seq<string>,
                             vm: string)
  {
    nodeOf(vm) == q.NodeFor(ports, vm) && downOf(vm) == DownIDs(q.KeptOf(ports, vm))
  }

  ghost predicate Compiles(q: Query, ports: seq<Port>, nodeOf: string -> NodeConfig, downOf: string -> seq<string>) {
    forall vm :: CompilesAt(q, ports, nodeOf, downOf, vm)
  }

  method CompileNode(q: Query, filters: Filters, vm: string, list: seq<Port>, ghost ports: seq<Port>)
    returns (node: NodeConfig, downPortIDs: seq<string>)
    requires filters == ByID(q.filters) && list == PortsOf(vm, ports)
    ensures node == q.NodeFor(ports, vm)
    ensures downPortIDs == DownIDs(q.KeptOf(ports, vm))
  {
    var nodeName := vm;
    var mapped := Text.TrimSpace(if vm in q.nodeNames then q.nodeNames[vm] else "");
    if mapped != "" {
      nodeName := mapped;
    }
    var ifaces, down := CompileVM(filters, q.max, list);
    node, downPortIDs := NodeConfig(nodeName, vm, ifaces), down;
  }

  lemma OnVM(q: Query, ports: seq<Port>, vm: string)
    ensures NodeOn(q, ports)(vm) == q.NodeFor(ports, vm)
    ensures DownOn(q, ports)(vm) == DownIDs(q.KeptOf(ports, vm))
  {
  }

  lemma MappingCompiles(q: Query, ports: seq<Port>)
    ensures Compiles(q, ports, NodeOn(q, ports), DownOn(q, ports))
  {
    forall vm ensures CompilesAt(q, ports, NodeOn(q, ports), DownOn(q, ports), vm) {
      OnVM(q, ports, vm);
    }
  }

  method MapPortsToNodes(q: Query, ports: seq<Port>) returns (m: Mapping)
    ensures m == MapPorts(q, ports)
  {
    var uniqueVMs := UniqueList(q.vmIDs);
    var nodePorts := GroupPorts(uniqueVMs, ports);
    var filters := IndexFilters(q.filters);
    MappingCompiles(q, ports);
    m := CompileNodes(q, filters, uniqueVMs, nodePorts, ports, NodeOn(q, ports), DownOn(q, ports));
  }

  method CompileNodes(q: Query, filters: Filters, vms: seq<string>, nodePorts: map<string, seq<Port>>,
                      ghost ports: seq<Port>, ghost nodeOf: string -> NodeConfig, ghost downOf: string -> seq<string>)
    returns (m: Mapping)
    requires filters == ByID(q.filters) && Compiles(q, ports, nodeOf, downOf)
    requires forall vm :: vm in vms ==> (if vm in nodePorts then nodePorts[vm] else []) == PortsOf(vm, ports)
    ensures m == Collected(nodeOf, downOf, vms)
  {
    var nodes: seq<NodeConfig> := [];
    var downNodes: set<string> := {};
    var downPortIDs: seq<string> := [];
    for i := 0 to |vms|
      invariant Mapping(nodes, downNodes, downPortIDs) == Collected(nodeOf, downOf, vms[..i])
    {
      assert CompilesAt(q, ports, nodeOf, downOf, vms[i]);
      CollectedSnoc(nodeOf, downOf, vms, i);
      var list := if vms[i] in nodePorts then nodePorts[vms[i]] else [];
      var node, down := CompileNode(q, filters, vms[i], list, ports);
      downNodes := downNodes + (if down != [] then {node.nodeName} else {});
      nodes := nodes + [node];
      downPortIDs := downPortIDs + down;
    }
    assert vms[..|vms|] == vms;
    m := Mapping(nodes, downNodes, downPortIDs);
  }

  predicate HasInterfaces(node: NodeConfig) {
    node.interfaces != []
  }

  const HAS_INTERFACES: NodeConfig -> bool := (node: NodeConfig) => HasInterfaces(node)

  method FilterNodesWithInterfaces(nodes: seq<NodeConfig>) returns (out: seq<NodeConfig>)
    ensures out == Seqs.Filter(HAS_INTERFACES, nodes)
  {
    out := [];
    for i := 0 to |nodes|
      invariant out == Seqs.Filter(HAS_INTERFACES, nodes[..i])
    {
      Seqs.FilterSnoc(HAS_INTERFACES, nodes, i);
      if |nodes[i].interfaces| == 0 {
        continue;
      }
      out := out + [nodes[i]];
    }
    assert nodes[..|nodes|] == nodes;
  }

  /** The nodes a reconcile wants in place. */
  function Desired(q: Query, ports: seq<Port>): seq<NodeConfig> {
    Seqs.Filter(HAS_INTERFACES, MapPorts(q, ports).nodes)
  }
}
