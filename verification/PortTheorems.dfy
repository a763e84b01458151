/** What the port compiler promises: the listing order does not matter, and the cap keeps exactly the first
    eligible ports. */
module PortTheorems {
  import opened Wrappers
  import opened Viola
  import opened Subnets
  import opened Ports
  import opened Normalization
  import Seqs
  import Sorting
  import Text

  /** Ports are identified by their ID. */
  ghost predicate IdentifiedByID(ports: seq<Port>) {
    forall a, b :: a in ports && b in ports && a.id == b.id ==> a == b
  }

  lemma OrderSeparates(filters: Filters, ports: seq<Port>)
    requires IdentifiedByID(ports)
    ensures Sorting.Separates(PortOrder(filters), multiset(ports))
  {
    Text.BeforeIsTotalOrder();
  }

  // ---------- Listing order ----------

  lemma KeptOfPermutation(q: Query, ports: seq<Port>, ports': seq<Port>, vm: string)
    requires IdentifiedByID(ports) && multiset(ports) == multiset(ports')
    ensures q.KeptOf(ports, vm) == q.KeptOf(ports', vm)
  {
    var filters := ByID(q.filters);
    Seqs.FilterOfPermutation(OnDevice(vm), ports, ports');
    PortOrderIsStrict(filters);
    OrderSeparates(filters, PortsOf(vm, ports));
    Sorting.SortOfPermutation(PortOrder(filters), PortsOf(vm, ports), PortsOf(vm, ports'));
  }

  /** Neutron may list the ports in any order: nodes, interfaces, down nodes and down-port IDs are
      the same. */
  lemma ListingOrderIrrelevant(q: Query, ports: seq<Port>, ports': seq<Port>)
    requires IdentifiedByID(ports) && multiset(ports) == multiset(ports')
    ensures MapPorts(q, ports) == MapPorts(q, ports')
  {
    var vms := Unique(q.vmIDs);
    forall vm ensures NodeOn(q, ports)(vm) == NodeOn(q, ports')(vm)
      ensures DownOn(q, ports)(vm) == DownOn(q, ports')(vm)
    {
      KeptOfPermutation(q, ports, ports', vm);
    }
    assert Seqs.Map(NodeOn(q, ports), vms) == Seqs.Map(NodeOn(q, ports'), vms);
    assert Seqs.Map(DownOn(q, ports), vms) == Seqs.Map(DownOn(q, ports'), vms);
    CollectedMeaning(NodeOn(q, ports), DownOn(q, ports), vms);
    CollectedMeaning(NodeOn(q, ports'), DownOn(q, ports'), vms);
  }

  // ---------- The cap ----------

  function EligibleOf(q: Query, ports: seq<Port>, vm: string): seq<Port> {
    Seqs.Filter(Eligible(ByID(q.filters)), PortsOf(vm, ports))
  }

  /** Filtering a sorted list leaves a sorted permutation of the filtered list. */
  lemma FilteredSorted(filters: Filters, ok: Port -> bool, list: seq<Port>)
    ensures multiset(Seqs.Filter(ok, Sorted(filters, list))) == multiset(Seqs.Filter(ok, list))
    ensures |Seqs.Filter(ok, Sorted(filters, list))| == |Seqs.Filter(ok, list)|
    ensures Sorting.Sorted(PortOrder(filters), Seqs.Filter(ok, Sorted(filters, list)))
  {
    var less, sorted := PortOrder(filters), Sorted(filters, list);
    PortOrderIsStrict(filters);
    Sorting.SortCorrect(less, list);
    Seqs.FilterOfPermutation(ok, sorted, list);
    var e := Seqs.Filter(ok, sorted);
    assert |e| == |multiset(e)| == |multiset(Seqs.Filter(ok, list))| == |Seqs.Filter(ok, list)|;
    var rel := (a, b) => !PortBefore(filters, b, a);
    forall i, j | 0 <= i < j < |sorted| ensures rel(sorted[i], sorted[j]) {
      assert !less(sorted[j], sorted[i]);
    }
    Seqs.FilterKeepsPairs(ok, sorted, rel);
    forall i, j | 0 <= i < j < |e| ensures !less(e[j], e[i]) {
      assert rel(e[i], e[j]);
    }
  }

  /** The ports a VM keeps are the first min(cap, eligible) of its eligible ports in sort order: kept and dropped
      ports together are the eligible ones, each listing entry used at most once, and no dropped port comes before
      a kept one. */
  lemma TopK(q: Query, ports: seq<Port>, vm: string) returns (dropped: seq<Port>)
    ensures var kept, eligible := q.KeptOf(ports, vm), EligibleOf(q, ports, vm);
            && |kept| == (if 0 < q.max < |eligible| then q.max else |eligible|)
            && multiset(kept) + multiset(dropped) == multiset(eligible)
            && Sorting.Sorted(PortOrder(ByID(q.filters)), kept)
            && NonePrecedes(ByID(q.filters), dropped, kept)
  {
    var filters, list := ByID(q.filters), PortsOf(vm, ports);
    FilteredSorted(filters, Eligible(filters), list);
    dropped := CutAt(filters, Seqs.Filter(Eligible(filters), Sorted(filters, list)), |q.KeptOf(ports, vm)|);
  }

  /** None of the dropped ports comes before a kept one. */
  ghost predicate NonePrecedes(filters: Filters, dropped: seq<Port>, kept: seq<Port>) {
    forall i, j :: 0 <= i < |kept| && 0 <= j < |dropped| ==> !PortBefore(filters, dropped[j], kept[i])
  }

  lemma CutAt(filters: Filters, e: seq<Port>, n: nat) returns (dropped: seq<Port>)
    requires n <= |e| && Sorting.Sorted(PortOrder(filters), e)
    ensures Sorting.Sorted(PortOrder(filters), e[..n]) && NonePrecedes(filters, dropped, e[..n])
    ensures multiset(e[..n]) + multiset(dropped) == multiset(e)
  {
    dropped := e[n..];
    assert e == e[..n] + dropped;
    forall i, j | 0 <= i < n && 0 <= j < |dropped| ensures !PortBefore(filters, dropped[j], e[..n][i]) {
      assert !PortOrder(filters)(e[n + j], e[i]);
    }
  }

  /** What an interface takes from the port itself. */
  predicate TakenFrom(p: Port, iface: NodeInterface) {
    && iface.portID == p.id && iface.mac == p.mac && iface.networkID == p.networkID && iface.deviceID == p.deviceID
    && iface.deviceName == ""
  }

  /** What an interface takes from the address that was picked. */
  predicate TakenFromPick(pick: Pick, iface: NodeInterface) {
    && iface.address == pick.address && iface.cidr == pick.cidr && iface.mtu == pick.mtu
    && iface.subnetID == pick.subnetID
  }

  /** A node's interfaces are those of the ports its VM keeps, in their order and numbered and named by position. */
  lemma InterfacesAreKept(q: Query, ports: seq<Port>, vm: string)
    ensures var n, kept := q.NodeFor(ports, vm), q.KeptOf(ports, vm);
            && |n.interfaces| == |kept|
            && forall i :: 0 <= i < |kept| ==>
                 && n.interfaces[i].id == i && n.interfaces[i].name == InterfaceName(i)
                 && TakenFrom(kept[i], n.interfaces[i])
                 && PickFor(ByID(q.filters), kept[i]).Some?
                 && TakenFromPick(PickFor(ByID(q.filters), kept[i]).value, n.interfaces[i])
  {
    var kept := q.KeptOf(ports, vm);
    forall i | 0 <= i < |kept| ensures PickFor(ByID(q.filters), kept[i]).Some? {
      assert kept[i] in kept;
      assert Eligible(ByID(q.filters))(kept[i]);
    }
  }

  /** Kept ports come by place of their subnet, then MAC, then port ID, then network. */
  lemma KeptOrder(q: Query, ports: seq<Port>, vm: string, i: nat, j: nat)
    requires i < j < |q.KeptOf(ports, vm)|
    ensures var a, b := q.KeptOf(ports, vm)[i], q.KeptOf(ports, vm)[j];
            var orderA, orderB := OrderForPort(ByID(q.filters), a), OrderForPort(ByID(q.filters), b);
            && orderA <= orderB
            && (orderA == orderB ==> !Text.Before(b.mac, a.mac))
            && (orderA == orderB && a.mac == b.mac ==> !Text.Before(b.id, a.id))
            && (orderA == orderB && a.mac == b.mac && a.id == b.id ==> !Text.Before(b.networkID, a.networkID))
  {
    var dropped := TopK(q, ports, vm);
    Text.BeforeIsTotalOrder();
    assert !PortOrder(ByID(q.filters))(q.KeptOf(ports, vm)[j], q.KeptOf(ports, vm)[i]);
  }

  /** The eligible ports of a VM, said without the model's own lists: the listing entries on that
      device whose address selection succeeds, with the same multiplicity. */
  lemma EligibleMeaning(q: Query, ports: seq<Port>, vm: string, p: Port)
    ensures multiset(EligibleOf(q, ports, vm))[p] ==
            if p.deviceID == vm && PickFor(ByID(q.filters), p).Some? then multiset(ports)[p] else 0
  {
    Seqs.FilterCounts(Eligible(ByID(q.filters)), PortsOf(vm, ports), p);
    Seqs.FilterCounts(OnDevice(vm), ports, p);
  }

  /** What a port contributes. With subnets configured, a port takes part exactly when one of its addresses lies
      in a configured subnet and the first-listed such subnet has no other network; it then posts its first
      address of that subnet with the subnet's CIDR and MTU. With none, every port takes part with its first
      address. */
  lemma PickMeaning(filters: seq<SubnetFilter>, p: Port)
    requires WellFormed(filters)
    ensures var pick := PickFor(ByID(filters), p);
            if filters == [] then pick == Some(if p.fixedIPs == [] then Pick("", "", 0, "")
                                               else Pick(p.fixedIPs[0].ip, "", 0, p.fixedIPs[0].subnetID))
            else pick.Some? <==> exists i: nat, k: nat :: FirstChoice(filters, p.fixedIPs, i, k)
                                   && (filters[k].networkID == "" || filters[k].networkID == p.networkID)
    ensures filters != [] && PickFor(ByID(filters), p).Some? ==>
              forall i: nat, k: nat :: FirstChoice(filters, p.fixedIPs, i, k) ==>
                PickFor(ByID(filters), p).value
                == Pick(p.fixedIPs[i].ip, filters[k].cidr, filters[k].mtu, filters[k].id)
  {
    ByIDSize(filters);
    if filters != [] {
      BestMatchMeaning(ByID(filters), p.fixedIPs);
      forall i: nat, k: nat | FirstChoice(filters, p.fixedIPs, i, k)
        ensures BestMatch(ByID(filters), p.fixedIPs) == Some(Match(p.fixedIPs[i], filters[k]))
      {
        FirstChoiceIsBest(filters, p.fixedIPs, i, k);
      }
      if BestMatch(ByID(filters), p.fixedIPs).Some? {
        var i, k := BestIsFirstChoice(filters, p.fixedIPs);
      }
    }
  }

  /** Address `i` lies in configured subnet `k`; no address lies in an earlier one, and no earlier address in
      this one. */
  ghost predicate FirstChoice(filters: seq<SubnetFilter>, fips: seq<FixedIP>, i: nat, k: nat) {
    && i < |fips| && k < |filters| && fips[i].subnetID == filters[k].id
    && (forall j, m :: 0 <= j < |fips| && 0 <= m < k ==> fips[j].subnetID != filters[m].id)
    && (forall j :: 0 <= j < i ==> fips[j].subnetID != filters[k].id)
  }

  lemma FirstChoiceIsBest(filters: seq<SubnetFilter>, fips: seq<FixedIP>, i: nat, k: nat)
    requires WellFormed(filters) && FirstChoice(filters, fips, i, k)
    ensures BestMatch(ByID(filters), fips) == Some(Match(fips[i], filters[k]))
  {
    var byID := ByID(filters);
    BestMatchMeaning(byID, fips);
    ByIDSize(filters);
    ByIDLookup(filters, k);
    assert Improves(byID, fips[i], |byID| + 1);
    var b: nat :| FirstOfMinimalOrder(byID, fips, b)
      && BestMatch(byID, fips).value == Match(fips[b], byID[fips[b].subnetID]);
    ByIDKeys(filters, fips[b].subnetID);
    var m :| 0 <= m < |filters| && filters[m].id == fips[b].subnetID;
    ByIDLookup(filters, m);
    assert m == k;
    assert b == i;
  }

  lemma BestIsFirstChoice(filters: seq<SubnetFilter>, fips: seq<FixedIP>) returns (i: nat, k: nat)
    requires WellFormed(filters) && BestMatch(ByID(filters), fips).Some?
    ensures FirstChoice(filters, fips, i, k) && BestMatch(ByID(filters), fips) == Some(Match(fips[i], filters[k]))
  {
    var byID := ByID(filters);
    BestMatchMeaning(byID, fips);
    i :| FirstOfMinimalOrder(byID, fips, i) && BestMatch(byID, fips).value == Match(fips[i], byID[fips[i].subnetID]);
    ByIDKeys(filters, fips[i].subnetID);
    k :| 0 <= k < |filters| && filters[k].id == fips[i].subnetID;
    ByIDLookup(filters, k);
    forall j, m | 0 <= j < |fips| && 0 <= m < k ensures fips[j].subnetID != filters[m].id {
      ByIDLookup(filters, m);
    }
  }

  /** The address part of an interface. With subnets configured it is the port's first address in the first-listed
      subnet it lies in, with that subnet's CIDR and MTU; with none, the port's first address. */
  ghost predicate AddressedBy(filters: seq<SubnetFilter>, fips: seq<FixedIP>, iface: NodeInterface) {
    if filters == [] then
      && iface.cidr == "" && iface.mtu == 0
      && if fips == [] then iface.address == "" && iface.subnetID == ""
         else iface.address == fips[0].ip && iface.subnetID == fips[0].subnetID
    else
      exists i: nat, k: nat :: FirstChoice(filters, fips, i, k)
        && iface.address == fips[i].ip && iface.cidr == filters[k].cidr && iface.mtu == filters[k].mtu
        && iface.subnetID == filters[k].id
  }

  lemma PickAddresses(filters: seq<SubnetFilter>, p: Port, iface: NodeInterface)
    requires WellFormed(filters) && PickFor(ByID(filters), p).Some?
    requires TakenFromPick(PickFor(ByID(filters), p).value, iface)
    ensures AddressedBy(filters, p.fixedIPs, iface)
  {
    PickMeaning(filters, p);
    if filters != [] {
      var i: nat, k: nat :| FirstChoice(filters, p.fixedIPs, i, k)
        && (filters[k].networkID == "" || filters[k].networkID == p.networkID);
    }
  }

  /** The interface is the port's: its own fields, and the address that the subnets select. */
  ghost predicate InterfaceOf(filters: seq<SubnetFilter>, p: Port, iface: NodeInterface) {
    TakenFrom(p, iface) && AddressedBy(filters, p.fixedIPs, iface)
  }

  /** Interface i of a node is that of kept port i, with ID i and the name for i. */
  lemma InterfacesCarryPorts(q: Query, ports: seq<Port>, vm: string)
    requires WellFormed(q.filters)
    ensures var ifaces, kept := q.NodeFor(ports, vm).interfaces, q.KeptOf(ports, vm);
            && |ifaces| == |kept|
            && forall i :: 0 <= i < |kept| ==>
                 ifaces[i].id == i && ifaces[i].name == InterfaceName(i) && InterfaceOf(q.filters, kept[i], ifaces[i])
  {
    InterfacesAreKept(q, ports, vm);
    var ifaces, kept := q.NodeFor(ports, vm).interfaces, q.KeptOf(ports, vm);
    forall i | 0 <= i < |kept| ensures InterfaceOf(q.filters, kept[i], ifaces[i]) {
      PickAddresses(q.filters, kept[i], ifaces[i]);
    }
  }

  lemma BareKeepsPort(filters: seq<SubnetFilter>, p: Port, iface: NodeInterface, iface': NodeInterface)
    requires InterfaceOf(filters, p, iface) && Bare(iface) == Bare(iface')
    ensures InterfaceOf(filters, p, iface')
  {
    assert iface'.address == Bare(iface).address && iface'.cidr == Bare(iface).cidr && iface'.mtu == Bare(iface).mtu;
    assert iface'.subnetID == Bare(iface).subnetID && iface'.mac == Bare(iface).mac;
    assert iface'.portID == Bare(iface).portID && iface'.networkID == Bare(iface).networkID;
    assert iface'.deviceID == Bare(iface).deviceID && iface'.deviceName == Bare(iface).deviceName;
  }

  lemma SameBare(node: NodeConfig, j: nat) returns (i: nat)
    requires j < |Normalize(node).interfaces|
    ensures i < |node.interfaces| && Bare(node.interfaces[i]) == Bare(Normalize(node).interfaces[j])
  {
    NormalFormProperties(node);
    i := Seqs.FindSame(BareAll(Normalize(node).interfaces), BareAll(node.interfaces), j);
  }

  lemma SameNormalized(node: NodeConfig, i: nat) returns (j: nat)
    requires i < |node.interfaces|
    ensures j < |Normalize(node).interfaces| && Bare(node.interfaces[i]) == Bare(Normalize(node).interfaces[j])
  {
    NormalFormProperties(node);
    j := Seqs.FindSame(BareAll(node.interfaces), BareAll(Normalize(node).interfaces), i);
  }

  ghost predicate OfSome(filters: seq<SubnetFilter>, kept: seq<Port>, iface: NodeInterface) {
    exists p :: p in kept && InterfaceOf(filters, p, iface)
  }

  ghost predicate HasInterface(filters: seq<SubnetFilter>, p: Port, posted: seq<NodeInterface>) {
    exists iface :: iface in posted && InterfaceOf(filters, p, iface)
  }

  /** The interfaces are those of these ports: as many, each for one of the ports and one for each of them, numbered
      and named by their place. */
  ghost predicate CarriesPorts(filters: seq<SubnetFilter>, kept: seq<Port>, posted: seq<NodeInterface>) {
    && |posted| == |kept|
    && (forall j :: 0 <= j < |posted| ==> posted[j].id == j && posted[j].name == InterfaceName(j))
    && (forall iface :: iface in posted ==> OfSome(filters, kept, iface))
    && (forall p :: p in kept ==> HasInterface(filters, p, posted))
  }

  /** The interface at each position is that of the port there. */
  ghost predicate Matched(filters: seq<SubnetFilter>, kept: seq<Port>, ifaces: seq<NodeInterface>) {
    |ifaces| == |kept| && forall i :: 0 <= i < |kept| ==> InterfaceOf(filters, kept[i], ifaces[i])
  }

  lemma PostedFrom(filters: seq<SubnetFilter>, kept: seq<Port>, node: NodeConfig, iface: NodeInterface)
    requires Matched(filters, kept, node.interfaces) && iface in Normalize(node).interfaces
    ensures OfSome(filters, kept, iface)
  {
    var posted := Normalize(node).interfaces;
    var j :| 0 <= j < |posted| && posted[j] == iface;
    var i := SameBare(node, j);
    BareKeepsPort(filters, kept[i], node.interfaces[i], iface);
    assert kept[i] in kept;
  }

  lemma PostedFor(filters: seq<SubnetFilter>, kept: seq<Port>, node: NodeConfig, p: Port)
    requires Matched(filters, kept, node.interfaces) && p in kept
    ensures HasInterface(filters, p, Normalize(node).interfaces)
  {
    var i :| 0 <= i < |kept| && kept[i] == p;
    var j := SameNormalized(node, i);
    BareKeepsPort(filters, p, node.interfaces[i], Normalize(node).interfaces[j]);
    assert Normalize(node).interfaces[j] in Normalize(node).interfaces;
  }

  lemma NormalizedCarries(filters: seq<SubnetFilter>, kept: seq<Port>, node: NodeConfig)
    requires Matched(filters, kept, node.interfaces)
    ensures CarriesPorts(filters, kept, Normalize(node).interfaces)
  {
    NormalFormProperties(node);
    forall iface | iface in Normalize(node).interfaces ensures OfSome(filters, kept, iface) {
      PostedFrom(filters, kept, node, iface);
    }
    forall p | p in kept ensures HasInterface(filters, p, Normalize(node).interfaces) {
      PostedFor(filters, kept, node, p);
    }
  }

  /** The posted interfaces are those of the kept ports, in their posted order. */
  lemma PostedCarryPorts(q: Query, ports: seq<Port>, vm: string)
    requires WellFormed(q.filters)
    ensures CarriesPorts(q.filters, q.KeptOf(ports, vm), Normalize(q.NodeFor(ports, vm)).interfaces)
  {
    InterfacesCarryPorts(q, ports, vm);
    NormalizedCarries(q.filters, q.KeptOf(ports, vm), q.NodeFor(ports, vm));
  }

  /** A node is named after its VM: the trimmed name Nova gives it, or its ID when that is missing or blank. */
  lemma NodeNameMeaning(q: Query, ports: seq<Port>, vm: string)
    ensures var node := q.NodeFor(ports, vm);
            && node.instanceID == vm
            && (vm in q.nodeNames && Text.TrimSpace(q.nodeNames[vm]) != "" ==>
                  node.nodeName == Text.TrimSpace(q.nodeNames[vm]))
            && (vm !in q.nodeNames || Text.TrimSpace(q.nodeNames[vm]) == "" ==> node.nodeName == vm)
  {
    Text.TrimMeaning("", Text.SPACE);
  }

  lemma KeptAreListed(q: Query, ports: seq<Port>, vm: string)
    ensures forall p :: p in q.KeptOf(ports, vm) ==> p in ports && p.deviceID == vm
    ensures multiset(q.KeptOf(ports, vm)) <= multiset(ports)
  {
    var dropped := TopK(q, ports, vm);
    forall p ensures multiset(q.KeptOf(ports, vm))[p] <= multiset(ports)[p]
      ensures p in q.KeptOf(ports, vm) ==> p in ports && p.deviceID == vm
    {
      EligibleMeaning(q, ports, vm, p);
      if p in q.KeptOf(ports, vm) {
        assert p in multiset(q.KeptOf(ports, vm));
        assert p in multiset(ports);
      }
    }
  }

  ghost predicate DistinctIDs(ports: seq<Port>) {
    Seqs.Distinct(Seqs.Map(ID, ports))
  }

  lemma KeptIDsDistinct(q: Query, ports: seq<Port>, vm: string, i: nat, j: nat)
    requires DistinctIDs(ports) && i < j < |q.KeptOf(ports, vm)|
    ensures q.KeptOf(ports, vm)[i].id != q.KeptOf(ports, vm)[j].id
  {
    var kept := q.KeptOf(ports, vm);
    KeptAreListed(q, ports, vm);
    DistinctFromKeys(ports);
    assert kept[i] in kept && kept[j] in kept;
    Seqs.DistinctCounts(ports, kept[i]);
    if kept[i] == kept[j] {
      Seqs.RepeatCounts(kept, i, j);
      assert false;
    }
  }

  /** With distinct port IDs, the interfaces of one node have distinct port IDs. */
  lemma NodePortIDsDistinct(q: Query, ports: seq<Port>, vm: string)
    requires DistinctIDs(ports)
    ensures Seqs.Distinct(Seqs.Map(PORT_ID, q.NodeFor(ports, vm).interfaces))
  {
    var kept := q.KeptOf(ports, vm);
    var ids := Seqs.Map(PORT_ID, q.NodeFor(ports, vm).interfaces);
    forall i, j | 0 <= i < j < |ids| ensures ids[i] != ids[j] {
      KeptIDsDistinct(q, ports, vm, i, j);
      assert ids[i] == kept[i].id && ids[j] == kept[j].id;
    }
  }

  lemma DistinctFromKeys(ports: seq<Port>)
    requires DistinctIDs(ports)
    ensures Seqs.Distinct(ports) && IdentifiedByID(ports)
  {
  }

  // ---------- The mapping as a whole ----------

  lemma DownNamesMeaning(nodes: seq<NodeConfig>, downs: seq<seq<string>>)
    requires |nodes| == |downs|
    ensures DownNames(nodes, downs) == {} <==> Seqs.Flatten(downs) == []
  {
    Seqs.FlattenEmpty(downs);
    if i :| 0 <= i < |downs| && downs[i] != [] {
      assert nodes[i].nodeName in DownNames(nodes, downs);
    }
  }

  lemma DownIDsMeaning(kept: seq<Port>, id: string)
    ensures id in DownIDs(kept) <==> exists p :: p in kept && IsPortDown(p.status) && p.id == id
  {
    var down := Seqs.Filter(DOWN, kept);
    if id in DownIDs(kept) {
      var i :| 0 <= i < |down| && DownIDs(kept)[i] == id;
      assert down[i] in down;
      assert down[i] in kept && IsPortDown(down[i].status);
    }
    if p :| p in kept && IsPortDown(p.status) && p.id == id {
      Seqs.FilterMember(DOWN, kept, p);
      var i :| 0 <= i < |down| && down[i] == p;
      assert DownIDs(kept)[i] == id;
    }
  }

  /** The VM keeps a port whose status is DOWN. */
  ghost predicate KeepsDownPort(q: Query, ports: seq<Port>, vm: string) {
    exists p :: p in q.KeptOf(ports, vm) && IsPortDown(p.status)
  }

  lemma DownIDsEmpty(kept: seq<Port>)
    ensures DownIDs(kept) != [] <==> exists p :: p in kept && IsPortDown(p.status)
  {
    if DownIDs(kept) != [] {
      DownIDsMeaning(kept, DownIDs(kept)[0]);
    }
    if p :| p in kept && IsPortDown(p.status) {
      DownIDsMeaning(kept, p.id);
    }
  }

  /** The VM has this name and keeps a DOWN port. */
  ghost predicate IsDownVM(q: Query, ports: seq<Port>, vm: string, name: string) {
    q.NameOf(vm) == name && KeepsDownPort(q, ports, vm)
  }

  ghost predicate HasDownVM(q: Query, ports: seq<Port>, vms: seq<string>, name: string) {
    exists vm :: vm in vms && IsDownVM(q, ports, vm, name)
  }

  lemma DownVMAt(q: Query, ports: seq<Port>, vm: string, name: string)
    ensures DownOn(q, ports)(vm) != [] && NodeOn(q, ports)(vm).nodeName == name <==> IsDownVM(q, ports, vm, name)
  {
    OnVM(q, ports, vm);
    DownIDsEmpty(q.KeptOf(ports, vm));
  }

  ghost predicate NamesDown(node: string -> NodeConfig, down: string -> seq<string>, vms: seq<string>, name: string) {
    exists vm :: vm in vms && down(vm) != [] && node(vm).nodeName == name
  }

  lemma {:induction false} CollectedDown(node: string -> NodeConfig, down: string -> seq<string>, vms: seq<string>,
                                         name: string)
    ensures name in Collected(node, down, vms).downNodes <==> NamesDown(node, down, vms, name)
  {
    if vms == [] {
    } else {
      var init, vm := vms[..|vms| - 1], vms[|vms| - 1];
      CollectedDown(node, down, init, name);
      assert vms == init + [vm];
    }
  }

  /** A name is down exactly when a requested VM of that name keeps a DOWN port. */
  lemma DownNodesMeaning(q: Query, ports: seq<Port>, name: string)
    ensures name in MapPorts(q, ports).downNodes <==> HasDownVM(q, ports, q.vmIDs, name)
  {
    CollectedDown(NodeOn(q, ports), DownOn(q, ports), Unique(q.vmIDs), name);
    forall vm
      ensures DownOn(q, ports)(vm) != [] && NodeOn(q, ports)(vm).nodeName == name <==> IsDownVM(q, ports, vm, name)
    {
      DownVMAt(q, ports, vm, name);
    }
  }

  ghost predicate Reports(down: string -> seq<string>, vmIDs: seq<string>, id: string) {
    exists vm :: vm in vmIDs && id in down(vm)
  }

  lemma ReportedByUnique(down: string -> seq<string>, vmIDs: seq<string>, id: string)
    ensures id in Seqs.Flatten(Seqs.Map(down, Unique(vmIDs))) <==> Reports(down, vmIDs, id)
  {
    var vms := Unique(vmIDs);
    var downs := Seqs.Map(down, vms);
    Seqs.FlattenMembers(downs, id);
    if vm :| vm in vmIDs && id in down(vm) {
      assert vm in vms;
      var i :| 0 <= i < |vms| && vms[i] == vm;
      assert id in downs[i];
    }
    if i :| 0 <= i < |downs| && id in downs[i] {
      assert vms[i] in vms;
    }
  }

  /** The DOWN-port list holds exactly the IDs that some VM reports; `DownIDsMeaning` says which those are. */
  lemma DownPortsMeaning(q: Query, ports: seq<Port>, id: string)
    ensures id in MapPorts(q, ports).downPortIDs <==> Reports(DownOn(q, ports), q.vmIDs, id)
    ensures forall vm :: DownOn(q, ports)(vm) == DownIDs(q.KeptOf(ports, vm))
  {
    CollectedMeaning(NodeOn(q, ports), DownOn(q, ports), Unique(q.vmIDs));
    ReportedByUnique(DownOn(q, ports), q.vmIDs, id);
  }

  /** Every name is the name of one of the nodes. */
  ghost predicate AllNamed(names: set<string>, nodes: seq<NodeConfig>) {
    forall name :: name in names ==> exists i :: 0 <= i < |nodes| && nodes[i].nodeName == name
  }

  lemma DownNamesAreNamed(nodes: seq<NodeConfig>, downs: seq<seq<string>>)
    requires |nodes| == |downs|
    requires forall i :: 0 <= i < |nodes| && downs[i] != [] ==> HasInterfaces(nodes[i])
    ensures AllNamed(DownNames(nodes, downs), Seqs.Filter(HAS_INTERFACES, nodes))
  {
    var r := Seqs.Filter(HAS_INTERFACES, nodes);
    forall name | name in DownNames(nodes, downs) ensures exists i :: 0 <= i < |r| && r[i].nodeName == name {
      var i :| 0 <= i < |nodes| && downs[i] != [] && nodes[i].nodeName == name;
      Seqs.FilterCounts(HAS_INTERFACES, nodes, nodes[i]);
      assert nodes[i] in multiset(r);
      var k :| 0 <= k < |r| && r[k] == nodes[i];
    }
  }

  lemma InstancesDistinct(nodes: seq<NodeConfig>)
    requires DistinctInstances(nodes)
    ensures DistinctInstances(Seqs.Filter(HAS_INTERFACES, nodes))
  {
    var rel := (a: NodeConfig, b: NodeConfig) => a.instanceID != b.instanceID;
    Seqs.FilterKeepsPairs(HAS_INTERFACES, nodes, rel);
    var r := Seqs.Filter(HAS_INTERFACES, nodes);
    forall i, j | 0 <= i < j < |r| ensures r[i].instanceID != r[j].instanceID {
      assert rel(r[i], r[j]);
    }
  }

  lemma MappedNodes(q: Query, ports: seq<Port>, vms: seq<string>)
    requires forall i, j :: 0 <= i < j < |vms| ==> vms[i] != vms[j]
    ensures DistinctInstances(Seqs.Map(NodeOn(q, ports), vms))
    ensures forall i :: 0 <= i < |vms| && Seqs.Map(DownOn(q, ports), vms)[i] != [] ==>
                          HasInterfaces(Seqs.Map(NodeOn(q, ports), vms)[i])
  {
  }

  /** Desired nodes belong to distinct VMs. Every down name is the name of a desired node, and the
      down-port list is empty exactly when no name is down. */
  lemma MappingMeaning(q: Query, ports: seq<Port>)
    ensures DistinctInstances(Desired(q, ports))
    ensures AllNamed(MapPorts(q, ports).downNodes, Desired(q, ports))
    ensures MapPorts(q, ports).downNodes == {} <==> MapPorts(q, ports).downPortIDs == []
  {
    var vms := Unique(q.vmIDs);
    CollectedMeaning(NodeOn(q, ports), DownOn(q, ports), vms);
    MappedNodes(q, ports, vms);
    InstancesDistinct(Seqs.Map(NodeOn(q, ports), vms));
    DownNamesMeaning(Seqs.Map(NodeOn(q, ports), vms), Seqs.Map(DownOn(q, ports), vms));
    DownNamesAreNamed(Seqs.Map(NodeOn(q, ports), vms), Seqs.Map(DownOn(q, ports), vms));
  }
}
