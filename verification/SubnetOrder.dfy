/** When the order of the configured subnets matters: exactly which VMs have one normalized config under every
    order. */
module SubnetOrder {
  import opened Normalization
  import opened PortTheorems
  import opened Ports
  import opened Subnets
  import opened Viola
  import Seqs
  import Sorting

  /** The same subnets, renumbered. */
  ghost predicate Renumbered(f: Filters, g: Filters) {
    && f.Keys == g.Keys
    && (forall id :: id in f ==> g[id] == f[id].(order := g[id].order))
    && (forall id :: id in f ==> f[id].order <= |f| && g[id].order <= |g|)
  }

  /** The same subnets, listed in another order. */
  ghost predicate Reordered(f: seq<SubnetFilter>, g: seq<SubnetFilter>) {
    WellFormed(f) && WellFormed(g) && Renumbered(ByID(f), ByID(g))
  }

  /** Whatever the order of the subnets, the VM's normalized config is the same. */
  ghost predicate SameInEveryOrder(q: Query, ports: seq<Port>, vm: string) {
    forall g :: Reordered(q.filters, g) ==>
      Normalize(q.(filters := g).NodeFor(ports, vm)) == Normalize(q.NodeFor(ports, vm))
  }

  predicate LiesIn(p: Port, id: string) {
    exists i :: 0 <= i < |p.fixedIPs| && p.fixedIPs[i].subnetID == id
  }

  /** The port has an address in this configured subnet, and the subnet has no other network. */
  predicate AcceptedIn(f: Filters, p: Port, id: string) {
    id in f && LiesIn(p, id) && (f[id].networkID == "" || f[id].networkID == p.networkID)
  }

  /** The port takes part under some order. */
  predicate Accepted(f: Filters, p: Port) {
    exists id :: id in f && AcceptedIn(f, p, id)
  }

  function AcceptedBy(f: Filters): Port -> bool {
    p => Accepted(f, p)
  }

  function AcceptedOf(q: Query, ports: seq<Port>, vm: string): seq<Port> {
    Seqs.Filter(AcceptedBy(ByID(q.filters)), PortsOf(vm, ports))
  }

  /** All of the port's addresses that lie in configured subnets lie in the same one. */
  ghost predicate OneSubnet(f: Filters, p: Port) {
    forall id, id' :: id in f && id' in f && LiesIn(p, id) && LiesIn(p, id') ==> id == id'
  }

  /** Each port that some subnet accepts lies in one configured subnet. */
  ghost predicate EachLiesInOne(q: Query, ports: seq<Port>, vm: string) {
    forall p :: p in PortsOf(vm, ports) && Accepted(ByID(q.filters), p) ==> OneSubnet(ByID(q.filters), p)
  }

  // ---------- What one order decides ----------

  lemma RenumberedSize(f: Filters, g: Filters)
    requires Renumbered(f, g)
    ensures |f| == |g|
  {
    assert |f| == |f.Keys| == |g.Keys| == |g|;
  }

  /** The address a port posts lies in a configured subnet that accepts the port, and decides its place. */
  lemma PickedSubnet(f: Filters, p: Port)
    requires |f| > 0 && PickFor(f, p).Some?
    ensures var id := PickFor(f, p).value.subnetID;
            AcceptedIn(f, p, id) && OrderForPort(f, p) == f[id].order
  {
    BestMatchMeaning(f, p.fixedIPs);
    var m := BestMatch(f, p.fixedIPs).value;
    var i: nat :| FirstOfMinimalOrder(f, p.fixedIPs, i) && m == Match(p.fixedIPs[i], f[p.fixedIPs[i].subnetID]);
    assert LiesIn(p, m.fip.subnetID);
  }

  /** A port that no other configured subnet touches posts its address in this one, if that accepts it. */
  lemma PickedFromOnly(f: Filters, p: Port, id: string)
    requires AcceptedIn(f, p, id) && OneSubnet(f, p) && f[id].order <= |f|
    ensures PickFor(f, p).Some? && PickFor(f, p).value.subnetID == id
  {
    BestMatchMeaning(f, p.fixedIPs);
    var k :| 0 <= k < |p.fixedIPs| && p.fixedIPs[k].subnetID == id;
    assert Improves(f, p.fixedIPs[k], |f| + 1);
    var m := BestMatch(f, p.fixedIPs).value;
    var i: nat :| FirstOfMinimalOrder(f, p.fixedIPs, i) && m == Match(p.fixedIPs[i], f[p.fixedIPs[i].subnetID]);
    assert LiesIn(p, m.fip.subnetID);
  }

  /** This subnet comes first. */
  ghost predicate Leads(f: Filters, id: string) {
    && id in f && f[id].order == 0
    && (forall other :: other in f && other != id ==> 0 < f[other].order <= |f|)
  }

  /** The leading subnet decides about every port that touches it. */
  lemma LeaderDecides(f: Filters, p: Port, id: string)
    requires Leads(f, id)
    ensures LiesIn(p, id) <==> OrderForPort(f, p) <= 0
    ensures LiesIn(p, id) ==> (PickFor(f, p).Some? <==> AcceptedIn(f, p, id))
    ensures LiesIn(p, id) && PickFor(f, p).Some? ==> PickFor(f, p).value.subnetID == id
  {
    BestMatchMeaning(f, p.fixedIPs);
    if LiesIn(p, id) {
      var k :| 0 <= k < |p.fixedIPs| && p.fixedIPs[k].subnetID == id;
      assert Improves(f, p.fixedIPs[k], |f| + 1);
    }
    if BestMatch(f, p.fixedIPs).Some? {
      var m := BestMatch(f, p.fixedIPs).value;
      var i: nat :| FirstOfMinimalOrder(f, p.fixedIPs, i) && m == Match(p.fixedIPs[i], f[p.fixedIPs[i].subnetID]);
      assert LiesIn(p, m.fip.subnetID);
    }
  }

  /** Filters that agree on everything but the order, both numbered by position. */
  lemma SameSubnets(f: seq<SubnetFilter>, g: seq<SubnetFilter>)
    requires WellFormed(f) && WellFormed(g)
    requires forall id :: Configured(f, id) <==> Configured(g, id)
    requires forall i, j :: 0 <= i < |f| && 0 <= j < |g| && f[i].id == g[j].id ==> g[j] == f[i].(order := j)
    ensures Reordered(f, g)
  {
    ByIDSize(f);
    ByIDSize(g);
    forall id ensures id in ByID(f) <==> id in ByID(g)
      ensures id in ByID(f) ==> ByID(g)[id] == ByID(f)[id].(order := ByID(g)[id].order)
      ensures id in ByID(f) ==> ByID(f)[id].order <= |ByID(f)| && ByID(g)[id].order <= |ByID(g)|
    {
      ByIDKeys(f, id);
      ByIDKeys(g, id);
      if id in ByID(f) {
        var i :| 0 <= i < |f| && f[i].id == id;
        var j :| 0 <= j < |g| && g[j].id == id;
        ByIDLookup(f, i);
        ByIDLookup(g, j);
      }
    }
  }

  /** The filters are what Neutron answers for their own IDs, in order. */
  ghost predicate Resolved(neutron: Neutron, f: seq<SubnetFilter>) {
    forall i :: 0 <= i < |f| ==> f[i].id in neutron.subnets && f[i] == neutron.FilterFor(f[i].id, i)
  }

  /** The reorderings of resolved filters are exactly the filters resolved from the same subnet IDs in another
      order. */
  lemma PermutedSubnetIDs(neutron: Neutron, f: seq<SubnetFilter>, g: seq<SubnetFilter>)
    requires WellFormed(f) && WellFormed(g) && Resolved(neutron, f)
    ensures Reordered(f, g) <==> Resolved(neutron, g) && forall id :: Configured(f, id) <==> Configured(g, id)
  {
    if Reordered(f, g) {
      forall id ensures Configured(f, id) <==> Configured(g, id) {
        ByIDKeys(f, id);
        ByIDKeys(g, id);
      }
      forall j | 0 <= j < |g| ensures g[j].id in neutron.subnets && g[j] == neutron.FilterFor(g[j].id, j) {
        ByIDLookup(g, j);
        ByIDKeys(f, g[j].id);
        var i :| 0 <= i < |f| && f[i].id == g[j].id;
        ByIDLookup(f, i);
      }
    }
    if Resolved(neutron, g) && forall id :: Configured(f, id) <==> Configured(g, id) {
      SameSubnets(f, g);
    }
  }

  /** The filters with the `k`th and the first exchanged. */
  function Led(f: seq<SubnetFilter>, k: nat): (g: seq<SubnetFilter>)
    requires k < |f|
  {
    f[0 := f[k].(order := 0)][k := f[0].(order := k)]
  }

  lemma LedIsReordered(f: seq<SubnetFilter>, k: nat)
    requires WellFormed(f) && k < |f|
    ensures Reordered(f, Led(f, k)) && Leads(ByID(Led(f, k)), f[k].id)
  {
    var g := Led(f, k);
    forall id ensures Configured(f, id) <==> Configured(g, id) {
      if i :| 0 <= i < |f| && f[i].id == id {
        assert g[if i == 0 then k else if i == k then 0 else i].id == id;
      }
      if i :| 0 <= i < |g| && g[i].id == id {
        assert f[if i == 0 then k else if i == k then 0 else i].id == id;
      }
    }
    SameSubnets(f, g);
    ByIDLookup(g, 0);
    ByIDSize(g);
    forall other | other in ByID(g) && other != f[k].id ensures 0 < ByID(g)[other].order <= |ByID(g)| {
      ByIDKeys(g, other);
      var j :| 0 <= j < |g| && g[j].id == other;
      ByIDLookup(g, j);
    }
  }

  /** Some order lets a given configured subnet lead. */
  lemma LetLead(q: Query, id: string) returns (q': Query)
    requires WellFormed(q.filters) && id in ByID(q.filters)
    ensures Reordered(q.filters, q'.filters) && q' == q.(filters := q'.filters) && Leads(ByID(q'.filters), id)
  {
    ByIDKeys(q.filters, id);
    var k :| 0 <= k < |q.filters| && q.filters[k].id == id;
    LedIsReordered(q.filters, k);
    q' := q.(filters := Led(q.filters, k));
  }

  // ---------- One config under every order ----------

  function PostedBy(q: Query, ports: seq<Port>, vm: string): seq<NodeInterface> {
    BareAll(q.NodeFor(ports, vm).interfaces)
  }

  lemma PostedAt(q: Query, ports: seq<Port>, vm: string, i: nat)
    requires i < |q.KeptOf(ports, vm)|
    ensures |PostedBy(q, ports, vm)| == |q.KeptOf(ports, vm)|
    ensures var p, iface := q.KeptOf(ports, vm)[i], PostedBy(q, ports, vm)[i];
            && p in ports && PickFor(ByID(q.filters), p).Some?
            && iface.portID == p.id && iface.subnetID == PickFor(ByID(q.filters), p).value.subnetID
  {
    var kept := q.KeptOf(ports, vm);
    KeptAreListed(q, ports, vm);
    assert kept[i] in kept;
    assert Eligible(ByID(q.filters))(kept[i]);
  }

  lemma SamePosted(q: Query, q': Query, ports: seq<Port>, vm: string)
    requires Normalize(q.NodeFor(ports, vm)) == Normalize(q'.NodeFor(ports, vm))
    ensures multiset(PostedBy(q, ports, vm)) == multiset(PostedBy(q', ports, vm))
  {
    NormalFormProperties(q.NodeFor(ports, vm));
    NormalFormProperties(q'.NodeFor(ports, vm));
  }

  /** Nodes with one normalized config have interfaces for the same ports, with the same subnets. */
  lemma SameConfigSamePort(q: Query, q': Query, ports: seq<Port>, vm: string, p: Port)
    requires DistinctIDs(ports) && p in q.KeptOf(ports, vm)
    requires Normalize(q.NodeFor(ports, vm)) == Normalize(q'.NodeFor(ports, vm))
    ensures p in q'.KeptOf(ports, vm) && PickFor(ByID(q.filters), p).Some? && PickFor(ByID(q'.filters), p).Some?
    ensures PickFor(ByID(q.filters), p).value.subnetID == PickFor(ByID(q'.filters), p).value.subnetID
  {
    var i :| 0 <= i < |q.KeptOf(ports, vm)| && q.KeptOf(ports, vm)[i] == p;
    PostedAt(q, ports, vm, i);
    SamePosted(q, q', ports, vm);
    var j := Seqs.FindSame(PostedBy(q, ports, vm), PostedBy(q', ports, vm), i);
    InterfacesAreKept(q', ports, vm);
    PostedAt(q', ports, vm, j);
    DistinctFromKeys(ports);
  }

  /** A port that takes part is dropped only at the cap, and only behind every kept port. */
  lemma DroppedWaits(q: Query, ports: seq<Port>, vm: string, p: Port)
    requires p in EligibleOf(q, ports, vm) && p !in q.KeptOf(ports, vm)
    ensures 0 < q.max < |EligibleOf(q, ports, vm)| && |q.KeptOf(ports, vm)| == q.max
    ensures forall r :: r in q.KeptOf(ports, vm) ==>
              OrderForPort(ByID(q.filters), r) <= OrderForPort(ByID(q.filters), p)
  {
    var dropped := TopK(q, ports, vm);
    var kept := q.KeptOf(ports, vm);
    assert p in multiset(EligibleOf(q, ports, vm)) && p !in multiset(kept);
    assert p in multiset(dropped);
    var j :| 0 <= j < |dropped| && dropped[j] == p;
    if !(0 < q.max < |EligibleOf(q, ports, vm)|) {
      Seqs.NothingLeftOver(kept, dropped, EligibleOf(q, ports, vm));
      assert false;
    }
    forall r | r in kept ensures OrderForPort(ByID(q.filters), r) <= OrderForPort(ByID(q.filters), p) {
      var i :| 0 <= i < |kept| && kept[i] == r;
      assert !PortBefore(ByID(q.filters), dropped[j], kept[i]);
    }
  }

  /** A kept port posts its address in every configured subnet it lies in. */
  lemma KeptLiesThere(q: Query, ports: seq<Port>, vm: string, p: Port, id: string)
    requires WellFormed(q.filters) && DistinctIDs(ports) && SameInEveryOrder(q, ports, vm)
    requires p in q.KeptOf(ports, vm) && id in ByID(q.filters) && LiesIn(p, id)
    ensures PickFor(ByID(q.filters), p).Some? && PickFor(ByID(q.filters), p).value.subnetID == id
  {
    var q' := LetLead(q, id);
    SameConfigSamePort(q, q', ports, vm, p);
    LeaderDecides(ByID(q'.filters), p, id);
  }

  /** So it lies in one only. */
  lemma KeptLieInOne(q: Query, ports: seq<Port>, vm: string, p: Port)
    requires WellFormed(q.filters) && DistinctIDs(ports) && SameInEveryOrder(q, ports, vm)
    requires p in q.KeptOf(ports, vm)
    ensures OneSubnet(ByID(q.filters), p)
  {
    var f := ByID(q.filters);
    forall id, id' | id in f && id' in f && LiesIn(p, id) && LiesIn(p, id') ensures id == id' {
      KeptLiesThere(q, ports, vm, p, id);
      KeptLiesThere(q, ports, vm, p, id');
    }
  }

  lemma EligibleWhenLed(q: Query, ports: seq<Port>, vm: string, p: Port, id: string)
    requires p in PortsOf(vm, ports) && AcceptedIn(ByID(q.filters), p, id)
    requires Leads(ByID(q.filters), id)
    ensures p in EligibleOf(q, ports, vm)
  {
    LeaderDecides(ByID(q.filters), p, id);
    Seqs.FilterMember(Eligible(ByID(q.filters)), PortsOf(vm, ports), p);
  }

  /** When an accepted port is dropped, the cap is in force and every kept port lies in that port's subnet. */
  lemma DroppedFillsSubnet(q: Query, ports: seq<Port>, vm: string, p: Port, id: string)
    requires WellFormed(q.filters) && DistinctIDs(ports) && SameInEveryOrder(q, ports, vm)
    requires p in PortsOf(vm, ports) && AcceptedIn(ByID(q.filters), p, id) && p !in q.KeptOf(ports, vm)
    ensures 0 < q.max < |AcceptedOf(q, ports, vm)| && q.KeptOf(ports, vm) != []
    ensures forall r :: r in q.KeptOf(ports, vm) ==> LiesIn(r, id)
  {
    var q' := LetLead(q, id);
    EligibleWhenLed(q', ports, vm, p, id);
    if p in q'.KeptOf(ports, vm) {
      SameConfigSamePort(q', q, ports, vm, p);
    }
    DroppedWaits(q', ports, vm, p);
    LeaderDecides(ByID(q'.filters), p, id);
    EligibleAreAccepted(q', ports, vm);
    AcceptedInAnyOrder(q, q', ports, vm);
    InterfacesAreKept(q, ports, vm);
    InterfacesAreKept(q', ports, vm);
    assert |Normalize(q.NodeFor(ports, vm)).interfaces| == |Normalize(q'.NodeFor(ports, vm)).interfaces|;
    forall r | r in q.KeptOf(ports, vm) ensures LiesIn(r, id) {
      SameConfigSamePort(q, q', ports, vm, r);
      LeaderDecides(ByID(q'.filters), r, id);
    }
  }

  lemma AcceptedInAnyOrder(q: Query, q': Query, ports: seq<Port>, vm: string)
    requires Renumbered(ByID(q.filters), ByID(q'.filters))
    ensures AcceptedOf(q, ports, vm) == AcceptedOf(q', ports, vm)
  {
    var f, g := ByID(q.filters), ByID(q'.filters);
    forall p ensures AcceptedBy(f)(p) == AcceptedBy(g)(p) {
      assert forall id :: AcceptedIn(f, p, id) == AcceptedIn(g, p, id);
    }
    Seqs.FilterAgree(AcceptedBy(f), AcceptedBy(g), PortsOf(vm, ports));
  }

  /** With subnets configured, the ports that take part are among the accepted ones. */
  lemma EligibleAreAccepted(q: Query, ports: seq<Port>, vm: string)
    requires |ByID(q.filters)| > 0
    ensures Seqs.Filter(Eligible(ByID(q.filters)), AcceptedOf(q, ports, vm)) == EligibleOf(q, ports, vm)
    ensures |EligibleOf(q, ports, vm)| <= |AcceptedOf(q, ports, vm)|
  {
    var f := ByID(q.filters);
    forall p | p in PortsOf(vm, ports) && Eligible(f)(p) ensures AcceptedBy(f)(p) {
      PickedSubnet(f, p);
    }
    Seqs.FilterTwice(Eligible(f), AcceptedBy(f), PortsOf(vm, ports));
  }

  // ---------- Renumbering ----------

  /** A port that lies in one configured subnet, or in none that accepts it, contributes the same under every
      order. */
  lemma RenumberedPick(f: Filters, g: Filters, p: Port)
    requires Renumbered(f, g) && (Accepted(f, p) ==> OneSubnet(f, p))
    ensures PickFor(f, p) == PickFor(g, p)
  {
    RenumberedSize(f, g);
    if |f| == 0 {
    } else if Accepted(f, p) {
      OneSubnetPick(f, g, p);
    } else {
      if PickFor(f, p).Some? {
        PickedSubnet(f, p);
      }
      if PickFor(g, p).Some? {
        PickedSubnet(g, p);
        assert AcceptedIn(f, p, PickFor(g, p).value.subnetID);
      }
    }
  }

  lemma OneSubnetPick(f: Filters, g: Filters, p: Port)
    requires Renumbered(f, g) && |f| == |g| > 0 && Accepted(f, p) && OneSubnet(f, p)
    ensures PickFor(f, p) == PickFor(g, p)
  {
    var id :| id in f && AcceptedIn(f, p, id);
    assert AcceptedIn(g, p, id) && OneSubnet(g, p);
    PickedFromOnly(f, p, id);
    PickedFromOnly(g, p, id);
    var fips := p.fixedIPs;
    BestMatchMeaning(f, fips);
    BestMatchMeaning(g, fips);
    var m, m' := BestMatch(f, fips).value, BestMatch(g, fips).value;
    var i: nat :| FirstOfMinimalOrder(f, fips, i) && m == Match(fips[i], f[fips[i].subnetID]);
    var j: nat :| FirstOfMinimalOrder(g, fips, j) && m' == Match(fips[j], g[fips[j].subnetID]);
    assert i == j;
  }

  function BareInterface(filters: Filters): Port -> NodeInterface {
    p => Bare(InterfaceFor(filters, p, 0))
  }

  lemma BareInterfacesOf(filters: Filters, kept: seq<Port>)
    ensures BareAll(InterfacesOf(filters, kept)) == Seqs.Map(BareInterface(filters), kept)
  {
  }

  lemma KeptBareOfRenumbered(q: Query, q': Query, ports: seq<Port>, vm: string)
    requires forall p :: p in PortsOf(vm, ports) ==> PickFor(ByID(q.filters), p) == PickFor(ByID(q'.filters), p)
    requires multiset(q.KeptOf(ports, vm)) == multiset(q'.KeptOf(ports, vm))
    requires forall p :: p in q'.KeptOf(ports, vm) ==> p in PortsOf(vm, ports)
    ensures multiset(PostedBy(q, ports, vm)) == multiset(PostedBy(q', ports, vm))
  {
    var f, g := ByID(q.filters), ByID(q'.filters);
    var kept, kept' := q.KeptOf(ports, vm), q'.KeptOf(ports, vm);
    Seqs.MapOfPermutation(BareInterface(f), kept, kept');
    forall i | 0 <= i < |kept'| ensures BareInterface(f)(kept'[i]) == BareInterface(g)(kept'[i]) {
      assert kept'[i] in kept';
    }
    assert Seqs.Map(BareInterface(f), kept') == Seqs.Map(BareInterface(g), kept');
    BareInterfacesOf(f, kept);
    BareInterfacesOf(g, kept');
  }

  lemma AllKept(q: Query, ports: seq<Port>, vm: string)
    requires q.max <= 0 || |EligibleOf(q, ports, vm)| <= q.max
    ensures multiset(q.KeptOf(ports, vm)) == multiset(EligibleOf(q, ports, vm))
    ensures forall p :: p in q.KeptOf(ports, vm) ==> p in PortsOf(vm, ports)
  {
    var dropped := TopK(q, ports, vm);
    Seqs.NothingLeftOver(q.KeptOf(ports, vm), dropped, EligibleOf(q, ports, vm));
  }

  lemma PicksAgree(q: Query, q': Query, ports: seq<Port>, vm: string)
    requires Renumbered(ByID(q.filters), ByID(q'.filters)) && EachLiesInOne(q, ports, vm)
    ensures forall p :: p in PortsOf(vm, ports) ==> PickFor(ByID(q.filters), p) == PickFor(ByID(q'.filters), p)
    ensures EligibleOf(q, ports, vm) == EligibleOf(q', ports, vm)
  {
    var f, g, list := ByID(q.filters), ByID(q'.filters), PortsOf(vm, ports);
    forall p | p in list ensures PickFor(f, p) == PickFor(g, p) {
      RenumberedPick(f, g, p);
    }
    Seqs.FilterAgree(Eligible(f), Eligible(g), list);
  }

  /** Permuting the configured subnets does not change a VM's normalized config when each of its ports that any
      subnet accepts lies in one configured subnet and the cap does not bite. */
  lemma SubnetOrderIrrelevant(q: Query, q': Query, ports: seq<Port>, vm: string)
    requires q' == q.(filters := q'.filters)
    requires Renumbered(ByID(q.filters), ByID(q'.filters))
    requires EachLiesInOne(q, ports, vm)
    requires q.max <= 0 || |EligibleOf(q, ports, vm)| <= q.max
    requires DistinctIDs(ports)
    ensures Normalize(q.NodeFor(ports, vm)) == Normalize(q'.NodeFor(ports, vm))
  {
    PicksAgree(q, q', ports, vm);
    AllKept(q, ports, vm);
    AllKept(q', ports, vm);
    KeptBareOfRenumbered(q, q', ports, vm);
    NodePortIDsDistinct(q, ports, vm);
    DistinctPortIDsGiveNoTies(q.NodeFor(ports, vm));
    NormalFormIsCanonical(q.NodeFor(ports, vm), q'.NodeFor(ports, vm));
  }

  // ---------- Below the cap ----------

  lemma AcceptedMember(q: Query, ports: seq<Port>, vm: string, p: Port)
    ensures p in AcceptedOf(q, ports, vm) <==> p in PortsOf(vm, ports) && Accepted(ByID(q.filters), p)
  {
    Seqs.FilterMember(AcceptedBy(ByID(q.filters)), PortsOf(vm, ports), p);
  }

  lemma AcceptedLieInOne(q: Query, ports: seq<Port>, vm: string)
    requires WellFormed(q.filters) && DistinctIDs(ports) && SameInEveryOrder(q, ports, vm)
    requires q.max <= 0 || |AcceptedOf(q, ports, vm)| <= q.max
    ensures EachLiesInOne(q, ports, vm)
  {
    var f := ByID(q.filters);
    forall p | p in PortsOf(vm, ports) && Accepted(f, p) ensures OneSubnet(f, p) {
      var id :| id in f && AcceptedIn(f, p, id);
      if p !in q.KeptOf(ports, vm) {
        DroppedFillsSubnet(q, ports, vm, p, id);
        assert false;
      }
      KeptLieInOne(q, ports, vm, p);
    }
  }

  lemma SameWithRoom(q: Query, q': Query, ports: seq<Port>, vm: string)
    requires Reordered(q.filters, q'.filters) && q' == q.(filters := q'.filters)
    requires DistinctIDs(ports) && EachLiesInOne(q, ports, vm)
    requires q.max <= 0 || |AcceptedOf(q, ports, vm)| <= q.max
    ensures Normalize(q'.NodeFor(ports, vm)) == Normalize(q.NodeFor(ports, vm))
  {
    if ByID(q.filters) == map[] {
      assert ByID(q'.filters) == map[];
    } else {
      EligibleAreAccepted(q, ports, vm);
      SubnetOrderIrrelevant(q, q', ports, vm);
    }
  }

  /** While the cap has room for every port that some subnet accepts, the config is the same under every order of
      the subnets exactly when each of these ports lies in one configured subnet only. */
  lemma SubnetOrderBelowCap(q: Query, ports: seq<Port>, vm: string)
    requires WellFormed(q.filters) && DistinctIDs(ports)
    requires q.max <= 0 || |AcceptedOf(q, ports, vm)| <= q.max
    ensures SameInEveryOrder(q, ports, vm) <==> EachLiesInOne(q, ports, vm)
  {
    if SameInEveryOrder(q, ports, vm) {
      AcceptedLieInOne(q, ports, vm);
    } else if EachLiesInOne(q, ports, vm) {
      forall g | Reordered(q.filters, g)
        ensures Normalize(q.(filters := g).NodeFor(ports, vm)) == Normalize(q.NodeFor(ports, vm))
      {
        SameWithRoom(q, q.(filters := g), ports, vm);
      }
    }
  }

  // ---------- At the cap ----------

  /** Every port of the list that some subnet accepts is accepted by this one only. */
  ghost predicate AcceptedOnlyIn(f: Filters, list: seq<Port>, id: string) {
    forall p, other :: p in list && AcceptedIn(f, p, other) ==> other == id
  }

  /** The first accepted ports by MAC, port ID and network, up to the cap. */
  function FirstAccepted(q: Query, ports: seq<Port>, vm: string): seq<Port> {
    var accepted := Sorted(map[], AcceptedOf(q, ports, vm));
    if 0 < q.max < |accepted| then accepted[..q.max] else accepted
  }

  /** One subnet alone accepts ports. */
  ghost predicate OneAccepts(q: Query, ports: seq<Port>, vm: string) {
    exists id :: id in ByID(q.filters) && AcceptedOnlyIn(ByID(q.filters), PortsOf(vm, ports), id)
  }

  /** One subnet alone accepts ports, and no other subnet touches the first of them. */
  ghost predicate OneSubnetFills(q: Query, ports: seq<Port>, vm: string) {
    && OneAccepts(q, ports, vm)
    && (forall p :: p in FirstAccepted(q, ports, vm) ==> OneSubnet(ByID(q.filters), p))
  }

  lemma FilterOfSorted(f: Filters, ok: Port -> bool, list: seq<Port>)
    requires IdentifiedByID(list)
    ensures Seqs.Filter(ok, Sorted(f, list)) == Sorted(f, Seqs.Filter(ok, list))
  {
    PortOrderIsStrict(f);
    FilteredSorted(f, ok, list);
    OrderSeparates(f, Seqs.Filter(ok, list));
    Sorting.SortUnique(PortOrder(f), Seqs.Filter(ok, list), Seqs.Filter(ok, Sorted(f, list)));
  }

  /** Ports of one place are sorted by MAC, port ID and network alone. */
  lemma SortedInOnePlace(f: Filters, list: seq<Port>)
    requires IdentifiedByID(list)
    requires forall a, b :: a in list && b in list ==> OrderForPort(f, a) == OrderForPort(f, b)
    ensures Sorted(f, list) == Sorted(map[], list)
  {
    var sorted := Sorted(f, list);
    PortOrderIsStrict(f);
    PortOrderIsStrict(map[]);
    Sorting.SortCorrect(PortOrder(f), list);
    forall i, j | 0 <= i < j < |sorted| ensures !PortOrder(map[])(sorted[j], sorted[i]) {
      assert sorted[i] in multiset(sorted) && sorted[j] in multiset(sorted);
      assert sorted[i] in list && sorted[j] in list;
      assert !PortOrder(f)(sorted[j], sorted[i]);
    }
    OrderSeparates(map[], list);
    Sorting.SortUnique(PortOrder(map[]), list, sorted);
  }

  /** What is kept when one subnet alone accepts ports: the accepted ones that take part under this order, by MAC,
      port ID and network. */
  lemma KeptFromOneSubnet(q: Query, ports: seq<Port>, vm: string, id: string)
    requires DistinctIDs(ports) && id in ByID(q.filters) && AcceptedOnlyIn(ByID(q.filters), PortsOf(vm, ports), id)
    ensures Seqs.Filter(Eligible(ByID(q.filters)), Sorted(ByID(q.filters), PortsOf(vm, ports)))
            == Seqs.Filter(Eligible(ByID(q.filters)), Sorted(map[], AcceptedOf(q, ports, vm)))
  {
    var f, list := ByID(q.filters), PortsOf(vm, ports);
    var e := EligibleOf(q, ports, vm);
    DistinctFromKeys(ports);
    EligibleAreAccepted(q, ports, vm);
    forall p | p in e ensures OrderForPort(f, p) == f[id].order {
      PickedSubnet(f, p);
    }
    FilterOfSorted(f, Eligible(f), list);
    SortedInOnePlace(f, e);
    FilterOfSorted(map[], Eligible(f), AcceptedOf(q, ports, vm));
  }

  lemma FilterKeepsHead(ok: Port -> bool, s: seq<Port>, n: nat)
    requires n <= |s| && forall p :: p in s[..n] ==> ok(p)
    ensures n <= |Seqs.Filter(ok, s)| && Seqs.Filter(ok, s)[..n] == s[..n]
  {
    Seqs.FilterPrefix(ok, s, n);
    Seqs.FilterAll(ok, s[..n]);
  }

  /** When the first accepted ports all take part, they are the ones that are kept. */
  lemma KeptAreFirst(q: Query, ports: seq<Port>, vm: string, id: string)
    requires DistinctIDs(ports) && id in ByID(q.filters) && AcceptedOnlyIn(ByID(q.filters), PortsOf(vm, ports), id)
    requires 0 < q.max < |AcceptedOf(q, ports, vm)|
    requires forall p :: p in FirstAccepted(q, ports, vm) ==> Eligible(ByID(q.filters))(p)
    ensures q.KeptOf(ports, vm) == FirstAccepted(q, ports, vm)
  {
    KeptFromOneSubnet(q, ports, vm, id);
    FilterKeepsHead(Eligible(ByID(q.filters)), Sorted(map[], AcceptedOf(q, ports, vm)), q.max);
  }

  lemma FirstAreAccepted(q: Query, ports: seq<Port>, vm: string, p: Port)
    requires p in FirstAccepted(q, ports, vm)
    ensures p in PortsOf(vm, ports) && Accepted(ByID(q.filters), p)
  {
    var accepted := AcceptedOf(q, ports, vm);
    PortOrderIsStrict(map[]);
    Sorting.SortCorrect(PortOrder(map[]), accepted);
    assert p in multiset(Sorted(map[], accepted));
    assert p in multiset(accepted);
    AcceptedMember(q, ports, vm, p);
  }

  lemma SameWhenOneFills(q: Query, q': Query, ports: seq<Port>, vm: string)
    requires Reordered(q.filters, q'.filters) && q' == q.(filters := q'.filters)
    requires DistinctIDs(ports) && 0 < q.max < |AcceptedOf(q, ports, vm)| && OneSubnetFills(q, ports, vm)
    ensures q'.NodeFor(ports, vm) == q.NodeFor(ports, vm)
  {
    var f, g := ByID(q.filters), ByID(q'.filters);
    var id :| id in f && AcceptedOnlyIn(f, PortsOf(vm, ports), id);
    AcceptedInAnyOrder(q, q', ports, vm);
    AcceptedOnlyInAnyOrder(f, g, PortsOf(vm, ports), id);
    var first := FirstAccepted(q, ports, vm);
    forall p | p in first ensures PickFor(f, p) == PickFor(g, p) && PickFor(f, p).Some? {
      FirstTakePart(q, q', ports, vm, id, p);
    }
    KeptAreFirst(q, ports, vm, id);
    KeptAreFirst(q', ports, vm, id);
    SameInterfaces(f, g, first);
  }

  lemma FirstTakePart(q: Query, q': Query, ports: seq<Port>, vm: string, id: string, p: Port)
    requires Renumbered(ByID(q.filters), ByID(q'.filters)) && OneSubnetFills(q, ports, vm)
    requires id in ByID(q.filters) && AcceptedOnlyIn(ByID(q.filters), PortsOf(vm, ports), id)
    requires p in FirstAccepted(q, ports, vm)
    ensures PickFor(ByID(q.filters), p) == PickFor(ByID(q'.filters), p) && PickFor(ByID(q.filters), p).Some?
  {
    FirstAreAccepted(q, ports, vm, p);
    RenumberedPick(ByID(q.filters), ByID(q'.filters), p);
    PickedFromOnly(ByID(q.filters), p, id);
  }

  lemma SameInterfaces(f: Filters, g: Filters, list: seq<Port>)
    requires forall p :: p in list ==> PickFor(f, p) == PickFor(g, p)
    ensures InterfacesOf(f, list) == InterfacesOf(g, list)
  {
    assert forall i :: 0 <= i < |list| ==> list[i] in list;
  }

  lemma AcceptedOnlyInAnyOrder(f: Filters, g: Filters, list: seq<Port>, id: string)
    requires Renumbered(f, g) && AcceptedOnlyIn(f, list, id)
    ensures AcceptedOnlyIn(g, list, id)
  {
    assert forall p, other :: AcceptedIn(f, p, other) == AcceptedIn(g, p, other);
  }

  lemma AcceptedOnce(q: Query, ports: seq<Port>, vm: string, p: Port)
    requires DistinctIDs(ports)
    ensures multiset(AcceptedOf(q, ports, vm))[p] <= 1
  {
    DistinctFromKeys(ports);
    Seqs.DistinctCounts(ports, p);
    Seqs.FilterCounts(OnDevice(vm), ports, p);
    Seqs.FilterCounts(AcceptedBy(ByID(q.filters)), PortsOf(vm, ports), p);
  }

  /** A cap below the number of accepted ports drops one of them. */
  lemma SomeDropped(q: Query, ports: seq<Port>, vm: string) returns (p: Port)
    requires DistinctIDs(ports) && 0 < q.max < |AcceptedOf(q, ports, vm)|
    ensures p in AcceptedOf(q, ports, vm) && p !in q.KeptOf(ports, vm)
  {
    var accepted, kept := AcceptedOf(q, ports, vm), q.KeptOf(ports, vm);
    if forall x :: x in accepted ==> x in kept {
      forall x | x in accepted ensures multiset(accepted)[x] <= 1 {
        AcceptedOnce(q, ports, vm, x);
      }
      Seqs.MembersFit(accepted, kept);
      assert false;
    }
    p :| p in accepted && p !in kept;
  }

  lemma AcceptedByDropped(q: Query, ports: seq<Port>, vm: string, p: Port, id: string)
    requires WellFormed(q.filters) && DistinctIDs(ports) && SameInEveryOrder(q, ports, vm)
    requires p in PortsOf(vm, ports) && AcceptedIn(ByID(q.filters), p, id) && p !in q.KeptOf(ports, vm)
    ensures AcceptedOnlyIn(ByID(q.filters), PortsOf(vm, ports), id)
  {
    var f, kept := ByID(q.filters), q.KeptOf(ports, vm);
    DroppedFillsSubnet(q, ports, vm, p, id);
    forall r, other | r in PortsOf(vm, ports) && AcceptedIn(f, r, other) ensures other == id {
      var k := r;
      if r !in kept {
        DroppedFillsSubnet(q, ports, vm, r, other);
        k := kept[0];
      }
      KeptLieInOne(q, ports, vm, k);
      assert LiesIn(k, id) && LiesIn(k, other);
    }
  }

  lemma LeaderKeepsFirst(q: Query, ports: seq<Port>, vm: string, id: string)
    requires DistinctIDs(ports) && Leads(ByID(q.filters), id)
    requires AcceptedOnlyIn(ByID(q.filters), PortsOf(vm, ports), id)
    requires 0 < q.max < |AcceptedOf(q, ports, vm)|
    ensures q.KeptOf(ports, vm) == FirstAccepted(q, ports, vm)
  {
    forall p | p in FirstAccepted(q, ports, vm) ensures Eligible(ByID(q.filters))(p) {
      FirstAreAccepted(q, ports, vm, p);
      LeaderDecides(ByID(q.filters), p, id);
    }
    KeptAreFirst(q, ports, vm, id);
  }

  lemma OneFillsWhenSame(q: Query, ports: seq<Port>, vm: string)
    requires WellFormed(q.filters) && DistinctIDs(ports) && SameInEveryOrder(q, ports, vm)
    requires 0 < q.max < |AcceptedOf(q, ports, vm)|
    ensures OneSubnetFills(q, ports, vm)
  {
    var f := ByID(q.filters);
    var p := SomeDropped(q, ports, vm);
    AcceptedMember(q, ports, vm, p);
    var id :| id in f && AcceptedIn(f, p, id);
    AcceptedByDropped(q, ports, vm, p, id);
    var q' := LetLead(q, id);
    AcceptedInAnyOrder(q, q', ports, vm);
    AcceptedOnlyInAnyOrder(f, ByID(q'.filters), PortsOf(vm, ports), id);
    LeaderKeepsFirst(q', ports, vm, id);
    forall r | r in FirstAccepted(q, ports, vm) ensures OneSubnet(f, r) {
      SameConfigSamePort(q', q, ports, vm, r);
      KeptLieInOne(q, ports, vm, r);
    }
  }

  /** When the cap has no room for every accepted port, the config is the same under every order of the subnets
      exactly when one subnet alone accepts ports and no other subnet touches the first of them. */
  lemma SubnetOrderAtCap(q: Query, ports: seq<Port>, vm: string)
    requires WellFormed(q.filters) && DistinctIDs(ports)
    requires 0 < q.max < |AcceptedOf(q, ports, vm)|
    ensures SameInEveryOrder(q, ports, vm) <==> OneSubnetFills(q, ports, vm)
  {
    if SameInEveryOrder(q, ports, vm) {
      OneFillsWhenSame(q, ports, vm);
    } else if OneSubnetFills(q, ports, vm) {
      forall g | Reordered(q.filters, g)
        ensures Normalize(q.(filters := g).NodeFor(ports, vm)) == Normalize(q.NodeFor(ports, vm))
      {
        SameWhenOneFills(q, q.(filters := g), ports, vm);
      }
    }
  }

  /** When each port lies in one configured subnet, the config is the same under every order of the subnets exactly
      when there is no cap, or the cap has room for every port that takes part, or these all lie in one subnet. */
  lemma SubnetOrderCapCondition(q: Query, ports: seq<Port>, vm: string)
    requires WellFormed(q.filters) && DistinctIDs(ports) && EachLiesInOne(q, ports, vm) && q.filters != []
    ensures SameInEveryOrder(q, ports, vm) <==>
            || q.max <= 0
            || |EligibleOf(q, ports, vm)| <= q.max
            || OneAccepts(q, ports, vm)
  {
    AcceptedTakePart(q, ports, vm);
    if q.max <= 0 || |AcceptedOf(q, ports, vm)| <= q.max {
      SubnetOrderBelowCap(q, ports, vm);
    } else {
      SubnetOrderAtCap(q, ports, vm);
      forall p | p in FirstAccepted(q, ports, vm) ensures OneSubnet(ByID(q.filters), p) {
        FirstAreAccepted(q, ports, vm, p);
      }
    }
  }

  lemma AcceptedTakePart(q: Query, ports: seq<Port>, vm: string)
    requires WellFormed(q.filters) && EachLiesInOne(q, ports, vm) && q.filters != []
    ensures AcceptedOf(q, ports, vm) == EligibleOf(q, ports, vm)
  {
    var f := ByID(q.filters);
    ByIDSize(q.filters);
    forall p | p in PortsOf(vm, ports) ensures AcceptedBy(f)(p) == Eligible(f)(p) {
      if PickFor(f, p).Some? {
        PickedSubnet(f, p);
      }
      if Accepted(f, p) {
        var id :| id in f && AcceptedIn(f, p, id);
        ByIDBounds(q.filters, id);
        PickedFromOnly(f, p, id);
      }
    }
    Seqs.FilterAgree(AcceptedBy(f), Eligible(f), PortsOf(vm, ports));
  }

  lemma ByIDBounds(f: seq<SubnetFilter>, id: string)
    requires WellFormed(f) && id in ByID(f)
    ensures ByID(f)[id].order < |ByID(f)|
  {
    ByIDSize(f);
    ByIDKeys(f, id);
    var k :| 0 <= k < |f| && f[k].id == id;
    ByIDLookup(f, k);
  }

  // ---------- Two subnets ----------

  lemma TwoOrders(f: seq<SubnetFilter>, g: seq<SubnetFilter>)
    requires Reordered(f, g) && |f| == 2
    ensures g == f || g == Led(f, 1)
  {
    ByIDSize(f);
    ByIDSize(g);
    RenumberedSize(ByID(f), ByID(g));
    ByIDLookup(f, 0);
    ByIDLookup(f, 1);
    ByIDLookup(g, 0);
    ByIDLookup(g, 1);
    ByIDKeys(f, g[0].id);
    ByIDKeys(f, g[1].id);
  }

  /** Of two subnets there are only two orders, so a config that depends on the order changes when they swap. */
  lemma SwapMatters(q: Query, ports: seq<Port>, vm: string)
    requires |q.filters| == 2 && !SameInEveryOrder(q, ports, vm)
    ensures Normalize(q.(filters := Led(q.filters, 1)).NodeFor(ports, vm)) != Normalize(q.NodeFor(ports, vm))
  {
    var g :| Reordered(q.filters, g)
      && Normalize(q.(filters := g).NodeFor(ports, vm)) != Normalize(q.NodeFor(ports, vm));
    TwoOrders(q.filters, g);
  }

  const STORAGE := SubnetFilter("subnet-storage", "10.1.0.0/24", "net-data", 9000, 0)
  const COMPUTE := SubnetFilter("subnet-compute", "10.2.0.0/24", "net-data", 9000, 1)

  function PortIn(i: nat, fixedIPs: seq<FixedIP>): Port
    requires i < 16
  {
    var c := 'a' + i as char;
    Port("port-" + [c], "net-data", "fa:16:3e:00:00:0" + [c], "vm-1", "ACTIVE", fixedIPs)
  }

  function AddressIn(i: nat, id: string): FixedIP
    requires i < 16
  {
    FixedIP("10.0.0." + ['0' + i as char], id)
  }

  /** Ten ports in the storage subnet and one in the compute subnet. */
  function ElevenPorts(): (r: seq<Port>)
    ensures |r| == 11
    ensures forall i :: 0 <= i < 11 ==> r[i] == PortIn(i, [AddressIn(i, if i < 10 then STORAGE.id else COMPUTE.id)])
  {
    seq(11, i requires 0 <= i < 11 => PortIn(i, [AddressIn(i, if i < 10 then STORAGE.id else COMPUTE.id)]))
  }

  lemma TwoSubnets()
    ensures WellFormed([STORAGE, COMPUTE])
    ensures ByID([STORAGE, COMPUTE]) == map[STORAGE.id := STORAGE, COMPUTE.id := COMPUTE]
    ensures STORAGE.id != COMPUTE.id
  {
    assert [STORAGE, COMPUTE][..1] == [STORAGE] && [STORAGE][..0] == [];
    assert ByID([STORAGE]) == map[STORAGE.id := STORAGE];
  }

  lemma SharedSubnetsPort(f: Filters, i: nat, fixedIPs: seq<FixedIP>, id: string)
    requires f == map[STORAGE.id := STORAGE, COMPUTE.id := COMPUTE] && i < 16
    ensures AcceptedIn(f, PortIn(i, fixedIPs), id) <==> id in f && LiesIn(PortIn(i, fixedIPs), id)
  {
  }

  lemma OneAddressLies(i: nat, id: string, other: string)
    requires i < 16
    ensures LiesIn(PortIn(i, [AddressIn(i, id)]), other) <==> other == id
  {
    var p := PortIn(i, [AddressIn(i, id)]);
    assert p.fixedIPs[0].subnetID == id;
  }

  lemma AllAccepted(q: Query, ports: seq<Port>, vm: string)
    requires forall p :: p in ports ==> p.deviceID == vm && Accepted(ByID(q.filters), p)
    ensures PortsOf(vm, ports) == AcceptedOf(q, ports, vm) == ports
  {
    Seqs.FilterAll(OnDevice(vm), ports);
    Seqs.FilterAll(AcceptedBy(ByID(q.filters)), ports);
  }

  lemma ElevenAccepted(f: Filters, i: nat)
    requires f == map[STORAGE.id := STORAGE, COMPUTE.id := COMPUTE] && i < 11
    ensures var p, id := ElevenPorts()[i], if i < 10 then STORAGE.id else COMPUTE.id;
            p.deviceID == "vm-1" && AcceptedIn(f, p, id) && Accepted(f, p) && OneSubnet(f, p)
  {
    var id := if i < 10 then STORAGE.id else COMPUTE.id;
    OneAddressLies(i, id, STORAGE.id);
    OneAddressLies(i, id, COMPUTE.id);
    SharedSubnetsPort(f, i, [AddressIn(i, id)], id);
  }

  lemma ElevenDistinct()
    ensures DistinctIDs(ElevenPorts())
  {
    var ids := Seqs.Map(ID, ElevenPorts());
    forall i, j | 0 <= i < j < |ids| ensures ids[i] != ids[j] {
      assert ids[i][5] == 'a' + i as char && ids[j][5] == 'a' + j as char;
    }
  }

  /** At the operator's own cap the order matters: with ten ports in one subnet and one in the other, swapping the
      subnets changes the posted config, though each port lies in one subnet only. */
  lemma SubnetOrderMattersAtCap(q: Query)
    requires q.filters == [STORAGE, COMPUTE] && q.max == MAX_INTERFACES_PER_NODE
    ensures DistinctIDs(ElevenPorts()) && EachLiesInOne(q, ElevenPorts(), "vm-1")
    ensures Normalize(q.(filters := Led(q.filters, 1)).NodeFor(ElevenPorts(), "vm-1"))
            != Normalize(q.NodeFor(ElevenPorts(), "vm-1"))
  {
    var f, ports := ByID(q.filters), ElevenPorts();
    TwoSubnets();
    ElevenDistinct();
    forall p | p in ports ensures p.deviceID == "vm-1" && Accepted(f, p) && OneSubnet(f, p) {
      var i :| 0 <= i < |ports| && ports[i] == p;
      ElevenAccepted(f, i);
    }
    AllAccepted(q, ports, "vm-1");
    ElevenAccepted(f, 0);
    ElevenAccepted(f, 10);
    assert ports[0] in ports && ports[10] in ports;
    SubnetOrderAtCap(q, ports, "vm-1");
    SwapMatters(q, ports, "vm-1");
  }

  /** A port with an address in each of two subnets makes the order matter without any cap: swapping the subnets
      changes the posted config. */
  lemma SubnetOrderMattersForSharedPort(q: Query)
    requires q.filters == [STORAGE, COMPUTE] && q.max == MAX_INTERFACES_PER_NODE
    ensures var ports := [PortIn(0, [AddressIn(0, STORAGE.id), AddressIn(1, COMPUTE.id)])];
            Normalize(q.(filters := Led(q.filters, 1)).NodeFor(ports, "vm-1")) != Normalize(q.NodeFor(ports, "vm-1"))
  {
    var f, p := ByID(q.filters), PortIn(0, [AddressIn(0, STORAGE.id), AddressIn(1, COMPUTE.id)]);
    TwoSubnets();
    assert p.fixedIPs[0].subnetID == STORAGE.id && p.fixedIPs[1].subnetID == COMPUTE.id;
    SharedSubnetsPort(f, 0, p.fixedIPs, STORAGE.id);
    AllAccepted(q, [p], "vm-1");
    assert p in [p] && LiesIn(p, STORAGE.id) && LiesIn(p, COMPUTE.id) && !OneSubnet(f, p);
    SubnetOrderBelowCap(q, [p], "vm-1");
    SwapMatters(q, [p], "vm-1");
  }
}
