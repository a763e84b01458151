/** Subnet filters: how they are built, and how a port's address is matched against them. */
module Subnets {
  import opened Wrappers
  import Seqs
  import Text

  datatype FixedIP = FixedIP(ip: string, subnetID: string)

  datatype Subnet = Subnet(id: string, cidr: string, networkID: string)

  datatype SubnetFilter = SubnetFilter(id: string, cidr: string, networkID: string, mtu: int, order: int)

  type Filters = map<string, SubnetFilter>

  // ---------- Lists without repetitions ----------

  /** First occurrences, in order. */
  function Unique(items: seq<string>): (r: seq<string>)
    ensures forall x :: x in r <==> x in items
    ensures forall i, j :: 0 <= i < j < |r| ==> r[i] != r[j]
  {
    if items == [] then []
    else
      var rest := Unique(items[..|items| - 1]);
      var last := items[|items| - 1];
      assert items == items[..|items| - 1] + [last];
      if last in rest then rest else rest + [last]
  }

  /** Some item is `x` once trimmed. */
  ghost predicate IsTrimmed(items: seq<string>, x: string) {
    exists i :: 0 <= i < |items| && x == Text.TrimSpace(items[i])
  }

  lemma IsTrimmedSnoc(items: seq<string>)
    requires items != []
    ensures var init, last := items[..|items| - 1], Text.TrimSpace(items[|items| - 1]);
            forall x :: IsTrimmed(items, x) <==> IsTrimmed(init, x) || x == last
  {
    var init := items[..|items| - 1];
    forall x ensures IsTrimmed(items, x) <==> IsTrimmed(init, x) || x == Text.TrimSpace(items[|items| - 1]) {
      if i :| 0 <= i < |init| && x == Text.TrimSpace(init[i]) {
        assert x == Text.TrimSpace(items[i]);
      }
      if i :| 0 <= i < |items| && x == Text.TrimSpace(items[i]) {
        assert i < |init| ==> x == Text.TrimSpace(init[i]);
      }
    }
  }

  /** The non-blank items, trimmed, first occurrences in order. */
  function UniqueTrimmed(items: seq<string>): (r: seq<string>)
    ensures forall x :: x in r <==> x != "" && IsTrimmed(items, x)
    ensures forall i, j :: 0 <= i < j < |r| ==> r[i] != r[j]
  {
    if items == [] then []
    else
      var init := items[..|items| - 1];
      var rest := UniqueTrimmed(init);
      var last := Text.TrimSpace(items[|items| - 1]);
      IsTrimmedSnoc(items);
      if last == "" || last in rest then rest else rest + [last]
  }

  /** Where an item first occurs. */
  function FirstIndex(items: seq<string>, x: string): (i: nat)
    requires x in items
    ensures i < |items| && items[i] == x && x !in items[..i]
  {
    var init := items[..|items| - 1];
    assert items == init + [items[|items| - 1]];
    if x in init then
      var i := FirstIndex(init, x);
      assert items[..i] == init[..i];
      i
    else |items| - 1
  }

  lemma FirstIndexOfPrefix(items: seq<string>, x: string)
    requires items != [] && x in items[..|items| - 1]
    ensures x in items && FirstIndex(items, x) == FirstIndex(items[..|items| - 1], x)
  {
  }

  /** Items stay in the order of their first occurrences. */
  lemma {:induction false} UniqueKeepsOrder(items: seq<string>, i: nat, j: nat)
    requires i < j < |Unique(items)|
    ensures FirstIndex(items, Unique(items)[i]) < FirstIndex(items, Unique(items)[j])
  {
    var init, last := items[..|items| - 1], items[|items| - 1];
    var rest := Unique(init);
    FirstIndexOfPrefix(items, rest[i]);
    if j < |rest| {
      FirstIndexOfPrefix(items, rest[j]);
      UniqueKeepsOrder(init, i, j);
    } else {
      assert last !in init;
    }
  }

  const TRIMMED: string -> string := s => Text.TrimSpace(s)
  const NOT_BLANK: string -> bool := s => s != ""

  lemma UniqueSnoc(items: seq<string>, x: string)
    ensures Unique(items + [x]) == if x in Unique(items) then Unique(items) else Unique(items) + [x]
  {
    assert (items + [x])[..|items|] == items;
  }

  /** Trimming first, then dropping blanks and repetitions, gives the same list. */
  lemma {:induction false} UniqueTrimmedMeaning(items: seq<string>)
    ensures UniqueTrimmed(items) == Unique(Seqs.Filter(NOT_BLANK, Seqs.Map(TRIMMED, items)))
  {
    if items == [] {
    } else {
      var i := |items| - 1;
      var trimmed, last := Seqs.Map(TRIMMED, items[..i]), Text.TrimSpace(items[i]);
      UniqueTrimmedMeaning(items[..i]);
      Seqs.MapSnoc(TRIMMED, items, i);
      assert items[..i + 1] == items && (trimmed + [last])[..i] == trimmed;
      UniqueSnoc(Seqs.Filter(NOT_BLANK, trimmed), last);
    }
  }

  method UniqueList(items: seq<string>) returns (out: seq<string>)
    ensures out == Unique(items)
  {
    var seen: set<string> := {};
    out := [];
    for i := 0 to |items|
      invariant out == Unique(items[..i])
      invariant forall x :: x in seen <==> x in out
    {
      assert items[..i + 1][..i] == items[..i];
      if items[i] in seen {
        continue;
      }
      seen := seen + {items[i]};
      out := out + [items[i]];
    }
    assert items[..|items|] == items;
  }

  method UniqueTrimmedList(items: seq<string>) returns (out: seq<string>)
    ensures out == UniqueTrimmed(items)
  {
    var seen: set<string> := {};
    out := [];
    for i := 0 to |items|
      invariant out == UniqueTrimmed(items[..i])
      invariant forall x :: x in seen <==> x in out
    {
      assert items[..i + 1][..i] == items[..i];
      var trimmed := Text.TrimSpace(items[i]);
      if trimmed == "" {
        continue;
      }
      if trimmed in seen {
        continue;
      }
      seen := seen + {trimmed};
      out := out + [trimmed];
    }
    assert items[..|items|] == items;
  }

  // ---------- Building the filters ----------

  /** What Neutron answers; a missing key is an error. */
  datatype Neutron = Neutron(subnets: map<string, Subnet>, mtus: map<string, int>)
  {
    function MTU(networkID: string): int {
      if networkID in mtus then mtus[networkID] else 0
    }

    function FilterFor(id: string, order: nat): SubnetFilter
      requires id in subnets
    {
      var s := subnets[id];
      SubnetFilter(s.id, s.cidr, s.networkID, MTU(s.networkID), order)
    }

    /** Neutron returns the subnet it was asked for. */
    ghost predicate AnswersByID() {
      forall id :: id in subnets ==> subnets[id].id == id
    }
  }

  /** The filter carries the subnet's own fields, the MTU known for its network or 0, and its place in the list. */
  ghost predicate Describes(f: SubnetFilter, neutron: Neutron, id: string, i: nat) {
    && id in neutron.subnets && f.order == i
    && f.id == neutron.subnets[id].id && f.cidr == neutron.subnets[id].cidr
    && f.networkID == neutron.subnets[id].networkID
    && (f.networkID in neutron.mtus ==> f.mtu == neutron.mtus[f.networkID])
    && (f.networkID !in neutron.mtus ==> f.mtu == 0)
  }

  /** One filter per subnet ID, numbered by position; any unknown subnet fails the whole step. Each
      network's MTU is fetched once, and a failed fetch counts as 0. */
  method ResolveFilters(neutron: Neutron, subnetIDs: seq<string>) returns (r: Option<seq<SubnetFilter>>)
    ensures r.Some? <==> forall id :: id in subnetIDs ==> id in neutron.subnets
    ensures r.Some? ==> |r.value| == |subnetIDs|
    ensures r.Some? ==>
              forall i :: 0 <= i < |subnetIDs| ==> r.value[i] == neutron.FilterFor(subnetIDs[i], i)
    ensures r.Some? ==> forall i :: 0 <= i < |subnetIDs| ==> Describes(r.value[i], neutron, subnetIDs[i], i)
  {
    var filters: seq<SubnetFilter> := [];
    var networkMTU: map<string, int> := map[];
    for i := 0 to |subnetIDs|
      invariant |filters| == i
      invariant forall k :: 0 <= k < i ==> subnetIDs[k] in neutron.subnets
      invariant forall k :: 0 <= k < i ==> filters[k] == neutron.FilterFor(subnetIDs[k], k)
      invariant forall n :: n in networkMTU ==> networkMTU[n] == neutron.MTU(n)
    {
      var id := subnetIDs[i];
      if id !in neutron.subnets {
        return None;
      }
      var subnet := neutron.subnets[id];
      var mtu := 0;
      if subnet.networkID in networkMTU {
        mtu := networkMTU[subnet.networkID];
      } else {
        if subnet.networkID in neutron.mtus {
          mtu := neutron.mtus[subnet.networkID];
        }
        networkMTU := networkMTU[subnet.networkID := mtu];
      }
      filters := filters + [SubnetFilter(subnet.id, subnet.cidr, subnet.networkID, mtu, |filters|)];
    }
    r := Some(filters);
  }

  /** Filters by subnet ID; a later filter with the same ID wins. */
  function ByID(filters: seq<SubnetFilter>): Filters {
    if filters == [] then map[]
    else
      var last := filters[|filters| - 1];
      ByID(filters[..|filters| - 1])[last.id := last]
  }

  method IndexFilters(filters: seq<SubnetFilter>) returns (m: Filters)
    ensures m == ByID(filters)
  {
    m := map[];
    for i := 0 to |filters|
      invariant m == ByID(filters[..i])
    {
      assert filters[..i + 1][..i] == filters[..i];
      m := m[filters[i].id := filters[i]];
    }
    assert filters[..|filters|] == filters;
  }

  /** Filters with distinct IDs, numbered by position. */
  ghost predicate WellFormed(filters: seq<SubnetFilter>) {
    && (forall i, j :: 0 <= i < j < |filters| ==> filters[i].id != filters[j].id)
    && (forall i :: 0 <= i < |filters| ==> filters[i].order == i)
  }

  predicate Configured(filters: seq<SubnetFilter>, id: string) {
    exists i :: 0 <= i < |filters| && filters[i].id == id
  }

  lemma {:induction false} ByIDKeys(filters: seq<SubnetFilter>, id: string)
    ensures id in ByID(filters) <==> Configured(filters, id)
  {
    if filters == [] {
    } else {
      var init := filters[..|filters| - 1];
      ByIDKeys(init, id);
      if i :| 0 <= i < |init| && init[i].id == id {
        assert filters[i].id == id;
      }
      assert filters[|filters| - 1].id == id
             || forall i :: 0 <= i < |filters| && filters[i].id == id ==> init[i].id == id;
    }
  }

  /** Of several filters with one ID the last one stands. */
  lemma {:induction false} LastFilterWins(filters: seq<SubnetFilter>, i: nat)
    requires i < |filters| && forall j :: i < j < |filters| ==> filters[j].id != filters[i].id
    ensures filters[i].id in ByID(filters) && ByID(filters)[filters[i].id] == filters[i]
  {
    if i == |filters| - 1 {
    } else {
      LastFilterWins(filters[..|filters| - 1], i);
    }
  }

  lemma ByIDLookup(filters: seq<SubnetFilter>, i: nat)
    requires WellFormed(filters) && i < |filters|
    ensures filters[i].id in ByID(filters) && ByID(filters)[filters[i].id] == filters[i]
  {
    LastFilterWins(filters, i);
  }

  lemma {:induction false} ByIDSize(filters: seq<SubnetFilter>)
    requires WellFormed(filters)
    ensures |ByID(filters)| == |filters|
  {
    if filters == [] {
    } else {
      var init, last := filters[..|filters| - 1], filters[|filters| - 1];
      ByIDSize(init);
      ByIDKeys(init, last.id);
      assert ByID(filters).Keys == ByID(init).Keys + {last.id};
    }
  }

  // ---------- Matching a port's addresses ----------

  datatype Match = Match(fip: FixedIP, filter: SubnetFilter)

  /** The order a match counts as; one past every legal order when there is none. */
  function OrderOf(filters: Filters, m: Option<Match>): int {
    if m.None? then |filters| + 1 else m.value.filter.order
  }

  predicate Improves(filters: Filters, fip: FixedIP, bound: int) {
    fip.subnetID in filters && filters[fip.subnetID].order < bound
  }

  function BestMatch(filters: Filters, fips: seq<FixedIP>): Option<Match> {
    if fips == [] then None
    else
      var best := BestMatch(filters, fips[..|fips| - 1]);
      var last := fips[|fips| - 1];
      if Improves(filters, last, OrderOf(filters, best)) then Some(Match(last, filters[last.subnetID])) else best
  }

  method SelectFixedIPByFilters(fips: seq<FixedIP>, filters: Filters) returns (m: Option<Match>)
    ensures m == BestMatch(filters, fips)
  {
    var bestOrder := |filters| + 1;
    m := None;
    for i := 0 to |fips|
      invariant m == BestMatch(filters, fips[..i])
      invariant bestOrder == OrderOf(filters, m)
    {
      assert fips[..i + 1][..i] == fips[..i];
      var fip := fips[i];
      if fip.subnetID !in filters {
        continue;
      }
      var filter := filters[fip.subnetID];
      if filter.order < bestOrder {
        bestOrder := filter.order;
        m := Some(Match(fip, filter));
      }
    }
    assert fips[..|fips|] == fips;
  }

  /** The port sort key, computed by its own loop over the addresses. */
  function LowestOrder(filters: Filters, fips: seq<FixedIP>): int {
    if fips == [] then |filters| + 1
    else
      var order := LowestOrder(filters, fips[..|fips| - 1]);
      var last := fips[|fips| - 1];
      if Improves(filters, last, order) then filters[last.subnetID].order else order
  }

  /** `i` is the first address of minimal order among those in a configured subnet. */
  ghost predicate FirstOfMinimalOrder(filters: Filters, fips: seq<FixedIP>, i: nat) {
    && i < |fips| && fips[i].subnetID in filters
    && (forall j :: 0 <= j < |fips| && fips[j].subnetID in filters ==>
          filters[fips[i].subnetID].order <= filters[fips[j].subnetID].order)
    && (forall j :: 0 <= j < i && fips[j].subnetID in filters ==>
          filters[fips[i].subnetID].order < filters[fips[j].subnetID].order)
  }

  /** For any filters: a match is found exactly when some address lies in a subnet whose order is
      below the sentinel `len + 1`, and it is the first address of minimal order. */
  lemma {:induction false} BestMatchMeaning(filters: Filters, fips: seq<FixedIP>)
    ensures BestMatch(filters, fips).Some? <==> exists i :: 0 <= i < |fips| && Improves(filters, fips[i], |filters| + 1)
    ensures BestMatch(filters, fips).Some? ==>
              var m := BestMatch(filters, fips).value;
              exists i: nat :: FirstOfMinimalOrder(filters, fips, i) && m == Match(fips[i], filters[fips[i].subnetID])
    ensures LowestOrder(filters, fips) == OrderOf(filters, BestMatch(filters, fips)) <= |filters| + 1
  {
    if fips == [] {
    } else {
      var init, last := fips[..|fips| - 1], fips[|fips| - 1];
      BestMatchMeaning(filters, init);
      var best := BestMatch(filters, init);
      assert forall i :: 0 <= i < |init| ==> fips[i] == init[i];
      if Improves(filters, last, OrderOf(filters, best)) {
        assert Improves(filters, fips[|fips| - 1], |filters| + 1);
        assert FirstOfMinimalOrder(filters, fips, |fips| - 1) by {
          forall j | 0 <= j < |init| && init[j].subnetID in filters
            ensures filters[last.subnetID].order < filters[init[j].subnetID].order
          {
            if best.None? {
              assert !Improves(filters, init[j], |filters| + 1);
            }
          }
        }
      } else if best.Some? {
        var i: nat :| FirstOfMinimalOrder(filters, init, i) && best.value == Match(init[i], filters[init[i].subnetID]);
        assert FirstOfMinimalOrder(filters, fips, i);
        var k :| 0 <= k < |init| && Improves(filters, init[k], |filters| + 1);
        assert Improves(filters, fips[k], |filters| + 1);
      }
    }
  }

  /** With filters as the operator builds them, the sentinel never hides a match: an address is
      selected exactly when one lies in a configured subnet, and its order is the sort key. */
  lemma SubnetMatchingAgreement(filters: seq<SubnetFilter>, fips: seq<FixedIP>)
    requires WellFormed(filters)
    ensures var byID, m := ByID(filters), BestMatch(ByID(filters), fips);
            && (m.Some? <==> exists i :: 0 <= i < |fips| && Configured(filters, fips[i].subnetID))
            && (m.Some? ==> LowestOrder(byID, fips) == m.value.filter.order < |filters|)
            && (m.None? ==> LowestOrder(byID, fips) == |filters| + 1)
  {
    var byID := ByID(filters);
    ByIDSize(filters);
    BestMatchMeaning(byID, fips);
    forall i, k | 0 <= i < |fips| && 0 <= k < |filters| && fips[i].subnetID == filters[k].id
      ensures Improves(byID, fips[i], |byID| + 1)
    {
      ByIDLookup(filters, k);
    }
    forall i | 0 <= i < |fips| && fips[i].subnetID in byID
      ensures exists k :: 0 <= k < |filters|
                && fips[i].subnetID == filters[k].id && byID[fips[i].subnetID] == filters[k]
    {
      ByIDKeys(filters, fips[i].subnetID);
      var k :| 0 <= k < |filters| && filters[k].id == fips[i].subnetID;
      ByIDLookup(filters, k);
    }
  }

  /** The filters are those resolved from the trimmed, repetition-free form of the configured IDs. */
  ghost predicate ResolvedFrom(neutron: Neutron, items: seq<string>, filters: seq<SubnetFilter>) {
    && neutron.AnswersByID() && |filters| == |UniqueTrimmed(items)|
    && forall i :: 0 <= i < |filters| ==>
         UniqueTrimmed(items)[i] in neutron.subnets && filters[i] == neutron.FilterFor(UniqueTrimmed(items)[i], i)
  }

  lemma MatchedPosition(filters: seq<SubnetFilter>, fips: seq<FixedIP>)
    requires WellFormed(filters) && BestMatch(ByID(filters), fips).Some?
    ensures var m := BestMatch(ByID(filters), fips).value;
            0 <= m.filter.order < |filters| && filters[m.filter.order] == m.filter && m.filter.id == m.fip.subnetID
  {
    var m := BestMatch(ByID(filters), fips).value;
    BestMatchMeaning(ByID(filters), fips);
    ByIDKeys(filters, m.fip.subnetID);
    var k :| 0 <= k < |filters| && filters[k].id == m.fip.subnetID;
    ByIDLookup(filters, k);
  }

  lemma ResolvedIsWellFormed(neutron: Neutron, items: seq<string>, filters: seq<SubnetFilter>)
    requires ResolvedFrom(neutron, items, filters)
    ensures WellFormed(filters)
    ensures forall i :: 0 <= i < |filters| ==> filters[i].id == UniqueTrimmed(items)[i]
    ensures forall id :: Configured(filters, id) <==> id in UniqueTrimmed(items)
  {
  }

  /** From the configuration on: a port address is selected exactly when one of the port's addresses lies in a
      configured subnet, and the selected one's order is its subnet's place in the configured list. */
  lemma ConfiguredSubnetsDecide(neutron: Neutron, items: seq<string>, filters: seq<SubnetFilter>, fips: seq<FixedIP>)
    requires ResolvedFrom(neutron, items, filters)
    ensures var m := BestMatch(ByID(filters), fips);
            && (m.Some? <==> exists i :: 0 <= i < |fips| && fips[i].subnetID in UniqueTrimmed(items))
            && (m.Some? ==> 0 <= m.value.filter.order < |filters|
                            && UniqueTrimmed(items)[m.value.filter.order] == m.value.fip.subnetID)
  {
    ResolvedIsWellFormed(neutron, items, filters);
    SubnetMatchingAgreement(filters, fips);
    if BestMatch(ByID(filters), fips).Some? {
      MatchedPosition(filters, fips);
    }
  }

  /** Filters that share one subnet ID can hide a match: three of them leave one map entry of order 2,
      which is not below the sentinel 2. */
  lemma RepeatedSubnetHidesMatch()
    ensures var f := i => SubnetFilter("s", "10.0.0.0/24", "n", 1500, i);
            && BestMatch(ByID([f(0), f(1), f(2)]), [FixedIP("10.0.0.5", "s")]) == None
            && "s" in ByID([f(0), f(1), f(2)])
  {
    var f := i => SubnetFilter("s", "10.0.0.0/24", "n", 1500, i);
    var three := [f(0), f(1), f(2)];
    assert three[..2] == [f(0), f(1)] && three[..2][..1] == [f(0)] && three[..2][..1][..0] == [];
    assert ByID([f(0)]) == map["s" := f(0)];
    assert ByID([f(0), f(1)]) == map["s" := f(1)];
    assert ByID(three) == map["s" := f(2)];
    assert [FixedIP("10.0.0.5", "s")][..0] == [];
  }
}
