/** The canonical form of a node config, the form that is hashed, compared and posted. */
module Normalization {
  import opened Viola
  import Seqs
  import Sorting
  import Text

  predicate InterfaceBefore(a: NodeInterface, b: NodeInterface) {
    if a.mac != b.mac then Text.Before(a.mac, b.mac)
    else if a.portID != b.portID then Text.Before(a.portID, b.portID)
    else Text.Before(a.address, b.address)
  }

  const INTERFACE_ORDER: (NodeInterface, NodeInterface) -> bool := (a, b) => InterfaceBefore(a, b)

  lemma InterfaceOrderIsStrict()
    ensures Sorting.StrictWeakOrder(INTERFACE_ORDER)
  {
    Text.BeforeIsTotalOrder();
  }

  function Numbered(iface: NodeInterface, i: nat): NodeInterface {
    iface.(id := i, name := InterfaceName(i))
  }

  function Renumber(s: seq<NodeInterface>): (r: seq<NodeInterface>)
    ensures |r| == |s| && forall i :: 0 <= i < |s| ==> r[i] == Numbered(s[i], i)
  {
    seq(|s|, i requires 0 <= i < |s| => Numbered(s[i], i))
  }

  function Normalize(node: NodeConfig): NodeConfig {
    node.(interfaces := Renumber(Sorting.Sort(INTERFACE_ORDER, node.interfaces)))
  }

  /** Sorts a copy of the interfaces and renumbers it by position. */
  method NormalizeNodeConfig(node: NodeConfig) returns (r: NodeConfig)
    ensures r == Normalize(node)
  {
    var ifaces := Sorting.SortCopy(INTERFACE_ORDER, node.interfaces);
    ghost var sorted := ifaces;
    for i := 0 to |ifaces|
      invariant |ifaces| == |sorted|
      invariant forall k :: 0 <= k < i ==> ifaces[k] == Numbered(sorted[k], k)
      invariant forall k :: i <= k < |sorted| ==> ifaces[k] == sorted[k]
    {
      ifaces := ifaces[i := ifaces[i].(id := i)];
      ifaces := ifaces[i := ifaces[i].(name := InterfaceName(i))];
    }
    assert ifaces == Renumber(sorted);
    r := node.(interfaces := ifaces);
  }

  /** An interface without the two fields that only say where it stands in the list. */
  function Bare(iface: NodeInterface): NodeInterface {
    iface.(id := 0, name := "")
  }

  const BARE: NodeInterface -> NodeInterface := iface => Bare(iface)

  function BareAll(s: seq<NodeInterface>): seq<NodeInterface> {
    Seqs.Map(BARE, s)
  }

  /** No two different interfaces tie under the sort key; distinct port IDs give this. */
  ghost predicate NoTies(node: NodeConfig) {
    Sorting.Separates(INTERFACE_ORDER, multiset(BareAll(node.interfaces)))
  }

  const PORT_ID: NodeInterface -> string := (iface: NodeInterface) => iface.portID

  lemma DistinctPortIDsGiveNoTies(node: NodeConfig)
    requires Seqs.Distinct(Seqs.Map(PORT_ID, node.interfaces))
    ensures NoTies(node)
  {
    Text.BeforeIsTotalOrder();
    var bare, ids := BareAll(node.interfaces), Seqs.Map(PORT_ID, node.interfaces);
    forall a, b | a in multiset(bare) && b in multiset(bare) && a != b
      ensures INTERFACE_ORDER(a, b) || INTERFACE_ORDER(b, a)
    {
      var i :| 0 <= i < |bare| && bare[i] == a;
      var j :| 0 <= j < |bare| && bare[j] == b;
      assert a.portID == ids[i] && b.portID == ids[j];
    }
  }

  lemma {:induction false} InsertBare(x: NodeInterface, s: seq<NodeInterface>)
    ensures BareAll(Sorting.Insert(INTERFACE_ORDER, x, s)) == Sorting.Insert(INTERFACE_ORDER, Bare(x), BareAll(s))
  {
    if s == [] {
    } else if INTERFACE_ORDER(x, s[|s| - 1]) {
      var init := s[..|s| - 1];
      InsertBare(x, init);
      assert BareAll(s)[..|s| - 1] == BareAll(init);
    } else {
      assert BareAll(s + [x]) == BareAll(s) + [Bare(x)];
    }
  }

  /** The sort key ignores position, so stripping positions commutes with sorting. */
  lemma {:induction false} SortBare(s: seq<NodeInterface>)
    ensures BareAll(Sorting.Sort(INTERFACE_ORDER, s)) == Sorting.Sort(INTERFACE_ORDER, BareAll(s))
  {
    if s == [] {
    } else {
      var init, last := s[..|s| - 1], s[|s| - 1];
      SortBare(init);
      InsertBare(last, Sorting.Sort(INTERFACE_ORDER, init));
      assert BareAll(s)[..|s| - 1] == BareAll(init);
    }
  }

  lemma RenumberIsPositional(s: seq<NodeInterface>, t: seq<NodeInterface>)
    ensures Renumber(s) == Renumber(t) <==> BareAll(s) == BareAll(t)
  {
  }

  lemma BareOfNormalized(node: NodeConfig)
    ensures BareAll(Normalize(node).interfaces) == Sorting.Sort(INTERFACE_ORDER, BareAll(node.interfaces))
  {
    var sorted := Sorting.Sort(INTERFACE_ORDER, node.interfaces);
    SortBare(node.interfaces);
    assert BareAll(Renumber(sorted)) == BareAll(sorted);
  }

  /** Two configs have the same canonical form, hence the same hash, exactly when they name the same
      node and instance and hold the same interfaces up to order, index and name. */
  lemma NormalFormIsCanonical(a: NodeConfig, b: NodeConfig)
    requires NoTies(a)
    ensures Normalize(a) == Normalize(b) <==>
            && a.nodeName == b.nodeName && a.instanceID == b.instanceID
            && multiset(BareAll(a.interfaces)) == multiset(BareAll(b.interfaces))
  {
    InterfaceOrderIsStrict();
    var less, s, t := INTERFACE_ORDER, a.interfaces, b.interfaces;
    RenumberIsPositional(Sorting.Sort(less, s), Sorting.Sort(less, t));
    SortBare(s);
    SortBare(t);
    Sorting.SortCorrect(less, BareAll(s));
    Sorting.SortCorrect(less, BareAll(t));
    if multiset(BareAll(s)) == multiset(BareAll(t)) {
      Sorting.SortOfPermutation(less, BareAll(s), BareAll(t));
    }
  }

  /** The sort key ignores position, so numbering keeps the order. */
  lemma RenumberKeepsOrder(s: seq<NodeInterface>)
    requires Sorting.Sorted(INTERFACE_ORDER, s)
    ensures Sorting.Sorted(INTERFACE_ORDER, Renumber(s))
  {
    var r := Renumber(s);
    forall i, j | 0 <= i < j < |r| ensures !INTERFACE_ORDER(r[j], r[i]) {
      assert !INTERFACE_ORDER(s[j], s[i]);
    }
  }

  /** The canonical form keeps the interfaces, orders them, numbers them by position, and is a fixed
      point of normalization. */
  lemma NormalFormProperties(node: NodeConfig)
    ensures var r := Normalize(node).interfaces;
            && multiset(BareAll(r)) == multiset(BareAll(node.interfaces))
            && Sorting.Sorted(INTERFACE_ORDER, r)
            && (forall i :: 0 <= i < |r| ==> r[i].id == i && r[i].name == InterfaceName(i))
    ensures Normalize(Normalize(node)) == Normalize(node)
  {
    InterfaceOrderIsStrict();
    var r := Normalize(node).interfaces;
    Sorting.SortCorrect(INTERFACE_ORDER, node.interfaces);
    RenumberKeepsOrder(Sorting.Sort(INTERFACE_ORDER, node.interfaces));
    BareOfNormalized(node);
    Sorting.SortCorrect(INTERFACE_ORDER, BareAll(node.interfaces));
    Sorting.SortFixed(INTERFACE_ORDER, r);
    assert Renumber(r) == r;
  }

  /** The posted order is by MAC, then port ID, then address. */
  lemma NormalFormOrder(node: NodeConfig)
    ensures var r := Normalize(node).interfaces;
            forall i, j :: 0 <= i < j < |r| ==>
                             && !Text.Before(r[j].mac, r[i].mac)
                             && (r[i].mac == r[j].mac ==> !Text.Before(r[j].portID, r[i].portID))
                             && (r[i].mac == r[j].mac && r[i].portID == r[j].portID ==>
                                   !Text.Before(r[j].address, r[i].address))
  {
    NormalFormProperties(node);
    Text.BeforeIsTotalOrder();
    var r := Normalize(node).interfaces;
    forall i, j | 0 <= i < j < |r| ensures !InterfaceBefore(r[j], r[i]) {
      assert !INTERFACE_ORDER(r[j], r[i]);
    }
  }

  /** Port IDs are distinct within a node, so the order is strict and any sorting algorithm yields
      this normal form. */
  lemma NormalFormIsStrict(node: NodeConfig)
    requires Seqs.Distinct(Seqs.Map(PORT_ID, node.interfaces))
    ensures var r := Normalize(node).interfaces;
            forall i, j :: 0 <= i < j < |r| ==> r[i].portID != r[j].portID && InterfaceBefore(r[i], r[j])
  {
    var sorted := Sorting.Sort(INTERFACE_ORDER, node.interfaces);
    var r := Normalize(node).interfaces;
    InterfaceOrderIsStrict();
    Text.BeforeIsTotalOrder();
    Sorting.SortCorrect(INTERFACE_ORDER, node.interfaces);
    Seqs.MapOfPermutation(PORT_ID, node.interfaces, sorted);
    Seqs.DistinctPermutation(Seqs.Map(PORT_ID, node.interfaces), Seqs.Map(PORT_ID, sorted));
    forall i, j | 0 <= i < j < |r| ensures r[i].portID != r[j].portID && InterfaceBefore(r[i], r[j]) {
      assert Seqs.Map(PORT_ID, sorted)[i] != Seqs.Map(PORT_ID, sorted)[j];
      assert !INTERFACE_ORDER(sorted[j], sorted[i]);
    }
  }
}
