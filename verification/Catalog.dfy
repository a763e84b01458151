/** The per-provider view of the inventory. */
module Catalog {
  import opened Inventory
  import Seqs
  import Sorting
  import Text

  datatype NodeRecord = NodeRecord(providerID: string, nodeName: string, instanceID: string, interfaceCount: nat,
                                   updatedAt: int)

  datatype Summary = Summary(providerID: string, nodeCount: nat, updatedAt: int, nodes: seq<NodeRecord>)

  /** The zero time, year 1; times count from there. */
  const ZERO_TIME := 0

  function NodeOf(rec: Record): NodeRecord {
    NodeRecord(rec.providerID, rec.nodeName, rec.instanceID, |rec.config.interfaces|, rec.updatedAt)
  }

  const NODE_OF: Record -> NodeRecord := (rec: Record) => NodeOf(rec)

  function Of(providerID: string): Record -> bool {
    (rec: Record) => rec.providerID == providerID
  }

  const HAS_PROVIDER: Record -> bool := (rec: Record) => rec.providerID != ""

  /** One provider's node records, in the order the records came. */
  function NodesOf(records: seq<Record>, providerID: string): seq<NodeRecord> {
    Seqs.Map(NODE_OF, Seqs.Filter(Of(providerID), records))
  }

  const NODE_ORDER: (NodeRecord, NodeRecord) -> bool :=
    (a: NodeRecord, b: NodeRecord) => Text.Before(a.nodeName, b.nodeName)
  const PROVIDER_ORDER: (Summary, Summary) -> bool :=
    (a: Summary, b: Summary) => Text.Before(a.providerID, b.providerID)

  /** `t` is the latest of the update times, or the zero time when none is later. */
  ghost predicate IsLatest(t: int, nodes: seq<NodeRecord>) {
    && t >= ZERO_TIME && (forall i :: 0 <= i < |nodes| ==> nodes[i].updatedAt <= t)
    && (t == ZERO_TIME || exists i :: 0 <= i < |nodes| && nodes[i].updatedAt == t)
  }

  /** A provider's summary: its records' nodes in some order, counted, with the latest update time. */
  ghost predicate Summarizes(s: Summary, records: seq<Record>) {
    && multiset(s.nodes) == multiset(NodesOf(records, s.providerID))
    && s.nodeCount == |s.nodes|
    && IsLatest(s.updatedAt, s.nodes)
  }

  function ProviderIDs(out: seq<Summary>): set<string> {
    set s | s in out :: s.providerID
  }

  /** The non-empty provider IDs of the records. */
  function Providers(records: seq<Record>): set<string> {
    set rec | rec in records && rec.providerID != "" :: rec.providerID
  }

  ghost predicate StrictlySorted(out: seq<Summary>) {
    forall i, j :: 0 <= i < j < |out| ==> Text.Before(out[i].providerID, out[j].providerID)
  }

  /** The catalog of the records: one summary per non-empty provider ID, sorted by it, with its nodes sorted
      by name. */
  ghost predicate IsCatalog(out: seq<Summary>, records: seq<Record>) {
    && StrictlySorted(out)
    && ProviderIDs(out) == Providers(records)
    && (forall s :: s in out ==> Summarizes(s, records) && Sorting.Sorted(NODE_ORDER, s.nodes))
  }

  // ---------- Building it ----------

  /** The summary gathered for a provider from the records so far. */
  ghost predicate Entry(s: Summary, p: string, records: seq<Record>) {
    && s.providerID == p && s.nodes == NodesOf(records, p) && s.nodeCount == |s.nodes|
    && IsLatest(s.updatedAt, s.nodes)
  }

  ghost predicate Gathered(per: map<string, Summary>, records: seq<Record>) {
    per.Keys == Providers(records) && forall p :: p in per ==> Entry(per[p], p, records)
  }

  lemma ProvidersSnoc(records: seq<Record>, rec: Record)
    ensures Providers(records + [rec]) == Providers(records) + if rec.providerID == "" then {} else {rec.providerID}
  {
  }

  lemma NodesOfSnoc(records: seq<Record>, rec: Record, p: string)
    ensures NodesOf(records + [rec], p) ==
            if rec.providerID == p then NodesOf(records, p) + [NodeOf(rec)] else NodesOf(records, p)
  {
  }

  lemma {:induction false} NodesOfNone(records: seq<Record>, p: string)
    requires p != "" && p !in Providers(records)
    ensures NodesOf(records, p) == []
  {
    if records == [] {
    } else {
      var init, last := records[..|records| - 1], records[|records| - 1];
      assert records == init + [last];
      ProvidersSnoc(init, last);
      NodesOfNone(init, p);
      NodesOfSnoc(init, last, p);
    }
  }

  function Extended(s: Summary, rec: Record): Summary {
    Summary(s.providerID, |s.nodes| + 1, if rec.updatedAt > s.updatedAt then rec.updatedAt else s.updatedAt,
            s.nodes + [NodeOf(rec)])
  }

  lemma ExtendedEntry(s: Summary, records: seq<Record>, rec: Record)
    requires Entry(s, rec.providerID, records)
    ensures Entry(Extended(s, rec), rec.providerID, records + [rec])
  {
    var s' := Extended(s, rec);
    NodesOfSnoc(records, rec, rec.providerID);
    assert s'.nodes[|s.nodes|] == NodeOf(rec);
    if s'.updatedAt == s.updatedAt != ZERO_TIME {
      var i :| 0 <= i < |s.nodes| && s.nodes[i].updatedAt == s.updatedAt;
      assert s'.nodes[i].updatedAt == s'.updatedAt;
    }
  }

  lemma OtherEntries(per: map<string, Summary>, records: seq<Record>, rec: Record)
    requires Gathered(per, records)
    ensures forall p :: p in per && p != rec.providerID ==> Entry(per[p], p, records + [rec])
  {
  }

  function EntryOrNew(per: map<string, Summary>, p: string): Summary {
    if p in per then per[p] else Summary(p, 0, ZERO_TIME, [])
  }

  lemma NewEntry(per: map<string, Summary>, p: string, records: seq<Record>)
    requires Gathered(per, records) && p != ""
    ensures Entry(EntryOrNew(per, p), p, records)
  {
    if p !in per {
      NodesOfNone(records, p);
    }
  }

  lemma UpdateEntry(per: map<string, Summary>, p: string, s: Summary, records: seq<Record>)
    requires per.Keys + {p} == Providers(records) && Entry(s, p, records)
    requires forall q :: q in per && q != p ==> Entry(per[q], q, records)
    ensures Gathered(per[p := s], records)
  {
  }

  lemma GatherOne(per: map<string, Summary>, records: seq<Record>, rec: Record)
    requires Gathered(per, records)
    ensures Gathered(if rec.providerID == "" then per
                     else per[rec.providerID := Extended(EntryOrNew(per, rec.providerID), rec)],
                     records + [rec])
  {
    ProvidersSnoc(records, rec);
    OtherEntries(per, records, rec);
    if rec.providerID == "" {
      assert "" !in per;
    } else {
      NewEntry(per, rec.providerID, records);
      ExtendedEntry(EntryOrNew(per, rec.providerID), records, rec);
      UpdateEntry(per, rec.providerID, Extended(EntryOrNew(per, rec.providerID), rec), records + [rec]);
    }
  }

  method Gather(records: seq<Record>) returns (per: map<string, Summary>)
    ensures Gathered(per, records)
  {
    per := map[];
    for i := 0 to |records|
      invariant Gathered(per, records[..i])
    {
      var rec := records[i];
      assert records[..i + 1] == records[..i] + [rec];
      GatherOne(per, records[..i], rec);
      if rec.providerID == "" {
        continue;
      }
      var entry := EntryOrNew(per, rec.providerID);
      entry := entry.(nodes := entry.nodes + [NodeOf(rec)]);
      entry := entry.(nodeCount := |entry.nodes|);
      if rec.updatedAt > entry.updatedAt {
        entry := entry.(updatedAt := rec.updatedAt);
      }
      per := per[rec.providerID := entry];
    }
    assert records[..|records|] == records;
  }

  /** The gathered summary with its nodes sorted. */
  function Finished(s: Summary): Summary {
    s.(nodes := Sorting.Sort(NODE_ORDER, s.nodes))
  }

  ghost predicate DistinctProviders(out: seq<Summary>) {
    forall i, j :: 0 <= i < j < |out| ==> out[i].providerID != out[j].providerID
  }

  /** One finished summary per gathered provider. */
  ghost predicate AllFinished(out: seq<Summary>, per: map<string, Summary>) {
    && ProviderIDs(out) == per.Keys
    && DistinctProviders(out)
    && forall s :: s in out ==> s.providerID in per && s == Finished(per[s.providerID])
  }

  lemma FinishOne(out: seq<Summary>, per: map<string, Summary>, p: string, s: Summary)
    requires AllFinished(out, per) && p !in per && s.providerID == p
    ensures AllFinished(out + [Finished(s)], per[p := s])
  {
  }

  /** Walks the map in an arbitrary order, sorting each provider's nodes. */
  method Finish(per: map<string, Summary>) returns (out: seq<Summary>)
    requires forall p :: p in per ==> per[p].providerID == p
    ensures AllFinished(out, per)
  {
    out := [];
    var todo := per.Keys;
    while todo != {}
      invariant todo <= per.Keys
      invariant AllFinished(out, per - todo)
    {
      var p :| p in todo;
      FinishOne(out, per - todo, p, per[p]);
      assert (per - todo)[p := per[p]] == per - (todo - {p});
      todo := todo - {p};
      var nodes := Sorting.SortCopy(NODE_ORDER, per[p].nodes);
      out := out + [per[p].(nodes := nodes)];
    }
    assert per - todo == per;
  }

  lemma OrdersAreStrict()
    ensures Sorting.StrictWeakOrder(NODE_ORDER) && Sorting.StrictWeakOrder(PROVIDER_ORDER)
  {
    Text.BeforeIsTotalOrder();
  }

  lemma LatestOfPermutation(t: int, a: seq<NodeRecord>, b: seq<NodeRecord>)
    requires IsLatest(t, a) && multiset(a) == multiset(b)
    ensures IsLatest(t, b)
  {
    forall i | 0 <= i < |b| ensures b[i].updatedAt <= t {
      assert b[i] in multiset(a);
    }
    if t != ZERO_TIME {
      var i :| 0 <= i < |a| && a[i].updatedAt == t;
      assert a[i] in multiset(b);
    }
  }

  lemma FinishedSummarizes(s: Summary, p: string, records: seq<Record>)
    requires Entry(s, p, records)
    ensures Summarizes(Finished(s), records) && Sorting.Sorted(NODE_ORDER, Finished(s).nodes)
  {
    OrdersAreStrict();
    Sorting.SortCorrect(NODE_ORDER, s.nodes);
    LatestOfPermutation(s.updatedAt, s.nodes, Finished(s).nodes);
  }

  const PROVIDER_ID: Summary -> string := (s: Summary) => s.providerID

  lemma SortedProviders(out: seq<Summary>)
    requires DistinctProviders(out)
    ensures StrictlySorted(Sorting.Sort(PROVIDER_ORDER, out))
  {
    var r := Sorting.Sort(PROVIDER_ORDER, out);
    OrdersAreStrict();
    Text.BeforeIsTotalOrder();
    Sorting.SortCorrect(PROVIDER_ORDER, out);
    Seqs.MapOfPermutation(PROVIDER_ID, out, r);
    Seqs.DistinctPermutation(Seqs.Map(PROVIDER_ID, out), Seqs.Map(PROVIDER_ID, r));
    forall i, j | 0 <= i < j < |r| ensures Text.Before(r[i].providerID, r[j].providerID) {
      assert Seqs.Map(PROVIDER_ID, r)[i] != Seqs.Map(PROVIDER_ID, r)[j];
      assert !PROVIDER_ORDER(r[j], r[i]);
    }
  }

  lemma SameMembers(out: seq<Summary>)
    ensures forall s :: s in Sorting.Sort(PROVIDER_ORDER, out) <==> s in out
  {
    OrdersAreStrict();
    Sorting.SortCorrect(PROVIDER_ORDER, out);
    forall s ensures s in Sorting.Sort(PROVIDER_ORDER, out) <==> s in out {
      assert s in multiset(out) <==> s in multiset(Sorting.Sort(PROVIDER_ORDER, out));
    }
  }

  /** Sorting the finished summaries by provider ID gives the catalog. */
  lemma SortedIsCatalog(out: seq<Summary>, per: map<string, Summary>, records: seq<Record>)
    requires Gathered(per, records) && AllFinished(out, per)
    ensures IsCatalog(Sorting.Sort(PROVIDER_ORDER, out), records)
  {
    SortedProviders(out);
    SameMembers(out);
    forall s | s in out ensures Summarizes(s, records) && Sorting.Sorted(NODE_ORDER, s.nodes) {
      FinishedSummarizes(per[s.providerID], s.providerID, records);
    }
  }

  method BuildProviderCatalog(records: seq<Record>) returns (out: seq<Summary>)
    ensures IsCatalog(out, records)
  {
    var per := Gather(records);
    var summaries := Finish(per);
    SortedIsCatalog(summaries, per, records);
    out := Sorting.SortCopy(PROVIDER_ORDER, summaries);
  }

  // ---------- What it means ----------

  function NodeCounts(out: seq<Summary>): nat {
    if out == [] then 0 else NodeCounts(out[..|out| - 1]) + out[|out| - 1].nodeCount
  }

  function ProviderIn(ids: set<string>): Record -> bool {
    (rec: Record) => rec.providerID in ids
  }

  /** Records of one more provider. */
  lemma {:induction false} SplitCount(ids: set<string>, p: string, records: seq<Record>)
    requires p !in ids
    ensures |Seqs.Filter(ProviderIn(ids + {p}), records)| ==
            |Seqs.Filter(ProviderIn(ids), records)| + |Seqs.Filter(Of(p), records)|
  {
    if records == [] {
    } else {
      SplitCount(ids, p, records[..|records| - 1]);
    }
  }

  lemma {:induction false} NoProviderCount(records: seq<Record>)
    ensures Seqs.Filter(ProviderIn({}), records) == []
  {
    if records == [] {
    } else {
      NoProviderCount(records[..|records| - 1]);
    }
  }

  lemma ProviderIDsSnoc(out: seq<Summary>, s: Summary)
    ensures ProviderIDs(out + [s]) == ProviderIDs(out) + {s.providerID}
  {
  }

  lemma {:induction false} CountsAddUp(out: seq<Summary>, records: seq<Record>)
    requires DistinctProviders(out)
    requires forall s :: s in out ==> s.nodeCount == |NodesOf(records, s.providerID)|
    ensures NodeCounts(out) == |Seqs.Filter(ProviderIn(ProviderIDs(out)), records)|
  {
    if out == [] {
      assert ProviderIDs(out) == {};
      NoProviderCount(records);
    } else {
      var init, last := out[..|out| - 1], out[|out| - 1];
      assert out == init + [last];
      CountsAddUp(init, records);
      ProviderIDsSnoc(init, last);
      SplitCount(ProviderIDs(init), last.providerID, records);
    }
  }

  lemma {:induction false} FilterAgree(a: Record -> bool, b: Record -> bool, records: seq<Record>)
    requires forall rec :: rec in records ==> a(rec) == b(rec)
    ensures Seqs.Filter(a, records) == Seqs.Filter(b, records)
  {
    if records == [] {
    } else {
      FilterAgree(a, b, records[..|records| - 1]);
    }
  }

  /** A summary lists exactly its provider's records: for each the node, the instance, the number of interfaces and
      the time of the last update. */
  lemma CatalogNodes(out: seq<Summary>, records: seq<Record>, s: Summary, n: NodeRecord)
    requires IsCatalog(out, records) && s in out
    ensures n in s.nodes <==>
            exists rec :: rec in records && rec.providerID == s.providerID
              && n.providerID == rec.providerID && n.nodeName == rec.nodeName && n.instanceID == rec.instanceID
              && n.interfaceCount == |rec.config.interfaces| && n.updatedAt == rec.updatedAt
  {
    var mine := Seqs.Filter(Of(s.providerID), records);
    var nodes := NodesOf(records, s.providerID);
    assert n in s.nodes <==> n in multiset(s.nodes);
    assert n in nodes <==> n in multiset(nodes);
    if n in nodes {
      var i :| 0 <= i < |nodes| && nodes[i] == n;
      assert mine[i] in mine;
    }
    if rec :| rec in records && rec.providerID == s.providerID && n == NodeOf(rec) {
      Seqs.FilterMember(Of(s.providerID), records, rec);
      var i :| 0 <= i < |mine| && mine[i] == rec;
      assert nodes[i] == n;
    }
  }

  /** The summaries partition the records with a provider: the node counts add up to their number. */
  lemma CatalogConserves(out: seq<Summary>, records: seq<Record>)
    requires IsCatalog(out, records)
    ensures NodeCounts(out) == |Seqs.Filter(HAS_PROVIDER, records)|
  {
    Text.BeforeIsTotalOrder();
    forall s | s in out ensures s.nodeCount == |NodesOf(records, s.providerID)| {
      assert Summarizes(s, records);
      assert |multiset(s.nodes)| == |multiset(NodesOf(records, s.providerID))|;
    }
    CountsAddUp(out, records);
    FilterAgree(ProviderIn(ProviderIDs(out)), HAS_PROVIDER, records);
  }

  /** No two records are for the same node of the same provider, as in any store. */
  ghost predicate DistinctNodes(records: seq<Record>) {
    forall i, j :: 0 <= i < j < |records| ==> KeyOf(records[i]) != KeyOf(records[j])
  }

  const NODE_NAME: NodeRecord -> string := (n: NodeRecord) => n.nodeName

  lemma NodeNamesDistinct(records: seq<Record>, p: string)
    requires DistinctNodes(records)
    ensures Seqs.Distinct(Seqs.Map(NODE_NAME, NodesOf(records, p)))
  {
    var mine := Seqs.Filter(Of(p), records);
    var rel := (a: Record, b: Record) => KeyOf(a) != KeyOf(b);
    Seqs.FilterKeepsPairs(Of(p), records, rel);
    var names := Seqs.Map(NODE_NAME, NodesOf(records, p));
    forall i, j | 0 <= i < j < |names| ensures names[i] != names[j] {
      assert rel(mine[i], mine[j]);
      assert mine[i] in mine && mine[j] in mine;
    }
  }

  /** Within a summary the node names increase strictly. */
  lemma StrictNodes(s: Summary, records: seq<Record>)
    requires DistinctNodes(records) && Summarizes(s, records) && Sorting.Sorted(NODE_ORDER, s.nodes)
    ensures forall i, j :: 0 <= i < j < |s.nodes| ==> Text.Before(s.nodes[i].nodeName, s.nodes[j].nodeName)
  {
    var nodes := NodesOf(records, s.providerID);
    Text.BeforeIsTotalOrder();
    NodeNamesDistinct(records, s.providerID);
    Seqs.MapOfPermutation(NODE_NAME, nodes, s.nodes);
    Seqs.DistinctPermutation(Seqs.Map(NODE_NAME, nodes), Seqs.Map(NODE_NAME, s.nodes));
    forall i, j | 0 <= i < j < |s.nodes| ensures Text.Before(s.nodes[i].nodeName, s.nodes[j].nodeName) {
      assert Seqs.Map(NODE_NAME, s.nodes)[i] != Seqs.Map(NODE_NAME, s.nodes)[j];
      assert !NODE_ORDER(s.nodes[j], s.nodes[i]);
    }
  }

  lemma StrictSeparates(nodes: seq<NodeRecord>)
    requires forall i, j :: 0 <= i < j < |nodes| ==> Text.Before(nodes[i].nodeName, nodes[j].nodeName)
    ensures Sorting.Separates(NODE_ORDER, multiset(nodes))
  {
  }

  lemma LatestUnique(t: int, t': int, nodes: seq<NodeRecord>)
    requires IsLatest(t, nodes) && IsLatest(t', nodes)
    ensures t == t'
  {
  }

  lemma SummaryUnique(s: Summary, s': Summary, records: seq<Record>, records': seq<Record>)
    requires DistinctNodes(records) && multiset(records) == multiset(records') && s.providerID == s'.providerID
    requires Summarizes(s, records) && Sorting.Sorted(NODE_ORDER, s.nodes)
    requires Summarizes(s', records') && Sorting.Sorted(NODE_ORDER, s'.nodes)
    ensures s == s'
  {
    Seqs.FilterOfPermutation(Of(s.providerID), records, records');
    Seqs.MapOfPermutation(NODE_OF, Seqs.Filter(Of(s.providerID), records), Seqs.Filter(Of(s.providerID), records'));
    StrictNodes(s, records);
    StrictSeparates(s.nodes);
    Sorting.SortedUnique(NODE_ORDER, s.nodes, s'.nodes);
    LatestUnique(s.updatedAt, s'.updatedAt, s.nodes);
  }

  lemma SameRecordsSameProviders(a: seq<Record>, b: seq<Record>)
    requires multiset(a) == multiset(b)
    ensures Providers(a) == Providers(b)
  {
    forall rec ensures rec in a <==> rec in b {
      assert rec in multiset(a) <==> rec in multiset(b);
    }
  }

  lemma StrictOrder(a: seq<Summary>)
    requires StrictlySorted(a)
    ensures Seqs.Distinct(a) && Sorting.Sorted(PROVIDER_ORDER, a) && Sorting.Separates(PROVIDER_ORDER, multiset(a))
  {
    Text.BeforeIsTotalOrder();
    forall x, y | x in multiset(a) && y in multiset(a) && x != y ensures PROVIDER_ORDER(x, y) || PROVIDER_ORDER(y, x) {
      var i :| 0 <= i < |a| && a[i] == x;
      var j :| 0 <= j < |a| && a[j] == y;
      assert i < j || j < i;
    }
  }

  lemma MembersAgree(a: seq<Summary>, b: seq<Summary>)
    requires ProviderIDs(a) == ProviderIDs(b)
    requires forall x, y :: x in a && y in b && x.providerID == y.providerID ==> x == y
    ensures forall x :: x in a ==> x in b
  {
    forall x | x in a ensures x in b {
      assert x.providerID in ProviderIDs(b);
      var y :| y in b && y.providerID == x.providerID;
    }
  }

  /** Two strictly sorted lists of summaries over the same providers that agree on each are equal. */
  lemma SummariesUnique(a: seq<Summary>, b: seq<Summary>)
    requires StrictlySorted(a) && StrictlySorted(b) && ProviderIDs(a) == ProviderIDs(b)
    requires forall x, y :: x in a && y in b && x.providerID == y.providerID ==> x == y
    ensures a == b
  {
    StrictOrder(a);
    StrictOrder(b);
    MembersAgree(a, b);
    MembersAgree(b, a);
    Seqs.SameMembersPermute(a, b);
    Sorting.SortedUnique(PROVIDER_ORDER, a, b);
  }

  /** The catalog does not depend on the order in which the store lists its records. */
  lemma CatalogIsOrderIndependent(out: seq<Summary>, out': seq<Summary>, records: seq<Record>, records': seq<Record>)
    requires DistinctNodes(records) && multiset(records) == multiset(records')
    requires IsCatalog(out, records) && IsCatalog(out', records')
    ensures out == out'
  {
    SameRecordsSameProviders(records, records');
    forall x, y | x in out && y in out' && x.providerID == y.providerID ensures x == y {
      SummaryUnique(x, y, records, records');
    }
    SummariesUnique(out, out');
  }

  /** The same for a store: any two listings of one inventory give the same catalog, its nodes strictly
      sorted by name inside each provider. */
  lemma StoreCatalogUnique(data: Data, a: seq<Record>, b: seq<Record>, out: seq<Summary>, out': seq<Summary>)
    requires Enumerates(a, data) && Enumerates(b, data)
    requires IsCatalog(out, a) && IsCatalog(out', b)
    ensures out == out'
    ensures forall s, i, j :: s in out && 0 <= i < j < |s.nodes| ==>
              Text.Before(s.nodes[i].nodeName, s.nodes[j].nodeName)
  {
    EnumerationMeaning(a);
    EnumerationsArePermutations(a, b, data);
    CatalogIsOrderIndependent(out, out', a, b);
    forall s | s in out
      ensures forall i, j :: 0 <= i < j < |s.nodes| ==> Text.Before(s.nodes[i].nodeName, s.nodes[j].nodeName)
    {
      StrictNodes(s, a);
    }
  }
}
