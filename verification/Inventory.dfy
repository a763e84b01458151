/** The file-backed inventory of what was last sent for each (provider, node). */
module Inventory {
  import opened Viola

  datatype Record = Record(providerID: string, nodeName: string, instanceID: string, config: NodeConfig,
                           lastConfigHash: Hash, updatedAt: int)

  type Data = map<string, Record>

  function Key(providerID: string, nodeName: string): string {
    providerID + "|" + nodeName
  }

  function KeyOf(rec: Record): string {
    Key(rec.providerID, rec.nodeName)
  }

  ghost predicate WellKeyed(data: Data) {
    forall k :: k in data ==> k == KeyOf(data[k])
  }

  // ---------- The file ----------

  /** The inventory file, or its temporary sibling, as the next reader finds it. */
  datatype File = Missing | Unreadable | Malformed | Payload(records: seq<Record>)

  /** How one attempt to persist ends. A crash at that point leaves the same files. */
  datatype Outcome = Renamed | WriteFailed(left: File) | RenameFailed

  /** The map that reading the records one by one builds. */
  function Loaded(records: seq<Record>): Data {
    if records == [] then map[]
    else Loaded(records[..|records| - 1])[KeyOf(records[|records| - 1]) := records[|records| - 1]]
  }

  function FileData(file: File): Data {
    if file.Payload? then Loaded(file.records) else map[]
  }

  /** The records are the map's values, each key visited once, in any order. */
  ghost predicate Enumerates(records: seq<Record>, data: Data) {
    Loaded(records) == data && |records| == |data|
  }

  lemma {:induction false} LoadedIsWellKeyed(records: seq<Record>)
    ensures WellKeyed(Loaded(records)) && |Loaded(records)| <= |records|
    ensures forall k :: k in Loaded(records) ==> Loaded(records)[k] in records
  {
    if records == [] {
    } else {
      var init, last := records[..|records| - 1], records[|records| - 1];
      LoadedIsWellKeyed(init);
      assert Loaded(records).Keys == Loaded(init).Keys + {KeyOf(last)};
    }
  }

  /** Of several records in the file for one node the last one stands. */
  lemma {:induction false} LastRecordWins(records: seq<Record>, i: nat)
    requires i < |records| && forall j :: i < j < |records| ==> KeyOf(records[j]) != KeyOf(records[i])
    ensures KeyOf(records[i]) in Loaded(records) && Loaded(records)[KeyOf(records[i])] == records[i]
  {
    if i == |records| - 1 {
    } else {
      LastRecordWins(records[..|records| - 1], i);
    }
  }

  lemma LoadedOneMore(records: seq<Record>)
    requires records != [] && |records| == |Loaded(records)|
    ensures var init, last := records[..|records| - 1], records[|records| - 1];
            |init| == |Loaded(init)| && KeyOf(last) !in Loaded(init)
  {
    var init, last := records[..|records| - 1], records[|records| - 1];
    LoadedIsWellKeyed(init);
    assert Loaded(records).Keys == Loaded(init).Keys + {KeyOf(last)};
  }

  lemma EnumerateOneMore(records: seq<Record>, data: Data, rec: Record)
    requires Enumerates(records, data) && KeyOf(rec) !in data
    ensures Enumerates(records + [rec], data[KeyOf(rec) := rec])
  {
  }

  /** An enumeration never lists a key twice, and lists exactly the map's values. */
  lemma {:induction false} EnumerationMeaning(records: seq<Record>)
    requires |records| == |Loaded(records)|
    ensures forall i, j :: 0 <= i < j < |records| ==> KeyOf(records[i]) != KeyOf(records[j])
    ensures forall i :: 0 <= i < |records| ==>
                          KeyOf(records[i]) in Loaded(records) && Loaded(records)[KeyOf(records[i])] == records[i]
  {
    if records == [] {
    } else {
      LoadedOneMore(records);
      EnumerationMeaning(records[..|records| - 1]);
    }
  }

  /** The values of the listed keys. */
  function ValuesOf(data: Data, keys: seq<string>): (r: seq<Record>)
    requires forall k :: k in keys ==> k in data
    ensures |r| == |keys| && forall i :: 0 <= i < |keys| ==> r[i] == data[keys[i]]
  {
    seq(|keys|, i requires 0 <= i < |keys| => data[keys[i]])
  }

  function Restricted(data: Data, keys: seq<string>): Data {
    map k | k in keys && k in data :: data[k]
  }

  lemma ValuesSnoc(data: Data, init: seq<string>, last: string)
    requires last in data && forall k :: k in init ==> k in data
    ensures forall k :: k in init + [last] ==> k in data
    ensures ValuesOf(data, init + [last]) == ValuesOf(data, init) + [data[last]]
    ensures Restricted(data, init + [last]) == Restricted(data, init)[last := data[last]]
  {
  }

  lemma OneMoreKey(data: Data, records: seq<Record>, part: Data, k: string)
    requires k in data && KeyOf(data[k]) == k && k !in part && Enumerates(records, part)
    ensures Enumerates(records + [data[k]], part[k := data[k]])
  {
    EnumerateOneMore(records, part, data[k]);
  }

  lemma {:induction false} ValuesReload(data: Data, keys: seq<string>)
    requires WellKeyed(data) && forall k :: k in keys ==> k in data
    requires forall i, j :: 0 <= i < j < |keys| ==> keys[i] != keys[j]
    ensures Enumerates(ValuesOf(data, keys), Restricted(data, keys))
  {
    if keys == [] {
    } else {
      var init, last := keys[..|keys| - 1], keys[|keys| - 1];
      assert last !in init && KeyOf(data[last]) == last;
      ValuesReload(data, init);
      ValuesSnoc(data, init, last);
      assert keys == init + [last];
      OneMoreKey(data, ValuesOf(data, init), Restricted(data, init), last);
    }
  }

  /** Whatever order the map is walked in, reading the records back rebuilds the same map, because every
      record is stored under its own key. */
  lemma AnyOrderReloads(data: Data, keys: seq<string>)
    requires WellKeyed(data) && forall k :: k in keys <==> k in data
    requires forall i, j :: 0 <= i < j < |keys| ==> keys[i] != keys[j]
    ensures Enumerates(ValuesOf(data, keys), data)
  {
    ValuesReload(data, keys);
    assert Restricted(data, keys) == data;
  }

  /** Any two enumerations of the same map are permutations of each other. */
  lemma EnumerationsArePermutations(a: seq<Record>, b: seq<Record>, data: Data)
    requires Enumerates(a, data) && Enumerates(b, data)
    ensures multiset(a) == multiset(b)
  {
    forall rec ensures multiset(a)[rec] == multiset(b)[rec] {
      EnumerationCount(a, rec);
      EnumerationCount(b, rec);
    }
  }

  lemma {:induction false} EnumerationCount(records: seq<Record>, rec: Record)
    requires |records| == |Loaded(records)|
    ensures multiset(records)[rec] ==
            if KeyOf(rec) in Loaded(records) && Loaded(records)[KeyOf(rec)] == rec then 1 else 0
  {
    if records == [] {
    } else {
      LoadedOneMore(records);
      EnumerationCount(records[..|records| - 1], rec);
      assert records == records[..|records| - 1] + [records[|records| - 1]];
    }
  }

  // ---------- The store as a value ----------

  /** Memory, what the file holds, and how many times persisting was tried. */
  datatype StoreState = StoreState(data: Data, disk: Data, writes: nat)
  {
    function HashAt(k: string): Hash {
      if k in data then data[k].lastConfigHash else Absent
    }

    /** Sets one record and tries to persist; `plan` says how each attempt ends. */
    function Upserted(plan: nat -> Outcome, providerID: string, node: NodeConfig, hash: Hash, at: int): StoreState {
      var data' := data[Key(providerID, node.nodeName) :=
                        Record(providerID, node.nodeName, node.instanceID, node, hash, at)];
      StoreState(data', if plan(writes).Renamed? then data' else disk, writes + 1)
    }

    /** A new process reads the file back. */
    function Reopened(): StoreState {
      StoreState(disk, disk, writes)
    }
  }

  /** An upsert files the config with its own node, instance, hash and time under its own key, and touches no other
      record; the file becomes all of memory or stays as it is. */
  lemma UpsertedMeaning(store: StoreState, plan: nat -> Outcome, p: string, node: NodeConfig, hash: Hash, at: int,
                        k: string)
    ensures var store' := store.Upserted(plan, p, node, hash, at);
            && (k == Key(p, node.nodeName) ==>
                  && k in store'.data
                  && var rec := store'.data[k];
                     && rec.providerID == p && rec.nodeName == node.nodeName && rec.instanceID == node.instanceID
                     && rec.config == node && rec.lastConfigHash == hash && rec.updatedAt == at)
            && (k != Key(p, node.nodeName) ==>
                  (k in store'.data <==> k in store.data) && (k in store.data ==> store'.data[k] == store.data[k]))
            && store'.disk == (if plan(store.writes).Renamed? then store'.data else store.disk)
            && store'.writes == store.writes + 1
  {
  }

  // ---------- The store ----------

  class Disk {
    const plan: nat -> Outcome
    var file: File
    var tmp: File
    var writes: nat

    constructor (plan: nat -> Outcome, file: File, tmp: File)
      ensures this.plan == plan && this.file == file && this.tmp == tmp && writes == 0
    {
      this.plan, this.file, this.tmp, writes := plan, file, tmp, 0;
    }
  }

  class Store {
    const disk: Disk
    var data: Data

    ghost predicate Valid()
      reads this
    {
      WellKeyed(data)
    }

    ghost function View(): StoreState
      reads this, disk
    {
      StoreState(data, FileData(disk.file), disk.writes)
    }

    constructor Empty(disk: Disk)
      ensures Valid() && this.disk == disk && data == map[]
    {
      this.disk := disk;
      data := map[];
    }

    /** Fails when the file exists but cannot be read or parsed. */
    static method Open(disk: Disk) returns (store: Store?)
      ensures store == null <==> disk.file.Unreadable? || disk.file.Malformed?
      ensures store != null ==> fresh(store) && store.Valid() && store.disk == disk
      ensures store != null ==> store.View() == StoreState(FileData(disk.file), FileData(disk.file), disk.writes)
    {
      if disk.file.Unreadable? || disk.file.Malformed? {
        return null;
      }
      var s := new Store.Empty(disk);
      if disk.file.Payload? {
        s.Load(disk.file.records);
      }
      store := s;
    }

    method Load(records: seq<Record>)
      requires data == map[]
      modifies this
      ensures Valid() && data == Loaded(records)
    {
      for i := 0 to |records|
        invariant data == Loaded(records[..i])
      {
        assert records[..i + 1][..i] == records[..i];
        data := data[KeyOf(records[i]) := records[i]];
      }
      assert records[..|records|] == records;
      LoadedIsWellKeyed(records);
    }

    method GetHash(providerID: string, nodeName: string) returns (hash: Hash)
      ensures hash == View().HashAt(Key(providerID, nodeName))
    {
      if Key(providerID, nodeName) in data {
        return data[Key(providerID, nodeName)].lastConfigHash;
      }
      hash := Absent;
    }

    method Upsert(providerID: string, node: NodeConfig, hash: Hash, updatedAt: int) returns (ok: bool)
      requires Valid()
      modifies this, disk
      ensures Valid()
      ensures View() == old(View()).Upserted(disk.plan, providerID, node, hash, updatedAt)
      ensures ok == disk.plan(old(disk.writes)).Renamed?
    {
      data := data[Key(providerID, node.nodeName) :=
                   Record(providerID, node.nodeName, node.instanceID, node, hash, updatedAt)];
      ok := Persist();
    }

    /** Writes every record, in map iteration order, to the temporary file and renames it. */
    method Persist() returns (ok: bool)
      requires Valid()
      modifies disk
      ensures disk.writes == old(disk.writes) + 1
      ensures ok == disk.plan(old(disk.writes)).Renamed?
      ensures if ok then disk.file.Payload? && Enumerates(disk.file.records, data) && disk.tmp.Missing?
              else disk.file == old(disk.file)
    {
      var records := Collect("", "", "");
      AllMatch(data);
      var outcome := disk.plan(disk.writes);
      disk.writes := disk.writes + 1;
      match outcome
      case WriteFailed(left) =>
        disk.tmp := left;
        ok := false;
      case RenameFailed =>
        disk.tmp := Payload(records);
        ok := false;
      case Renamed =>
        disk.tmp := Payload(records);
        disk.file := disk.tmp;
        disk.tmp := Missing;
        ok := true;
    }

    method List(providerID: string, nodeName: string, instanceID: string) returns (out: seq<Record>)
      requires Valid()
      ensures Enumerates(out, Selected(data, providerID, nodeName, instanceID))
      ensures Lists(out, data, providerID, nodeName, instanceID)
    {
      out := Collect(providerID, nodeName, instanceID);
      SelectedMeaning(out, data, providerID, nodeName, instanceID);
    }

    /** Walks the map in an arbitrary order, keeping the records that match. */
    method Collect(providerID: string, nodeName: string, instanceID: string) returns (out: seq<Record>)
      requires Valid()
      ensures Enumerates(out, Selected(data, providerID, nodeName, instanceID))
    {
      out := [];
      var todo := data.Keys;
      while todo != {}
        invariant todo <= data.Keys
        invariant Enumerates(out, Selected(data - todo, providerID, nodeName, instanceID))
      {
        var k :| k in todo;
        SelectOneMore(data, todo, k, providerID, nodeName, instanceID);
        todo := todo - {k};
        var rec := data[k];
        if Matches(rec, providerID, nodeName, instanceID) {
          EnumerateOneMore(out, Selected(data - (todo + {k}), providerID, nodeName, instanceID), rec);
          out := out + [rec];
        }
      }
      assert data - todo == data;
    }
  }

  /** The records that agree with every criterion that is not empty, each once. */
  ghost predicate Lists(out: seq<Record>, data: Data, providerID: string, nodeName: string, instanceID: string) {
    forall rec :: multiset(out)[rec] ==
      if KeyOf(rec) in data && data[KeyOf(rec)] == rec
         && (providerID != "" ==> rec.providerID == providerID)
         && (nodeName != "" ==> rec.nodeName == nodeName)
         && (instanceID != "" ==> rec.instanceID == instanceID) then 1 else 0
  }

  lemma SelectedMeaning(out: seq<Record>, data: Data, providerID: string, nodeName: string, instanceID: string)
    requires WellKeyed(data) && Enumerates(out, Selected(data, providerID, nodeName, instanceID))
    ensures Lists(out, data, providerID, nodeName, instanceID)
  {
    forall rec ensures multiset(out)[rec] ==
      if KeyOf(rec) in data && data[KeyOf(rec)] == rec
         && (providerID != "" ==> rec.providerID == providerID)
         && (nodeName != "" ==> rec.nodeName == nodeName)
         && (instanceID != "" ==> rec.instanceID == instanceID) then 1 else 0
    {
      EnumerationCount(out, rec);
    }
  }

  /** An empty criterion matches everything. */
  predicate Matches(rec: Record, providerID: string, nodeName: string, instanceID: string) {
    && (providerID == "" || rec.providerID == providerID)
    && (nodeName == "" || rec.nodeName == nodeName)
    && (instanceID == "" || rec.instanceID == instanceID)
  }

  function Selected(data: Data, providerID: string, nodeName: string, instanceID: string): Data {
    map k | k in data && Matches(data[k], providerID, nodeName, instanceID) :: data[k]
  }

  lemma SelectOneMore(data: Data, todo: set<string>, k: string, providerID: string, nodeName: string,
                      instanceID: string)
    requires k in todo && todo <= data.Keys
    ensures todo - {k} + {k} == todo
    ensures k !in Selected(data - todo, providerID, nodeName, instanceID)
    ensures Selected(data - (todo - {k}), providerID, nodeName, instanceID) ==
            if Matches(data[k], providerID, nodeName, instanceID)
            then Selected(data - todo, providerID, nodeName, instanceID)[k := data[k]]
            else Selected(data - todo, providerID, nodeName, instanceID)
  {
  }

  lemma AllMatch(data: Data)
    ensures Selected(data, "", "", "") == data
  {
  }

  // ---------- Durability over runs ----------

  /** One use of the store; `Crash` covers a stop anywhere between two operations, and an `Upsert` whose
      outcome is not `Renamed` followed by a `Crash` covers a stop inside it. */
  datatype Op = Upsert(providerID: string, node: NodeConfig, hash: Hash, at: int) | Crash

  function Apply(plan: nat -> Outcome, s: StoreState, op: Op): StoreState {
    match op
    case Upsert(p, node, hash, at) => s.Upserted(plan, p, node, hash, at)
    case Crash => s.Reopened()
  }

  function Run(plan: nat -> Outcome, s: StoreState, ops: seq<Op>): StoreState {
    if ops == [] then s else Apply(plan, Run(plan, s, ops[..|ops| - 1]), ops[|ops| - 1])
  }

  /** The `n`th operation completed a rename. */
  ghost predicate Commits(plan: nat -> Outcome, s: StoreState, ops: seq<Op>, n: nat)
    requires n < |ops|
  {
    ops[n].Upsert? && plan(Run(plan, s, ops[..n]).writes).Renamed?
  }

  /** The `n`th operation completed a rename and no later one did. */
  ghost predicate LastCommit(plan: nat -> Outcome, s: StoreState, ops: seq<Op>, n: nat)
    requires n < |ops|
  {
    Commits(plan, s, ops, n) && forall i :: n < i < |ops| ==> !Commits(plan, s, ops, i)
  }

  lemma CommitsOfPrefix(plan: nat -> Outcome, s: StoreState, ops: seq<Op>, i: nat)
    requires i < |ops| - 1
    ensures Commits(plan, s, ops, i) <==> Commits(plan, s, ops[..|ops| - 1], i)
  {
    assert ops[..i] == ops[..|ops| - 1][..i];
  }

  /** Whatever fails or crashes before and after it, the file holds the in-memory map of the last
      completed rename. */
  lemma {:induction false} FileIsLastCommit(plan: nat -> Outcome, s: StoreState, ops: seq<Op>, n: nat)
    requires n < |ops| && LastCommit(plan, s, ops, n)
    ensures Run(plan, s, ops).disk == Run(plan, s, ops[..n + 1]).data
  {
    var init, last := ops[..|ops| - 1], |ops| - 1;
    if n == last {
      assert ops[..last] == init && ops[..n + 1] == ops;
    } else {
      forall i | n <= i < last ensures Commits(plan, s, init, i) <==> Commits(plan, s, ops, i) {
        CommitsOfPrefix(plan, s, ops, i);
      }
      FileIsLastCommit(plan, s, init, n);
      assert init[..n + 1] == ops[..n + 1];
      assert !Commits(plan, s, ops, last);
    }
  }

  /** When no rename completed, the file is as it was. */
  lemma {:induction false} FileUntouched(plan: nat -> Outcome, s: StoreState, ops: seq<Op>)
    requires forall i :: 0 <= i < |ops| ==> !Commits(plan, s, ops, i)
    ensures Run(plan, s, ops).disk == s.disk
  {
    if ops == [] {
    } else {
      var init, last := ops[..|ops| - 1], |ops| - 1;
      forall i | 0 <= i < last ensures !Commits(plan, s, init, i) {
        CommitsOfPrefix(plan, s, ops, i);
      }
      FileUntouched(plan, s, init);
      assert !Commits(plan, s, ops, last);
    }
  }

  lemma {:induction false} RunKeepsKeys(plan: nat -> Outcome, s: StoreState, ops: seq<Op>)
    requires WellKeyed(s.data) && WellKeyed(s.disk)
    ensures WellKeyed(Run(plan, s, ops).data) && WellKeyed(Run(plan, s, ops).disk)
  {
    if ops == [] {
    } else {
      RunKeepsKeys(plan, s, ops[..|ops| - 1]);
    }
  }
}
