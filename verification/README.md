# Verification of the multi-NIC operator's reconcile core

A Dafny 4.11 model of the operator that turns a Neutron port listing into per-node interface configs, decides which
nodes to post to the Viola API, remembers what was acknowledged, and schedules its next wake-up; of the file-backed
inventory behind it; and of the receiving side of the test API. `dafny verify dfyconfig.toml` checks the project.

## How it is built

Code that changes things step by step is a method or a class method with loops. Each is proved equal to a function of
its inputs or of the old state, and the theorems are lemmas about those functions, so they hold of the methods.

- `Text`, `Seqs`, `Sorting`, `Wrappers`: strings as Go compares, trims and formats them; sequences up to order; an
  in-place insertion sort. `sort.Slice` promises no algorithm; `Sorting.SortUnique` shows that every sorted permutation
  is the same sequence when ties are between equal elements only, and the theorems below establish that condition.
- `Subnets`, `Ports`, `PortTheorems`, `SubnetOrder`: subnet filters, the compiler from ports to nodes, what it promises,
  and exactly when the order of the subnets matters.
- `Viola`, `Normalization`: the payload, its hash, and the canonical form that is hashed and posted.
- `Inventory`, `Catalog`: the store, its file with failing persists and crashes, and the per-provider view.
- `Schedule`, `Spacing`: intervals, the DOWN-port retry record, and the timing of whole runs.
- `Reconciler`, `Coherence`, `Runs`, `Convergence`, `Rounds`: the change-detection machine as class `Operator` over a
  `Store`, with a ghost map `remote` of what the Viola API last acknowledged; invariants over runs of reconciles, failed
  POSTs, failed persists and restarts; and the results from the port listing on.
- `Receiver`, `Padding`: interface indexes, resource names and manifests on the receiving side; CBC and PKCS#7.

## What is assumed

- The hash of a config is injective and never empty: it is the constructor `HashOf`, the store's empty string `Absent`.
- A POST is applied as a whole or not at all, in payload order, and goes to one endpoint per provider. Reconciles are
  serialised.
- JSON, base64 and the block cipher are abstract: a file holds the records written to it, a cipher's decryption inverts
  its encryption.
- Times and durations are integers in nanoseconds. The resource status keeps whole seconds, and `Schedule.Stored` models
  that truncation.

## Results worth knowing

- Memory is coherent in every run whose restarts follow a successful persist (`Runs.RunKeepsInv`), also when node names
  repeat and when the string keys of two (provider, node) pairs collide, because the hashed config carries its node
  name.
- A successful reconcile leaves every wanted config acknowledged, and the next one is quiet, exactly when the wanted
  nodes have distinct names (`Convergence.Converges`, `Convergence.QuietIffDistinctNames`), that is when no two
  requested VMs with interfaces are mapped to one name (`Rounds.DistinctNamesMeaning`). Node names come from Nova and
  need not be distinct; docs/PLAN.md line 52 promises without that condition that the same data is not sent again.
  With a shared name no reconcile is ever quiet (`Convergence.SharedNameNeverQuiet`, `Rounds.SharedNameRound`).
- A failed inventory write is harmless until the process stops. While file and memory hold the same node under each key,
  as they do when no two providers share a key, a restart keeps coherence exactly when the file agrees with memory about
  the nodes it knows (`Runs.RestartCoherence`, `Runs.RunRestartCoherence`). Otherwise the reconcile that wants the
  recorded config reports NoChange while the Viola API still holds another one (`Runs.StaleRecordSkipsPost`,
  `Runs.StaleFileIsReached`).
- Two providers share a string key exactly when one ID followed by '|' is a prefix of the other
  (`Coherence.CollisionCondition`). Whatever the providers, a config is known exactly when it is acknowledged and the
  inventory record under its key is about its own node (`Convergence.KnownExactly`); an acknowledged config whose record
  was taken over is sent again, never wrongly skipped (`Convergence.SentExactly`, `Convergence.CollisionHidesAcked`).
- README.md line 600 says that reordering `subnetIDs` leaves the final order by MAC. That holds of the order. The posted
  config itself is independent of the order of the subnets exactly in these cases: with room under the cap for every
  port some configured subnet accepts, when each of these ports lies in one configured subnet only
  (`SubnetOrder.SubnetOrderBelowCap`); without that room, when one subnet alone accepts ports and the first of them, up
  to the cap, lie in no other (`SubnetOrder.SubnetOrderAtCap`). Ten ports in one subnet and one in another are enough
  for a difference at the operator's cap of ten (`SubnetOrder.SubnetOrderMattersAtCap`), and so is one port with
  addresses in two subnets (`SubnetOrder.SubnetOrderMattersForSharedPort`).
- The retry record forgets the fraction of a second, so a retry can be due up to a second early and a wake-up can pass
  the recorded deadline by that fraction (`Spacing.FractionIsLost`, `Rounds.SyncedWakeUp`). With intervals of whole
  seconds that is lost once, at the first POST. With others, such as "1500ms", which the settings accept, the loss adds
  up over a run: every interval but the last costs its fraction (`Spacing.LossAddsUp`), and with intervals of a second
  or more some run does lose that much (`Spacing.LeastSpanIsAttained`). The configured spread is kept by
  every run exactly when the first POST and the intervals in use fall on whole seconds
  (`Spacing.PromiseIffWholeSeconds`).

## Model

| member | source | states |
|---|---|---|
| Sorting.SortInPlace | internal/controller/openstackconfig_controller.go:439-450 | sorting a slice in place by adjacent swaps yields the insertion-sorted permutation of its old contents |
| Sorting.SortUnique | internal/controller/openstackconfig_controller.go:1202-1210 | with ties only between equal elements, any sorted permutation is that result, whatever algorithm the library uses |
| Text.BeforeMeaning | internal/controller/openstackconfig_controller.go:1202-1210 | strings compare as in Go: the first difference decides, and a proper prefix comes first |
| Subnets.UniqueList | internal/controller/openstackconfig_controller.go:1225-1236 | keeps exactly the items given, each once |
| Subnets.UniqueKeepsOrder | internal/controller/openstackconfig_controller.go:1228-1235 | items stay in the order of their first occurrences |
| Subnets.UniqueTrimmedList | internal/controller/openstackconfig_controller.go:1238-1253 | keeps exactly the trimmed non-blank items, each once |
| Subnets.UniqueTrimmedMeaning | internal/controller/openstackconfig_controller.go:1238-1253 | one pass that trims, drops blanks and drops repetitions equals doing these one after the other |
| Subnets.ResolveFilters | internal/controller/openstackconfig_controller.go:214-239 | one filter per subnet ID with the subnet's ID, CIDR and network, its network's MTU or 0, and its position as order; an unknown subnet fails the whole step |
| Subnets.IndexFilters | internal/controller/openstackconfig_controller.go:415-418 | the loop builds the index that the next row characterises |
| Subnets.LastFilterWins | internal/controller/openstackconfig_controller.go:415-418 | of several filters with one ID the index holds the last |
| Subnets.SelectFixedIPByFilters | internal/controller/openstackconfig_controller.go:551-572 | the loop computes the best match that the next rows characterise |
| Subnets.BestMatchMeaning | internal/controller/openstackconfig_controller.go:427-438 | for any filters: a match exists iff some address's subnet has an order below the sentinel; it is the first address of minimal order; and its order equals the port sort key, computed by a separate loop |
| Subnets.SubnetMatchingAgreement | internal/controller/openstackconfig_controller.go:551-572 | with distinct IDs and orders equal to positions the sentinel hides nothing: a match exists iff an address lies in a configured subnet |
| Subnets.ConfiguredSubnetsDecide | internal/controller/openstackconfig_controller.go:200-239 | from the configured ID list on: selected iff an address lies in a configured subnet, with that subnet's place in the list as order |
| Subnets.RepeatedSubnetHidesMatch | internal/controller/openstackconfig_controller.go:552-565 | three filters under one ID hide the only match: the condition on the filters is needed |
| Ports.GroupPorts | internal/controller/openstackconfig_controller.go:401-412 | each requested VM gets exactly its own ports, in listing order |
| Ports.SelectAddress | internal/controller/openstackconfig_controller.go:456-473 | address, CIDR, MTU and subnet of a port, or nothing when the filters skip it |
| PortTheorems.PickMeaning | internal/controller/openstackconfig_controller.go:456-473 | a port takes part iff an address lies in a configured subnet and the first-listed such subnet has no other network; it posts its first address there with that subnet's CIDR and MTU |
| Ports.CompileVM | internal/controller/openstackconfig_controller.go:439-493 | sorting, skipping, stopping at the cap and numbering gives the interfaces of the first eligible ports, and the IDs of the DOWN ones among them |
| Ports.MapPortsToNodes | internal/controller/openstackconfig_controller.go:400-501 | the whole compiler equals the mapping the theorems below are about |
| Ports.CollectedMeaning | internal/controller/openstackconfig_controller.go:421-500 | one node per VM in order; a name is down iff a VM of that name keeps a DOWN port; the DOWN lists are concatenated |
| PortTheorems.TopK | internal/controller/openstackconfig_controller.go:451-492 | the kept ports are the first min(cap, eligible) in (order, MAC, ID, network) order; with the dropped ones they are exactly the eligible ones; no dropped port precedes a kept one |
| PortTheorems.InterfacesAreKept | internal/controller/openstackconfig_controller.go:478-492 | interface i of a node is kept port i's: ID and name by position, port ID, MAC, network and device from the port, address, CIDR, MTU and subnet from what the filters pick |
| PortTheorems.InterfacesCarryPorts | internal/controller/openstackconfig_controller.go:456-492 | the same with the address said from the filter list: the first address in the first-listed subnet the port lies in with that subnet's CIDR and MTU, or the first address when no subnet is configured |
| PortTheorems.PostedCarryPorts | internal/controller/openstackconfig_controller.go:478-492 | the normalized, posted interfaces are those of the kept ports, as many, one for each, with all their fields, numbered and named by place |
| PortTheorems.NodeNameMeaning | internal/controller/openstackconfig_controller.go:421-426 | a node is named by the trimmed name Nova gives its VM, or by the VM's ID when that is missing or blank |
| PortTheorems.KeptOrder | internal/controller/openstackconfig_controller.go:439-450 | kept ports come by place of their subnet, then MAC, then port ID, then network |
| PortTheorems.EligibleMeaning | internal/controller/openstackconfig_controller.go:407-412 | the eligible ports of a VM are the listing's entries on that device that the filters accept, with multiplicity |
| PortTheorems.ListingOrderIrrelevant | internal/controller/openstackconfig_controller.go:400-501 | permuting the port listing changes neither nodes, down nodes nor DOWN-port IDs |
| SubnetOrder.SubnetOrderIrrelevant | internal/controller/openstackconfig_controller.go:427-492 | renumbering the subnets leaves a VM's normalized config unchanged when each port that some subnet accepts lies in one configured subnet and the cap does not bite |
| SubnetOrder.PermutedSubnetIDs | internal/controller/openstackconfig_controller.go:214-239 | the reorderings of resolved filters are exactly the filters resolved from the same subnet IDs in another order |
| SubnetOrder.SubnetOrderBelowCap | internal/controller/openstackconfig_controller.go:427-492 | with room for every accepted port, the normalized config is the same under every order iff each accepted port lies in one configured subnet |
| SubnetOrder.SubnetOrderAtCap | internal/controller/openstackconfig_controller.go:427-492 | without that room it is the same iff one subnet alone accepts ports and the first of them, up to the cap by MAC, ID and network, lie in no other configured subnet |
| SubnetOrder.SubnetOrderCapCondition | internal/controller/openstackconfig_controller.go:427-492 | when each accepted port lies in one configured subnet, it is the same iff there is no cap, or the eligible ports fit under it, or one subnet alone accepts ports |
| SubnetOrder.KeptFromOneSubnet | internal/controller/openstackconfig_controller.go:439-450 | when one subnet alone accepts ports, those that take part are taken by MAC, ID and network under every order |
| SubnetOrder.SubnetOrderMattersAtCap | README.md:600 | at the operator's cap of ten, ten ports in one subnet and one in another post a different normalized config when the subnets swap |
| SubnetOrder.SubnetOrderMattersForSharedPort | README.md:600 | a port with addresses in two configured subnets posts a different normalized config when they swap |
| Ports.PortDownMeaning | internal/controller/openstackconfig_controller.go:902-904 | a status is DOWN iff it reads "down" in any case with only white space around it |
| Ports.FoldedSpelled | internal/controller/openstackconfig_controller.go:902-904 | reading "down" in any case means each letter is that of DOWN or of down |
| Text.SpacesSpelled | internal/controller/openstackconfig_controller.go:902-904 | the white space that is ignored, character by character |
| PortTheorems.DownIDsMeaning | internal/controller/openstackconfig_controller.go:474-477 | a port ID is reported DOWN iff a kept port with that ID is DOWN |
| PortTheorems.DownPortsMeaning | internal/controller/openstackconfig_controller.go:474-477 | the DOWN-port list holds exactly the IDs reported by the requested VMs |
| PortTheorems.DownNodesMeaning | internal/controller/openstackconfig_controller.go:474-477 | a name is down iff a requested VM of that name keeps a DOWN port |
| PortTheorems.MappingMeaning | internal/controller/openstackconfig_controller.go:421-500 | desired nodes belong to distinct VMs; every down name is a desired node's; the DOWN list is empty iff no name is down |
| Ports.FilterNodesWithInterfaces | internal/controller/openstackconfig_controller.go:889-899 | exactly the nodes with interfaces remain, in order |
| Normalization.NormalizeNodeConfig | internal/controller/openstackconfig_controller.go:1200-1217 | the copied, sorted and renumbered list is the normal form of the next rows |
| Normalization.NormalFormIsCanonical | internal/controller/openstackconfig_controller.go:1200-1223 | two configs have one normal form, hence one hash, iff they agree on node, instance and the multiset of interfaces without ID and name |
| Normalization.NormalFormProperties | internal/controller/openstackconfig_controller.go:1200-1217 | normalizing keeps the interfaces, sorts them, numbers and names them by position, and is idempotent |
| Normalization.NormalFormOrder | README.md:34 | the posted order is by MAC, then port ID, then address |
| Normalization.NormalFormIsStrict | internal/controller/openstackconfig_controller.go:1202-1210 | with distinct port IDs the normal form is strictly sorted |
| Inventory.Store.Open | internal/inventory/store.go:34-46 | opening loads the file, starts empty without one, and fails iff it cannot be read or parsed |
| Inventory.Store.GetHash | internal/inventory/store.go:55-62 | the stored hash of the key, or the empty hash |
| Inventory.Store.Upsert | internal/inventory/store.go:65-77 | memory gets the record under its own key even when persisting fails; the file becomes all of memory iff the rename completes |
| Inventory.UpsertedMeaning | internal/inventory/store.go:65-77 | an upsert files node, instance, hash and time under the pair's own key and touches no other record; the file becomes all of memory or stays |
| Inventory.Store.Persist | internal/inventory/store.go:118-132 | walking the map in any order writes records that read back as the same map, each once; a failed write or rename leaves the file |
| Inventory.Store.List | internal/inventory/store.go:80-98 | exactly the records that agree with every non-empty criterion on provider, node and instance, each once |
| Inventory.AnyOrderReloads | internal/inventory/store.go:100-136 | reading back the values in any order of the keys rebuilds the map, since records are kept under their own keys |
| Inventory.LastRecordWins | internal/inventory/store.go:100-116 | of several records in the file for one node the last one is read |
| Inventory.EnumerationsArePermutations | internal/inventory/store.go:85-96 | any two walks of one map list the same records |
| Inventory.FileIsLastCommit | internal/inventory/store.go:65-77 | over any sequence of upserts, failures and crashes the file holds memory as of the last completed rename |
| Inventory.FileUntouched | internal/inventory/store.go:118-132 | when no rename completes the file is as it was |
| Inventory.RunKeepsKeys | internal/inventory/store.go:134-136 | every record stays under its own key in every run |
| Catalog.BuildProviderCatalog | internal/inventory/server.go:378-418 | one summary per non-empty provider, strictly sorted; its nodes are exactly that provider's records, sorted by name, counted, with the latest update time |
| Catalog.CatalogNodes | internal/inventory/server.go:378-402 | a summary lists exactly its provider's records, each with node, instance, number of interfaces and update time |
| Catalog.CatalogConserves | internal/inventory/server.go:381-402 | the node counts add up to the number of records with a provider |
| Catalog.CatalogIsOrderIndependent | internal/inventory/server.go:405-415 | permuting the records does not change the catalog |
| Catalog.StoreCatalogUnique | internal/inventory/store.go:80-98 | any two listings of one store give one catalog, strictly sorted by node name inside each provider |
| Schedule.ClampedIsValid | internal/controller/openstackconfig_controller.go:716-730 | the clamps give 0 < fast <= slow, positive error interval, non-negative window; each valid setting is kept and each invalid one replaced |
| Schedule.HashDownPorts | internal/controller/openstackconfig_controller.go:907-916 | sorting and joining computes the hash that the next rows characterise |
| Schedule.HashDownOfPermutation | internal/controller/openstackconfig_controller.go:907-916 | the hash depends only on which ports are down |
| Schedule.HashDownMeaning | internal/controller/openstackconfig_controller.go:907-916 | for IDs without a comma two lists of DOWN ports have one hash iff they hold the same ports |
| Schedule.CommaHidesChange | internal/controller/openstackconfig_controller.go:907-916 | with a comma in an ID two different lists can have one hash |
| Schedule.ChangedPortsAreDue | internal/controller/openstackconfig_controller.go:919-969 | when other ports are DOWN than those on record the retry is due at once and its count restarts at 1 |
| Schedule.NextRetryCounts | internal/controller/openstackconfig_controller.go:951-969 | one more attempt for the same ports is recorded now, and counts one more until the maximum |
| Schedule.DueFromDeadline | internal/controller/openstackconfig_controller.go:919-948 | due at once for ports with no attempt on record, otherwise exactly from the deadline on; the wait ends at the deadline |
| Schedule.WaitIsExact | internal/controller/openstackconfig_controller.go:919-948 | "wait w" is positive and exact: not due before now + w, due from then on |
| Coherence.CollisionCondition | internal/inventory/store.go:134-136 | two providers share a key iff one ID with the separator appended is a prefix of the other |
| Coherence.KnownMeansAcked | internal/controller/openstackconfig_controller.go:1079-1103 | a config found in cache or inventory is the one last acknowledged for that provider and node |
| Coherence.PayloadHashesMatch | internal/controller/openstackconfig_controller.go:1006-1029 | the hash map covers exactly the payload's names, each with the hash of the last config posted under it |
| Coherence.StepKeepsCoherent | internal/controller/openstackconfig_controller.go:326-374 | every reconcile keeps cache and inventory true, whatever names, providers, failing persists and POST outcome |
| Reconciler.Operator.FilterChangedNodes | internal/controller/openstackconfig_controller.go:1072-1109 | the loop over cache and inventory, with its repairs, equals the comparison function of the theorems |
| Reconciler.Operator.Remember | internal/controller/openstackconfig_controller.go:366-374 | after a POST every sent node is cached and stored with its hash, in order |
| Reconciler.Operator.Reconcile | internal/controller/openstackconfig_controller.go:326-386 | new state and report of a reconcile equal the step function of the theorems |
| Reconciler.SelectNodesByName | internal/controller/openstackconfig_controller.go:992-1003 | exactly the nodes with those names, in order |
| Reconciler.MergeNodesToSend | internal/controller/openstackconfig_controller.go:1006-1029 | the loop equals the merge of the coverage and hash theorems |
| Reconciler.ContainsDownNodes | internal/controller/openstackconfig_controller.go:1032-1039 | true iff a posted name is down |
| Reconciler.Restart | internal/inventory/store.go:34-46 | a new process has an empty cache and what the file holds, and fails iff the file cannot be read |
| Runs.RunKeepsInv | internal/controller/openstackconfig_controller.go:326-374 | over every run whose restarts follow a successful persist, each entry holds the hash of the config last acknowledged for its own node |
| Runs.ReliablePersists | internal/inventory/store.go:118-132 | when no persist ever fails, restarts are unrestricted |
| Runs.RestartForgets | internal/inventory/store.go:34-46 | a new process knows exactly the configs whose hashes the file holds, and no time of a change |
| Runs.RestartCoherence | internal/inventory/store.go:100-116 | while file and memory hold the same node under each key, a restart keeps coherence iff the file agrees with memory on every node it knows |
| Runs.RunRestartCoherence | internal/inventory/store.go:100-116 | the same after every run with settled restarts over providers that share no key |
| Runs.StaleRecordSkipsPost | internal/controller/openstackconfig_controller.go:1095-1103 | a file record that differs from memory's makes the reconcile after a restart that wants the recorded config skip its POST |
| Runs.StaleFileSkipsSend | internal/controller/openstackconfig_controller.go:1095-1103 | after a failed persist and a restart a wanted config is skipped though another one was acknowledged |
| Runs.StaleFileIsReached | internal/controller/openstackconfig_controller.go:1095-1103 | a run of two reconciles and a restart from a fresh start gets there |
| Convergence.PayloadExactly | internal/controller/openstackconfig_controller.go:331-340 | nothing is posted but changed nodes and nodes with DOWN ports; of distinctly named nodes exactly the changed ones and then, when a DOWN retry is due or something is sent anyway, the remaining down ones, normalized and in order |
| Convergence.OutcomeMeaning | internal/controller/openstackconfig_controller.go:341-380 | NoChange iff the payload is empty; otherwise the POST decides: success acknowledges exactly the payload and records the change at the time of the POST, failure neither |
| Convergence.Converges | internal/controller/openstackconfig_controller.go:331-374 | after NoChange or Synced every wanted node's normalized config is its last acknowledged one, iff the names are distinct |
| Convergence.SharedNameNeverQuiet | internal/controller/openstackconfig_controller.go:1079-1107 | with a shared name every reconcile finds something to send |
| Convergence.FilterIsSimpleRule | internal/controller/openstackconfig_controller.go:1072-1109 | cache and inventory send exactly the configs that differ from the last acknowledged ones, in order |
| Convergence.CacheRefinesSimpleRule | internal/controller/openstackconfig_controller.go:1072-1109 | the same in every state reachable from a fresh start with the inventory enabled, for a provider whose keys meet no other's, with the hash of each |
| Convergence.KnownExactly | internal/controller/openstackconfig_controller.go:1079-1103 | in coherent memory whose cache the inventory covers, a config is known iff it is acknowledged and the record under its key is about its own node |
| Convergence.SentExactly | internal/controller/openstackconfig_controller.go:1072-1109 | in every state reachable with the inventory enabled, whatever the providers: sent are exactly the configs not acknowledged or without a record of their own; this is the simple rule iff no acknowledged config lost its record |
| Convergence.CollisionHidesAcked | internal/controller/openstackconfig_controller.go:1111-1122 | after a reconcile of another provider takes over a shared key, an acknowledged config is unknown |
| Convergence.FailedPostIsRepeated | internal/controller/openstackconfig_controller.go:359-363 | a failed POST acknowledges and records nothing, waits the error interval, and the same nodes are found to send again |
| Convergence.StepRemembers | internal/controller/openstackconfig_controller.go:1079-1103 | after a successful reconcile both levels hold every wanted config |
| Convergence.SecondReconcileIsQuiet | docs/PLAN.md:52 | a second reconcile of distinctly named nodes sends nothing, also after a restart from a settled file |
| Convergence.QuietIffDistinctNames | docs/PLAN.md:52 | the second reconcile finds nothing to send iff the names are distinct |
| Rounds.ReconcileRound | internal/controller/openstackconfig_controller.go:326-386 | compiling, filtering, hashing and reconciling a listing equals one step on its input |
| Rounds.ListingOrderInvariance | internal/controller/openstackconfig_controller.go:326-386 | permuting the listing changes neither payload, memory, outcome, wake-up nor retry record |
| Rounds.EveryRunConverges | internal/controller/openstackconfig_controller.go:326-374 | after any run from a fresh start a successful round puts every desired node in place, iff the names are distinct |
| Rounds.PermutedRoundIsQuiet | docs/PLAN.md:52 | a round on a permuted listing without DOWN ports reports NoChange, also after a restart from a settled file |
| Rounds.DistinctNamesMeaning | internal/controller/openstackconfig_controller.go:421-426 | desired nodes have distinct names iff no two requested VMs with interfaces are mapped to one name |
| Rounds.SharedNameRound | internal/controller/openstackconfig_controller.go:421-426 | two VMs with ports that Nova gives one name: no round on that listing reports NoChange |
| Rounds.DownCoverage | internal/controller/openstackconfig_controller.go:327-342 | a payload sent with a DOWN port around names every down node, the guard holds iff a port is DOWN, and an empty payload means the retry is not due |
| Rounds.RoundIsDownConsistent | internal/controller/openstackconfig_controller.go:327-329 | every compiled round meets the condition of the DOWN theorems |
| Rounds.RoundHashMeaning | internal/controller/openstackconfig_controller.go:327-329 | for port IDs without a comma, two rounds have one DOWN hash iff the same ports are kept and DOWN |
| Rounds.PayloadWellFormed | internal/controller/openstackconfig_controller.go:327-340 | every posted node has 1 to 10 interfaces, strictly sorted, numbered and named by position, and a hash; names are distinct when the desired ones are |
| Rounds.WhyPosted | internal/controller/openstackconfig_controller.go:326-340 | after any run a node is posted only if it differs from its last acknowledged config, or a VM of its name keeps a DOWN port and a retry is due or something is sent anyway |
| Rounds.RoundOutcome | internal/controller/openstackconfig_controller.go:326-386 | outcome, acknowledged configs, recorded times and delay in terms of the round's own provider, resource, clock and outcomes |
| Rounds.RecordAfterStep | internal/controller/openstackconfig_controller.go:326-386 | the retry record after every outcome: dropped without DOWN ports, advanced to the second of a successful POST with them, otherwise left alone |
| Rounds.RecordAfterAnyStep | internal/controller/openstackconfig_controller.go:332-334 | the same for any input: the record advances only when the payload names a down node |
| Rounds.QuietWakeUp | internal/controller/openstackconfig_controller.go:341-349 | after NoChange the delay is positive; it is the fast interval iff the resource changed within a positive window, else the slow one, or the time left to the next retry deadline when a port is DOWN and that is shorter |
| Rounds.QuietAfterRestart | internal/controller/openstackconfig_controller.go:1046-1048 | a quiet round without DOWN ports after a restart waits the slow interval |
| Rounds.SentWakeUp | internal/controller/openstackconfig_controller.go:359-386 | after Synced the delay is the fast interval, with DOWN ports or without; after a failed POST the error interval |
| Rounds.SyncedWakeUp | internal/controller/openstackconfig_controller.go:378-386 | after Synced the delay is the fast interval; it passes the recorded deadline iff the lost fraction of a second exceeds the slack, and by less than a second |
| Rounds.FastWithinWindow | internal/controller/openstackconfig_controller.go:1042-1053 | after a change quiet reconciles poll fast exactly within the window |
| Spacing.SteadyStep | internal/controller/openstackconfig_controller.go:331-385 | without changed nodes a POST happens iff the retry is due and the POST succeeds, and only then the record advances |
| Spacing.RetrySpacing | internal/controller/openstackconfig_controller.go:919-969 | after n POSTs of a steady run the record counts min(n, maxFast) attempts, and the recorded attempts spread over the promised fast and slow intervals in whole seconds |
| Spacing.SpreadClosedForm | internal/controller/openstackconfig_controller.go:932-948 | that spread is min(n, maxFast) - 1 fast and max(0, n - maxFast) slow intervals |
| Spacing.RetrySpacingOnClock | internal/controller/openstackconfig_controller.go:382-385 | for any valid intervals, n POSTs span at least the whole-second spread less the first POST's fraction, and the last interval counts in full |
| Spacing.NoPostIsEarly | internal/controller/openstackconfig_controller.go:919-948 | no run makes its n-th POST before the n-th earliest time, for any intervals |
| Spacing.DueRunPosts | internal/controller/openstackconfig_controller.go:331-385 | from any quiescent state a run that reconciles at those times makes each POST then |
| Spacing.LeastSpanIsAttained | internal/controller/openstackconfig_controller.go:382-385 | with intervals of a second or more some run spans exactly the least span |
| Spacing.LossAddsUp | internal/controller/openstackconfig_controller.go:951-969 | the least span falls short of the configured spread by the first POST's fraction plus the fraction in every interval but the last |
| Spacing.PromiseIffWholeSeconds | internal/controller/openstackconfig_controller.go:919-969 | every run keeps the configured spread iff the first POST and the intervals in use fall on whole seconds |
| Spacing.FractionIsLost | internal/controller/openstackconfig_controller.go:951-969 | the next attempt is due exactly the interval minus the lost fraction after the POST |
| Receiver.IndexRoundTrip | cmd/viola-test-api/main.go:618-634 | parsing "multinic" and the decimal form of i gives i for every 64-bit index and nothing beyond |
| Receiver.ParseMeaning | cmd/viola-test-api/main.go:618-634 | a name has index v iff, trimmed, it is "multinic" and one or more digits of value v within 64 bits |
| Receiver.BuildManifest | cmd/viola-test-api/main.go:280-335 | one manifest per node in order, or none at all when a node name is blank |
| Receiver.NameRestoresID | cmd/viola-test-api/main.go:297-310 | a generated name decides the ID whatever ID was posted |
| Receiver.OtherNamesKeepID | cmd/viola-test-api/main.go:297-310 | an interface without an index in its name keeps its posted ID, 0 when there is none |
| Receiver.ManifestMeaning | cmd/viola-test-api/main.go:280-323 | names, labels and interface fields of a manifest come from the posted node; instance and provider labels are there iff the values are not empty |
| Receiver.ManifestCarriesNormalForm | cmd/viola-test-api/main.go:297-310 | the manifest of a normalized node carries its interfaces in order with index as ID, though index 0 is dropped on the wire |
| Receiver.NamesAreNormalForms | cmd/viola-test-api/main.go:641-655 | resource names are non-empty, at most 253 characters of the alphabet, with clean ends; exactly such strings are left alone; idempotent |
| Receiver.LabelsAreNormalForms | cmd/viola-test-api/main.go:657-671 | the same for labels, at most 63 characters |
| Receiver.SquashedRun | cmd/viola-test-api/main.go:636-643 | a run of characters outside the alphabet becomes one '-' wherever it stands |
| Receiver.SanitizedMeaning | cmd/viola-test-api/main.go:641-671 | the trimmed, lower-cased, squashed and stripped value is the result when it fits, its head when it is too long, the fallback when nothing is left |
| Receiver.LowerMeaning | cmd/viola-test-api/main.go:641-642 | lower-casing keeps a letter's place in the alphabet and leaves other ASCII characters |
| Receiver.NameCharsSpelled | cmd/viola-test-api/main.go:636-639 | the two alphabets, character by character |
| Receiver.BlankValues | cmd/viola-test-api/main.go:645-647 | a blank name becomes "node", a blank label "unknown" |
| Receiver.TruncationKeepsHead | cmd/viola-test-api/main.go:648-653 | the fallback after truncation is unreachable |
| Padding.PKCS7Unpad | pkg/crypto/aescbc.go:38-52 | the loop accepts or rejects as the next row says, with the error of the first failing check |
| Padding.UnpadMeaning | pkg/crypto/aescbc.go:38-52 | unpadding gives a message iff the data is that message's padding |
| Padding.UnpadErrors | pkg/crypto/aescbc.go:38-52 | which of the three errors comes when; the comparison with the data's length never decides |
| Padding.CryptBlocks | pkg/crypto/aescbc.go:28-29 | decrypting in place leaves the IV and replaces the blocks by the plaintext, each byte said bit by bit |
| Padding.XorByteMeaning | pkg/crypto/aescbc.go:28-29 | a bit of the exclusive or is set iff the two bits differ |
| Padding.DecryptedBits | pkg/crypto/aescbc.go:28-29 | a plaintext bit is set iff the bit of the decrypted ciphertext block differs from the bit one block earlier, the IV for the first block |
| Padding.DecryptAESCBC | pkg/crypto/aescbc.go:11-36 | the whole decryption computes the result that the next rows characterise |
| Padding.DecryptErrors | pkg/crypto/aescbc.go:16-27 | too short, bad key and misaligned data, looked for in this order |
| Padding.DecryptMeaning | pkg/crypto/aescbc.go:26-36 | past these a message comes out iff the plaintext is its padding |
| Padding.DecryptRecovers | pkg/crypto/aescbc.go:11-52 | every padded and encrypted message is recovered, under any key and IV |

## Left out

- HTTP clients for Contrabass, Keystone, Neutron, Nova and the Viola API: their answers are inputs.
- Name resolution, string settings and secret lookups, and the port filters by status and creation time: they choose the inputs.
- Resource conditions and the last-error text: written, never read back by the reconcile.
- Locks, and crashes between a POST and its upserts: the code promises no agreement there.
- Ports.OrderForPort: a function, because it is called inside a comparison.
- Inventory.Store.Open: failing to create the directory, which stops the process before the file is read.
- Reconciler.Operator.FilterChangedNodes: repairs of one reconcile share one time stamp, because nothing reads it back.
- Schedule.NextRetry: unbounded integers, because the count never passes the configured maximum, which fits 32 bits.
- Inventory.Store.GetHash: the error result, because the file store never returns one.
- Receiver.BuildManifest: YAML rendering and the namespace, because they are plain copies.
- Receiver.Lower: lower-casing of letters outside both alphabets, because those characters are replaced anyway.
- HTTP handlers, routing, kubectl and ssh execution, Helm and Kustomize files.
