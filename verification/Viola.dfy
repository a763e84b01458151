/** The payload the operator posts to the Viola API, and its hash. */
module Viola {
  import Text

  datatype NodeInterface = NodeInterface(
    id: int, portID: string, name: string, mac: string, address: string, cidr: string, mtu: int,
    deviceID: string, networkID: string, subnetID: string, deviceName: string)

  datatype NodeConfig = NodeConfig(nodeName: string, instanceID: string, interfaces: seq<NodeInterface>)

  /** What the store and the cache hold as the hash of a config. `Absent` is the empty string the
      store returns for an unknown node; SHA-256 of the JSON text is taken to be injective and is
      never empty. */
  datatype Hash = Absent | HashOf(config: NodeConfig)

  /** The interface name for an index, "multinic%d". */
  function InterfaceName(i: nat): string {
    "multinic" + Text.Decimal(i)
  }

  /** No two nodes belong to the same VM. */
  ghost predicate DistinctInstances(nodes: seq<NodeConfig>) {
    forall i, j :: 0 <= i < j < |nodes| ==> nodes[i].instanceID != nodes[j].instanceID
  }
}
