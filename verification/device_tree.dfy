/** The device tree the Matter client hands to the request handlers, and the
    handlers' reply shape. The client library only supplies this data; it is
    taken here as an immutable value. */
module DeviceTree {
  import opened Wrappers

  type NodeId = nat
  type EndpointId = nat
  type ClusterId = nat
  type AttributeId = nat

  /** An endpoint is known by the set of clusters it exposes. */
  datatype Endpoint = Endpoint(clusters: set<ClusterId>)

  datatype AttributePath = AttributePath(endpoint: EndpointId, cluster: ClusterId, attribute: AttributeId)

  /** A commissioned node: its id, its endpoints in the node's dictionary
      order, and the attribute values it currently reports. */
  datatype Node = Node(
    nodeId: NodeId,
    endpoints: seq<(EndpointId, Endpoint)>,
    attributes: map<AttributePath, int>)

  /** A connected client; `nodes` is what `get_nodes()` returns. */
  datatype Client = Client(nodes: seq<Node>)

  /** What a read handler answers: the 503 "Server not ready" error, or a JSON list. */
  datatype Response<+T> = NotReady | Ready(items: seq<T>) {

    function Status(): nat {
      if NotReady? then 503 else 200
    }
  }

  /** The node's attribute read: the reported value, or `None` when it reports none. */
  function GetAttributeValue(node: Node, endpoint: EndpointId, cluster: ClusterId, attribute: AttributeId): Option<int> {
    var path := AttributePath(endpoint, cluster, attribute);
    if path in node.attributes then Some(node.attributes[path]) else None
  }

  /** Endpoint ids are keys of a dictionary, so they are distinct within a node. */
  predicate DistinctEndpointIds(node: Node) {
    forall j, j' :: 0 <= j < j' < |node.endpoints| ==> node.endpoints[j].0 != node.endpoints[j'].0
  }

  /** The client keeps its nodes keyed by node id, so node ids are distinct too. */
  predicate WellFormed(nodes: seq<Node>) {
    && (forall i, i' :: 0 <= i < i' < |nodes| ==> nodes[i].nodeId != nodes[i'].nodeId)
    && (forall i :: 0 <= i < |nodes| ==> DistinctEndpointIds(nodes[i]))
  }
}
