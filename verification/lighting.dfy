/** The `/api/lights` handler: one record per endpoint exposing the On/Off
    cluster, carrying the raw on/off value and, when the endpoint also has
    the Level Control cluster, the raw current level. */
module Lighting {
  import opened Wrappers
  import opened DeviceTree
  import opened Labels
  import opened Walk

  const OnOffCluster: ClusterId := 6
  const LevelControlCluster: ClusterId := 8
  const OnOffAttribute: AttributeId := 0
  const CurrentLevelAttribute: AttributeId := 0

  /** `{"id": …, "state": …, "brightness": …}`; `None` is JSON `null`. */
  datatype LightRecord = LightRecord(id: string, state: Option<int>, brightness: Option<int>)

  predicate IsLight(ep: Endpoint) {
    OnOffCluster in ep.clusters
  }

  /** What the record for endpoint `endpointId` of `node` must say: its label,
      the on/off value as read, and the level as read when the Level Control
      cluster is present and `null` when it is not. */
  predicate DescribesLight(node: Node, endpointId: EndpointId, ep: Endpoint, rec: LightRecord) {
    && rec.id == DeviceId(node.nodeId, endpointId)
    && rec.state == GetAttributeValue(node, endpointId, OnOffCluster, OnOffAttribute)
    && (LevelControlCluster in ep.clusters ==>
          rec.brightness == GetAttributeValue(node, endpointId, LevelControlCluster, CurrentLevelAttribute))
    && (LevelControlCluster !in ep.clusters ==> rec.brightness == None)
  }

  function LightOf(node: Node, endpointId: EndpointId, ep: Endpoint): (r: LightRecord)
    ensures DescribesLight(node, endpointId, ep, r)
  {
    var powerState := GetAttributeValue(node, endpointId, OnOffCluster, OnOffAttribute);
    var brightnessLevel :=
      if LevelControlCluster in ep.clusters
      then GetAttributeValue(node, endpointId, LevelControlCluster, CurrentLevelAttribute)
      else None;
    LightRecord(DeviceId(node.nodeId, endpointId), powerState, brightnessLevel)
  }

  /** The `if 6 in endpoint.clusters` filter: one record for an On/Off
      endpoint, none for any other. */
  function LightsAt(node: Node, endpointId: EndpointId, ep: Endpoint): (r: seq<LightRecord>)
    ensures |r| <= 1
    ensures r != [] <==> IsLight(ep)
    ensures r != [] ==> DescribesLight(node, endpointId, ep, r[0])
  {
    if IsLight(ep) then [LightOf(node, endpointId, ep)] else []
  }

  function LightingRecords(nodes: seq<Node>): seq<LightRecord> {
    NodesWalk(nodes, LightsAt)
  }

  /** The handler: 503 when there is no client, the record list otherwise. */
  function LightingView(client: Option<Client>): (r: Response<LightRecord>)
    ensures r.NotReady? <==> client.None?
    ensures r.Status() == 503 <==> client.None?
    ensures client.Some? ==> r.items == LightingRecords(client.value.nodes)
  {
    match client
    case None => NotReady
    case Some(c) => Ready(LightingRecords(c.nodes))
  }

  /** `rec` is the record endpoint `j` of node `i` calls for, and that endpoint is a light. */
  predicate LitAt(nodes: seq<Node>, i: int, j: int, rec: LightRecord) {
    && 0 <= i < |nodes|
    && 0 <= j < |nodes[i].endpoints|
    && IsLight(nodes[i].endpoints[j].1)
    && DescribesLight(nodes[i], nodes[i].endpoints[j].0, nodes[i].endpoints[j].1, rec)
  }

  /** The lighting list holds exactly the records that describe some On/Off endpoint. */
  lemma LightingMembership(nodes: seq<Node>, rec: LightRecord)
    ensures rec in LightingRecords(nodes) <==> exists i, j :: LitAt(nodes, i, j, rec)
  {
    NodesWalkMembership(nodes, LightsAt, rec);
    forall i, j | 0 <= i < |nodes| && 0 <= j < |nodes[i].endpoints|
      ensures EmittedAt(nodes, LightsAt, i, j, rec) <==> LitAt(nodes, i, j, rec)
    {
      var (e, ep) := nodes[i].endpoints[j];
      if DescribesLight(nodes[i], e, ep, rec) {
        assert rec == LightOf(nodes[i], e, ep);
      }
    }
  }

  function LightKey(rec: LightRecord): string {
    rec.id
  }

  /** With distinct node ids and distinct endpoint ids per node, no two
      lighting records share an id. */
  lemma LightingIdsUnique(nodes: seq<Node>)
    requires WellFormed(nodes)
    ensures UniqueBy(LightingRecords(nodes), LightKey)
  {
    forall n, e, ep, x | x in LightsAt(n, e, ep) ensures LabelledBy(LightKey(x), n.nodeId, e) {
      assert DeviceId(n.nodeId, e) + [] == LightKey(x);
      DeviceIdLabelled(n.nodeId, e, []);
    }
    NodesWalkUnique(nodes, LightsAt, LightKey);
  }

  /** Exactly one record per On/Off endpoint and none for any other endpoint:
      endpoint `j` of node `i` has a record with its id precisely when it
      exposes cluster 6, that record describes it, and ids do not repeat. */
  lemma LightingOnePerOnOffEndpoint(nodes: seq<Node>, i: nat, j: nat)
    requires WellFormed(nodes)
    requires i < |nodes| && j < |nodes[i].endpoints|
    ensures var r, node, e, ep := LightingRecords(nodes), nodes[i], nodes[i].endpoints[j].0, nodes[i].endpoints[j].1;
      && (IsLight(ep) ==> exists k :: 0 <= k < |r| && DescribesLight(node, e, ep, r[k]))
      && ((exists k :: 0 <= k < |r| && r[k].id == DeviceId(node.nodeId, e)) ==> IsLight(ep))
      && UniqueBy(r, LightKey)
  {
    var r, node, e, ep := LightingRecords(nodes), nodes[i], nodes[i].endpoints[j].0, nodes[i].endpoints[j].1;
    LightingIdsUnique(nodes);
    if IsLight(ep) {
      LightingMembership(nodes, LightOf(node, e, ep));
      assert LitAt(nodes, i, j, LightOf(node, e, ep));
      var k :| 0 <= k < |r| && r[k] == LightOf(node, e, ep);
    }
    if exists k :: 0 <= k < |r| && r[k].id == DeviceId(node.nodeId, e) {
      var k :| 0 <= k < |r| && r[k].id == DeviceId(node.nodeId, e);
      LightingMembership(nodes, r[k]);
      var i', j' :| LitAt(nodes, i', j', r[k]);
      DeviceIdInjective(nodes[i'].nodeId, nodes[i'].endpoints[j'].0, node.nodeId, e);
      assert i' == i;
      assert DistinctEndpointIds(node);
      assert j' == j;
    }
  }

  function ExampleLightNode(nodeId: NodeId): Node {
    Node(nodeId, [(1, Endpoint({6, 8})), (2, Endpoint({6})), (3, Endpoint({1026}))],
         map[AttributePath(1, 6, 0) := 0, AttributePath(1, 8, 0) := 127, AttributePath(2, 6, 0) := 1])
  }

  /** An example node with any id: an off light with a level of 127, an on
      light with no Level Control cluster, and a temperature-only endpoint.
      The off light keeps its raw level 127 (nothing forces it to 0 or
      normalises it), the second light's brightness is `null`, and the
      sensor-only endpoint gets no record. */
  lemma RawLightingExample(nodeId: NodeId)
    ensures LightingView(Some(Client([ExampleLightNode(nodeId)])))
        == Ready([LightRecord(DeviceId(nodeId, 1), Some(0), Some(127)), LightRecord(DeviceId(nodeId, 2), Some(1), None)])
  {
    var node := ExampleLightNode(nodeId);
    var eps := node.endpoints;
    assert LightsAt(node, 1, Endpoint({6, 8})) == [LightRecord(DeviceId(nodeId, 1), Some(0), Some(127))];
    assert LightsAt(node, 2, Endpoint({6})) == [LightRecord(DeviceId(nodeId, 2), Some(1), None)];
    assert LightsAt(node, 3, Endpoint({1026})) == [];
    assert eps == [eps[0]] + [eps[1]] + [eps[2]];
    EndpointsWalkAppend(node, [eps[0]] + [eps[1]], [eps[2]], LightsAt);
    EndpointsWalkAppend(node, [eps[0]], [eps[1]], LightsAt);
    EndpointsWalkSingleton(node, eps[0], LightsAt);
    EndpointsWalkSingleton(node, eps[1], LightsAt);
    EndpointsWalkSingleton(node, eps[2], LightsAt);
    NodesWalkSingleton(node, LightsAt);
  }

  /** The inner loop of the handler: the lights of one node, in endpoint order. */
  method CollectNodeLights(node: Node) returns (lights: seq<LightRecord>)
    ensures lights == EndpointsWalk(node, node.endpoints, LightsAt)
  {
    lights := [];
    var j := 0;
    while j < |node.endpoints|
      invariant 0 <= j <= |node.endpoints|
      invariant lights == EndpointsWalk(node, node.endpoints[..j], LightsAt)
    {
      var (endpointId, endpoint) := node.endpoints[j];
      if OnOffCluster in endpoint.clusters {
        var powerState := GetAttributeValue(node, endpointId, OnOffCluster, OnOffAttribute);
        var brightnessLevel :=
          if LevelControlCluster in endpoint.clusters
          then GetAttributeValue(node, endpointId, LevelControlCluster, CurrentLevelAttribute)
          else None;
        lights := lights + [LightRecord(DeviceId(node.nodeId, endpointId), powerState, brightnessLevel)];
      }
      assert node.endpoints[..j + 1] == node.endpoints[..j] + [node.endpoints[j]];
      EndpointsWalkAppend(node, node.endpoints[..j], [node.endpoints[j]], LightsAt);
      EndpointsWalkSingleton(node, node.endpoints[j], LightsAt);
      j := j + 1;
    }
    assert node.endpoints[..j] == node.endpoints;
  }

  /** The handler as written: a loop over the nodes appending each node's lights. */
  method ServeLightingApi(client: Option<Client>) returns (r: Response<LightRecord>)
    ensures r == LightingView(client)
  {
    if client.None? {
      return NotReady;
    }
    var nodes := client.value.nodes;
    var lightingDevices: seq<LightRecord> := [];
    var i := 0;
    while i < |nodes|
      invariant 0 <= i <= |nodes|
      invariant lightingDevices == NodesWalk(nodes[..i], LightsAt)
    {
      var node := nodes[i];
      var lights := CollectNodeLights(node);
      lightingDevices := lightingDevices + lights;
      assert nodes[..i + 1] == nodes[..i] + [node];
      NodesWalkAppend(nodes[..i], [node], LightsAt);
      NodesWalkSingleton(node, LightsAt);
      i := i + 1;
    }
    assert nodes[..i] == nodes;
    return Ready(lightingDevices);
  }
}
