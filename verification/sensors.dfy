/** The `/api/sensors` handler: for every endpoint, one record per entry of
    the fixed sensor table whose cluster the endpoint exposes and whose
    configured attribute reads a value. */
module Sensors {
  import opened Wrappers
  import opened DeviceTree
  import opened Labels
  import opened Walk

  /** A row of the sensor table: cluster id, sensor name, attribute id and
      the declared scale factor. */
  datatype SensorSpec = SensorSpec(cluster: ClusterId, name: string, attribute: AttributeId, scale: nat)

  /** The table, in its declaration order. */
  const SensorClusters: seq<SensorSpec> := [
    SensorSpec(1024, "illuminance", 0, 1),
    SensorSpec(1026, "temperature", 0, 100),
    SensorSpec(1027, "pressure", 0, 10),
    SensorSpec(1029, "humidity", 0, 100),
    SensorSpec(1030, "occupancy", 0, 1),
    SensorSpec(69, "contact", 0, 1)
  ]

  /** `{"id": …, "name": …, "value": …}`. */
  datatype SensorRecord = SensorRecord(id: string, name: string, value: int)

  /** The endpoint exposes the row's cluster and its attribute reads a value. */
  predicate Reads(node: Node, endpointId: EndpointId, ep: Endpoint, spec: SensorSpec) {
    && spec.cluster in ep.clusters
    && GetAttributeValue(node, endpointId, spec.cluster, spec.attribute).Some?
  }

  /** What the record for row `spec` at endpoint `endpointId` of `node` must
      say: its label and the table name, and the value exactly as read. */
  predicate DescribesSensor(node: Node, endpointId: EndpointId, spec: SensorSpec, rec: SensorRecord) {
    && rec.id == SensorId(node.nodeId, endpointId, spec.name)
    && rec.name == spec.name
    && GetAttributeValue(node, endpointId, spec.cluster, spec.attribute) == Some(rec.value)
  }

  /** The record one table row yields at one endpoint, if any. */
  function Reading(node: Node, endpointId: EndpointId, ep: Endpoint, spec: SensorSpec): (r: seq<SensorRecord>)
    ensures |r| <= 1
    ensures r != [] <==> Reads(node, endpointId, ep, spec)
    ensures r != [] ==> DescribesSensor(node, endpointId, spec, r[0])
  {
    if spec.cluster in ep.clusters then
      match GetAttributeValue(node, endpointId, spec.cluster, spec.attribute)
      case None => []
      case Some(val) => [SensorRecord(SensorId(node.nodeId, endpointId, spec.name), spec.name, val)]
    else []
  }

  function TableSensors(node: Node, endpointId: EndpointId, ep: Endpoint, table: seq<SensorSpec>): (r: seq<SensorRecord>)
    ensures |r| <= |table|
  {
    if table == [] then []
    else Reading(node, endpointId, ep, table[0]) + TableSensors(node, endpointId, ep, table[1..])
  }

  /** One endpoint's records; never more than the table's six rows. */
  function SensorsAt(node: Node, endpointId: EndpointId, ep: Endpoint): (r: seq<SensorRecord>)
    ensures |r| <= 6
  {
    TableSensors(node, endpointId, ep, SensorClusters)
  }

  function SensorRecords(nodes: seq<Node>): seq<SensorRecord> {
    NodesWalk(nodes, SensorsAt)
  }

  /** The handler: 503 when there is no client, the record list otherwise. */
  function SensorView(client: Option<Client>): (r: Response<SensorRecord>)
    ensures r.NotReady? <==> client.None?
    ensures r.Status() == 503 <==> client.None?
    ensures client.Some? ==> r.items == SensorRecords(client.value.nodes)
  {
    match client
    case None => NotReady
    case Some(c) => Ready(SensorRecords(c.nodes))
  }

  /** Within one endpoint, records of earlier table rows come first. */
  lemma {:induction false} TableSensorsAppend(node: Node, endpointId: EndpointId, ep: Endpoint, t1: seq<SensorSpec>, t2: seq<SensorSpec>)
    ensures TableSensors(node, endpointId, ep, t1 + t2)
         == TableSensors(node, endpointId, ep, t1) + TableSensors(node, endpointId, ep, t2)
  {
    if t1 == [] {
      assert t1 + t2 == t2;
    } else {
      assert (t1 + t2)[0] == t1[0];
      assert (t1 + t2)[1..] == t1[1..] + t2;
      TableSensorsAppend(node, endpointId, ep, t1[1..], t2);
    }
  }

  lemma TableOfSix(node: Node, endpointId: EndpointId, ep: Endpoint, t: seq<SensorSpec>)
    requires |t| == 6
    ensures TableSensors(node, endpointId, ep, t)
         == Reading(node, endpointId, ep, t[0]) + Reading(node, endpointId, ep, t[1]) + Reading(node, endpointId, ep, t[2])
          + Reading(node, endpointId, ep, t[3]) + Reading(node, endpointId, ep, t[4]) + Reading(node, endpointId, ep, t[5])
  {
    assert t == [t[0]] + [t[1]] + [t[2]] + [t[3]] + [t[4]] + [t[5]];
    forall k | 0 <= k < 6 ensures TableSensors(node, endpointId, ep, [t[k]]) == Reading(node, endpointId, ep, t[k]) {
      assert [t[k]][1..] == [];
    }
    TableSensorsAppend(node, endpointId, ep, [t[0]] + [t[1]] + [t[2]] + [t[3]] + [t[4]], [t[5]]);
    TableSensorsAppend(node, endpointId, ep, [t[0]] + [t[1]] + [t[2]] + [t[3]], [t[4]]);
    TableSensorsAppend(node, endpointId, ep, [t[0]] + [t[1]] + [t[2]], [t[3]]);
    TableSensorsAppend(node, endpointId, ep, [t[0]] + [t[1]], [t[2]]);
    TableSensorsAppend(node, endpointId, ep, [t[0]], [t[1]]);
  }

  /** An endpoint's sensor records, spelled out in table order: illuminance,
      temperature, pressure, humidity, occupancy, contact. */
  lemma SensorOrderWithinEndpoint(node: Node, endpointId: EndpointId, ep: Endpoint)
    ensures SensorsAt(node, endpointId, ep)
         == Reading(node, endpointId, ep, SensorSpec(1024, "illuminance", 0, 1))
          + Reading(node, endpointId, ep, SensorSpec(1026, "temperature", 0, 100))
          + Reading(node, endpointId, ep, SensorSpec(1027, "pressure", 0, 10))
          + Reading(node, endpointId, ep, SensorSpec(1029, "humidity", 0, 100))
          + Reading(node, endpointId, ep, SensorSpec(1030, "occupancy", 0, 1))
          + Reading(node, endpointId, ep, SensorSpec(69, "contact", 0, 1))
  {
    TableOfSix(node, endpointId, ep, SensorClusters);
  }

  /** `rec` is in an endpoint's records exactly when some table row reads
      there and `rec` describes that reading. */
  lemma {:induction false} TableSensorsMembership(node: Node, endpointId: EndpointId, ep: Endpoint, table: seq<SensorSpec>, rec: SensorRecord)
    ensures rec in TableSensors(node, endpointId, ep, table)
        <==> exists t :: 0 <= t < |table| && Reads(node, endpointId, ep, table[t]) && DescribesSensor(node, endpointId, table[t], rec)
  {
    if table != [] {
      TableSensorsMembership(node, endpointId, ep, table[1..], rec);
      var head := Reading(node, endpointId, ep, table[0]);
      if rec in head {
        assert Reads(node, endpointId, ep, table[0]) && DescribesSensor(node, endpointId, table[0], rec);
      }
      if rec in TableSensors(node, endpointId, ep, table[1..]) {
        var t :| 0 <= t < |table[1..]| && Reads(node, endpointId, ep, table[1..][t]) && DescribesSensor(node, endpointId, table[1..][t], rec);
        assert table[1..][t] == table[t + 1];
      }
      if exists t :: 0 <= t < |table| && Reads(node, endpointId, ep, table[t]) && DescribesSensor(node, endpointId, table[t], rec) {
        var t :| 0 <= t < |table| && Reads(node, endpointId, ep, table[t]) && DescribesSensor(node, endpointId, table[t], rec);
        if t == 0 {
          assert rec == head[0];
        } else {
          assert table[1..][t - 1] == table[t];
        }
      }
    }
  }

  /** `rec` is the reading of table row `t` at endpoint `j` of node `i`. */
  predicate SensorAt(nodes: seq<Node>, i: int, j: int, t: int, rec: SensorRecord) {
    && 0 <= i < |nodes|
    && 0 <= j < |nodes[i].endpoints|
    && 0 <= t < |SensorClusters|
    && Reads(nodes[i], nodes[i].endpoints[j].0, nodes[i].endpoints[j].1, SensorClusters[t])
    && DescribesSensor(nodes[i], nodes[i].endpoints[j].0, SensorClusters[t], rec)
  }

  /** A sensor record exists for (node, endpoint, cluster) exactly when the
      cluster is a table row, the endpoint exposes it, and its attribute
      reads a value; the record carries that value unscaled. */
  lemma SensorMembership(nodes: seq<Node>, rec: SensorRecord)
    ensures rec in SensorRecords(nodes) <==> exists i, j, t :: SensorAt(nodes, i, j, t, rec)
  {
    NodesWalkMembership(nodes, SensorsAt, rec);
    if rec in SensorRecords(nodes) {
      var i, j :| EmittedAt(nodes, SensorsAt, i, j, rec);
      TableSensorsMembership(nodes[i], nodes[i].endpoints[j].0, nodes[i].endpoints[j].1, SensorClusters, rec);
      var t :| 0 <= t < |SensorClusters| && Reads(nodes[i], nodes[i].endpoints[j].0, nodes[i].endpoints[j].1, SensorClusters[t])
                                         && DescribesSensor(nodes[i], nodes[i].endpoints[j].0, SensorClusters[t], rec);
      assert SensorAt(nodes, i, j, t, rec);
    }
    if exists i, j, t :: SensorAt(nodes, i, j, t, rec) {
      var i, j, t :| SensorAt(nodes, i, j, t, rec);
      TableSensorsMembership(nodes[i], nodes[i].endpoints[j].0, nodes[i].endpoints[j].1, SensorClusters, rec);
      assert EmittedAt(nodes, SensorsAt, i, j, rec);
    }
  }

  /** Two tables that differ at most in their scale factors. */
  predicate SameButScale(t1: seq<SensorSpec>, t2: seq<SensorSpec>) {
    && |t1| == |t2|
    && forall k :: 0 <= k < |t1| ==>
         t1[k].cluster == t2[k].cluster && t1[k].name == t2[k].name && t1[k].attribute == t2[k].attribute
  }

  /** The scale factor is unpacked but never applied: changing it leaves
      every record unchanged. */
  lemma {:induction false} ScaleNeverApplied(node: Node, endpointId: EndpointId, ep: Endpoint, t1: seq<SensorSpec>, t2: seq<SensorSpec>)
    requires SameButScale(t1, t2)
    ensures TableSensors(node, endpointId, ep, t1) == TableSensors(node, endpointId, ep, t2)
  {
    if t1 != [] {
      assert SameButScale(t1[1..], t2[1..]) by {
        forall k | 0 <= k < |t1[1..]|
          ensures t1[1..][k].cluster == t2[1..][k].cluster && t1[1..][k].name == t2[1..][k].name
               && t1[1..][k].attribute == t2[1..][k].attribute
        {
          assert t1[1..][k] == t1[k + 1] && t2[1..][k] == t2[k + 1];
        }
      }
      ScaleNeverApplied(node, endpointId, ep, t1[1..], t2[1..]);
    }
  }

  predicate NamesDistinct(table: seq<SensorSpec>) {
    forall k, k' :: 0 <= k < k' < |table| ==> table[k].name != table[k'].name
  }

  lemma SensorClustersNamesDistinct()
    ensures NamesDistinct(SensorClusters)
  {
  }

  function SensorKey(rec: SensorRecord): string {
    rec.id
  }

  /** Within one endpoint, distinct table names give distinct ids. */
  lemma {:induction false} TableSensorsUnique(node: Node, endpointId: EndpointId, ep: Endpoint, table: seq<SensorSpec>)
    requires NamesDistinct(table)
    ensures UniqueBy(TableSensors(node, endpointId, ep, table), SensorKey)
  {
    if table != [] {
      var head := Reading(node, endpointId, ep, table[0]);
      var tail := TableSensors(node, endpointId, ep, table[1..]);
      TableSensorsUnique(node, endpointId, ep, table[1..]);
      forall x, y | x in head && y in tail ensures SensorKey(x) != SensorKey(y) {
        TableSensorsMembership(node, endpointId, ep, table[1..], y);
        var t :| 0 <= t < |table[1..]| && Reads(node, endpointId, ep, table[1..][t]) && DescribesSensor(node, endpointId, table[1..][t], y);
        assert table[1..][t] == table[t + 1];
        SensorIdInjective(node.nodeId, endpointId, table[0].name, node.nodeId, endpointId, table[t + 1].name);
      }
      UniqueByAppend(head, tail, SensorKey);
    }
  }

  lemma SensorsAtUnique()
    ensures forall n, e, ep :: UniqueBy(SensorsAt(n, e, ep), SensorKey)
  {
    forall n, e, ep ensures UniqueBy(SensorsAt(n, e, ep), SensorKey) {
      SensorClustersNamesDistinct();
      TableSensorsUnique(n, e, ep, SensorClusters);
    }
  }

  /** A sensor id is its endpoint's label followed by `" - "` and the name. */
  lemma SensorIdLabelled(n: Node, e: EndpointId, ep: Endpoint, x: SensorRecord)
    requires x in SensorsAt(n, e, ep)
    ensures LabelledBy(SensorKey(x), n.nodeId, e)
  {
    TableSensorsMembership(n, e, ep, SensorClusters, x);
    var t :| 0 <= t < |SensorClusters| && Reads(n, e, ep, SensorClusters[t]) && DescribesSensor(n, e, SensorClusters[t], x);
    var name := SensorClusters[t].name;
    assert SensorKey(x) == DeviceId(n.nodeId, e) + (" - " + name);
    DeviceIdLabelled(n.nodeId, e, " - " + name);
  }

  lemma SensorsKeyedBySite()
    ensures KeyedBySite(SensorsAt, SensorKey)
  {
    forall n, e, ep, x | x in SensorsAt(n, e, ep) ensures LabelledBy(SensorKey(x), n.nodeId, e) {
      SensorIdLabelled(n, e, ep, x);
    }
  }

  /** With distinct node ids and distinct endpoint ids per node, no two
      sensor records share an id. */
  lemma SensorIdsUnique(nodes: seq<Node>)
    requires WellFormed(nodes)
    ensures UniqueBy(SensorRecords(nodes), SensorKey)
  {
    SensorsAtUnique();
    SensorsKeyedBySite();
    NodesWalkUnique(nodes, SensorsAt, SensorKey);
  }

  /** Exactly one record per readable (node, endpoint, table row) and none
      for any other: the row's id occurs precisely when the endpoint exposes
      the cluster and the attribute reads a value, and ids do not repeat. */
  lemma SensorOnePerReading(nodes: seq<Node>, i: nat, j: nat, t: nat)
    requires WellFormed(nodes)
    requires i < |nodes| && j < |nodes[i].endpoints| && t < |SensorClusters|
    ensures var r, node, e, ep, spec := SensorRecords(nodes), nodes[i], nodes[i].endpoints[j].0, nodes[i].endpoints[j].1, SensorClusters[t];
      && (Reads(node, e, ep, spec) ==> exists k :: 0 <= k < |r| && DescribesSensor(node, e, spec, r[k]))
      && ((exists k :: 0 <= k < |r| && r[k].id == SensorId(node.nodeId, e, spec.name)) ==> Reads(node, e, ep, spec))
      && UniqueBy(r, SensorKey)
  {
    var r, node, e, ep, spec := SensorRecords(nodes), nodes[i], nodes[i].endpoints[j].0, nodes[i].endpoints[j].1, SensorClusters[t];
    SensorIdsUnique(nodes);
    if Reads(node, e, ep, spec) {
      var val := GetAttributeValue(node, e, spec.cluster, spec.attribute).value;
      var rec := SensorRecord(SensorId(node.nodeId, e, spec.name), spec.name, val);
      assert SensorAt(nodes, i, j, t, rec);
      SensorMembership(nodes, rec);
      var k :| 0 <= k < |r| && r[k] == rec;
    }
    if exists k :: 0 <= k < |r| && r[k].id == SensorId(node.nodeId, e, spec.name) {
      var k :| 0 <= k < |r| && r[k].id == SensorId(node.nodeId, e, spec.name);
      SensorMembership(nodes, r[k]);
      var i', j', t' :| SensorAt(nodes, i', j', t', r[k]);
      SensorIdInjective(nodes[i'].nodeId, nodes[i'].endpoints[j'].0, SensorClusters[t'].name, node.nodeId, e, spec.name);
      assert i' == i;
      assert DistinctEndpointIds(node);
      assert j' == j;
      SensorClustersNamesDistinct();
      assert t' == t;
    }
  }

  /** A node whose only endpoint measures temperature and reports 2150
      (hundredths of a degree). */
  function TemperatureNode(nodeId: NodeId): Node {
    Node(nodeId, [(1, Endpoint({1026}))], map[AttributePath(1, 1026, 0) := 2150])
  }

  /** A temperature endpoint reporting 2150 (hundredths of a degree) is
      served as 2150: the table's scale factor of 100 is not applied. */
  lemma TemperatureServedUnscaled(nodeId: NodeId)
    ensures SensorView(Some(Client([TemperatureNode(nodeId)]))) == Ready([SensorRecord(SensorId(nodeId, 1, "temperature"), "temperature", 2150)])
  {
    var node := TemperatureNode(nodeId);
    var ep := Endpoint({1026});
    var t := SensorClusters;
    TableOfSix(node, 1, ep, t);
    assert t[0].cluster == 1024 && t[2].cluster == 1027 && t[3].cluster == 1029 && t[4].cluster == 1030 && t[5].cluster == 69;
    assert t[1] == SensorSpec(1026, "temperature", 0, 100);
    assert SensorsAt(node, 1, ep) == [SensorRecord(SensorId(nodeId, 1, "temperature"), "temperature", 2150)];
    EndpointsWalkSingleton(node, (1, ep), SensorsAt);
    NodesWalkSingleton(node, SensorsAt);
  }

  /** The innermost loop of the handler: the table rows in order, keeping
      those whose cluster is present and whose attribute reads a value. */
  method CollectEndpointSensors(node: Node, endpointId: EndpointId, endpoint: Endpoint, table: seq<SensorSpec>)
    returns (found: seq<SensorRecord>)
    ensures found == TableSensors(node, endpointId, endpoint, table)
  {
    found := [];
    var t := 0;
    while t < |table|
      invariant 0 <= t <= |table|
      invariant found == TableSensors(node, endpointId, endpoint, table[..t])
    {
      var spec := table[t];
      if spec.cluster in endpoint.clusters {
        var val := GetAttributeValue(node, endpointId, spec.cluster, spec.attribute);
        if val.Some? {
          found := found + [SensorRecord(SensorId(node.nodeId, endpointId, spec.name), spec.name, val.value)];
        }
      }
      assert table[..t + 1] == table[..t] + [spec];
      TableSensorsAppend(node, endpointId, endpoint, table[..t], [spec]);
      assert TableSensors(node, endpointId, endpoint, [spec]) == Reading(node, endpointId, endpoint, spec) + TableSensors(node, endpointId, endpoint, []);
      t := t + 1;
    }
    assert table[..t] == table;
  }

  /** The middle loop of the handler: the node's endpoints in order. */
  method CollectNodeSensors(node: Node) returns (found: seq<SensorRecord>)
    ensures found == EndpointsWalk(node, node.endpoints, SensorsAt)
  {
    found := [];
    var j := 0;
    while j < |node.endpoints|
      invariant 0 <= j <= |node.endpoints|
      invariant found == EndpointsWalk(node, node.endpoints[..j], SensorsAt)
    {
      var (endpointId, endpoint) := node.endpoints[j];
      var fromEndpoint := CollectEndpointSensors(node, endpointId, endpoint, SensorClusters);
      found := found + fromEndpoint;
      assert node.endpoints[..j + 1] == node.endpoints[..j] + [node.endpoints[j]];
      EndpointsWalkAppend(node, node.endpoints[..j], [node.endpoints[j]], SensorsAt);
      EndpointsWalkSingleton(node, node.endpoints[j], SensorsAt);
      j := j + 1;
    }
    assert node.endpoints[..j] == node.endpoints;
  }

  /** The handler as written: for each node, for each endpoint, the table loop. */
  method ServeSensorsApi(client: Option<Client>) returns (r: Response<SensorRecord>)
    ensures r == SensorView(client)
  {
    if client.None? {
      return NotReady;
    }
    var nodes := client.value.nodes;
    var sensorsData: seq<SensorRecord> := [];
    var i := 0;
    while i < |nodes|
      invariant 0 <= i <= |nodes|
      invariant sensorsData == NodesWalk(nodes[..i], SensorsAt)
    {
      var fromNode := CollectNodeSensors(nodes[i]);
      sensorsData := sensorsData + fromNode;
      assert nodes[..i + 1] == nodes[..i] + [nodes[i]];
      NodesWalkAppend(nodes[..i], [nodes[i]], SensorsAt);
      NodesWalkSingleton(nodes[i], SensorsAt);
      i := i + 1;
    }
    assert nodes[..i] == nodes;
    return Ready(sensorsData);
  }
}
