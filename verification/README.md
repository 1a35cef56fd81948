# Matter web control: read-view projection

This project models the two read handlers of the Matter web bridge
(`cli/server.py`). They turn the Matter client's device tree (nodes, their
endpoints, each endpoint's cluster set, and the node's attribute reads) into
the JSON lists served at `/api/lights` and `/api/sensors`:

- `/api/lights` walks every node and every endpoint. It keeps the endpoints
  that expose the On/Off cluster (6). For each one it emits
  `{id, state, brightness}`: `state` is the raw On/Off attribute 0, and
  `brightness` is the raw Level Control (8) attribute 0 if that cluster is
  present, and `null` otherwise.
- `/api/sensors` walks the same tree. For each endpoint it goes through the
  fixed `SENSOR_CLUSTERS` table in declaration order (1024 illuminance,
  1026 temperature, 1027 pressure, 1029 humidity, 1030 occupancy, 69 contact).
  It emits `{id, name, value}` for every row whose cluster the endpoint
  exposes and whose attribute reads a value.
- Both handlers answer 503 "Server not ready" when there is no client.

Modules, in dependency order:

- `wrappers.dfy`: `Option`, which stands for Python's value-or-`None`.
- `decimal.dfy`: Python `str()` of a non-negative int, and its inverse.
- `device_tree.dfy`: `Node`, `Endpoint`, `Client`, the attribute read and
  the `Response` type (`NotReady` has status 503).
- `labels.dfy`: the `"Node {n} - EP {e}"` and `"… - {name}"` ids, a parser
  that reads the two numbers back out of an id, and injectivity proofs.
- `walk.dfy`: the node-then-endpoint traversal both handlers share, with
  lemmas on order, membership and key uniqueness.
- `lighting.dfy`, `sensors.dfy`: the two handlers. Each is written twice:
  - a recursive function (`LightingView`, `SensorView`);
  - the handler's loops (`ServeLightingApi`, `ServeSensorsApi`), proved equal
    to that function.

The handlers never look at the client itself, so the client is a plain
input: `Option<Client>` stands for `global_client`, and `Client.nodes` for
`get_nodes()`. A node's attribute reads are a map from
(endpoint, cluster, attribute) to an integer. A missing key is the `None`
that `get_attribute_value` returns. Endpoints are a sequence of
(id, endpoint) pairs because Python dictionaries iterate in insertion order.

The handlers themselves do not require node ids or endpoint ids to be
distinct. The client keeps both in dictionaries, so they are distinct in
practice. `DeviceTree.WellFormed` states this, and only the lemmas about
id uniqueness assume it.

This code does not normalise brightness, force it to 0 when the light is
off, or compute a Kelvin colour temperature, and the model follows the code:
brightness is the raw level, and
`Lighting.RawLightingExample` shows an off light that reports level 127.
Aliases, occupancy edges, persistence and callbacks are not in this code
either.

## Model

| member | source | states |
|---|---|---|
| Decimal.NatToString | cli/server.py:76 | a node or endpoint id is rendered as a non-empty run of decimal digits with no leading zero, as Python's f-string does: a rendering that starts with `0` is exactly `"0"`, the rendering of zero |
| Decimal.NatToStringRoundTrip | cli/server.py:76 | reading the rendered numeral back gives the original number, so the rendering loses nothing |
| Decimal.NatToStringInjective | cli/server.py:76 | two numbers have the same rendering if and only if they are equal |
| Decimal.ReadNumeralOf | cli/server.py:76 | reading a numeral left to right from a rendered number followed by a non-digit gives back the number and exactly the text after it |
| Labels.ParseLabelRoundTrip | cli/server.py:76 | parsing `Node {n} - EP {e}` followed by text that does not start with a digit gives back `n`, `e` and that text |
| Labels.DeviceId | cli/server.py:76 | the lighting id of a (node, endpoint) pair parses back as exactly that node id and endpoint id, with nothing left over |
| Labels.SensorId | cli/server.py:99 | the sensor id of (node, endpoint, name) parses back as that node id and endpoint id followed by `" - "` and the name |
| Labels.DeviceIdPrefixUnique | cli/server.py:76 | a lighting id followed by text that does not continue its last number determines the node id, the endpoint id and the text |
| Labels.DeviceIdInjective | cli/server.py:76 | lighting ids `Node {n} - EP {e}` are equal if and only if the (node id, endpoint id) pairs are equal |
| Labels.SensorIdInjective | cli/server.py:99 | sensor ids `Node {n} - EP {e} - {name}` are equal if and only if node id, endpoint id and sensor name are all equal |
| Labels.LabelledByUnique | cli/server.py:76 | a string can start with the label of at most one (node, endpoint) pair when a non-digit follows the label |
| Walk.EndpointsWalkAppend | cli/server.py:70 | within a node, the records of earlier endpoints come before those of later endpoints, in the node's endpoint order |
| Walk.NodesWalkAppend | cli/server.py:69 | the records of earlier nodes come before those of later nodes, in `get_nodes()` order |
| Walk.EndpointsWalkSingleton | cli/server.py:70-71 | a single endpoint contributes exactly the records the handler builds for it |
| Walk.NodesWalkSingleton | cli/server.py:69-70 | a single node contributes exactly the walk over its own endpoints |
| Walk.NodesWalkMembership | cli/server.py:69-70 | a record is in the output if and only if it was built for some endpoint of some node |
| Walk.NodesWalkUnique | cli/server.py:69-70 | when node ids and each node's endpoint ids are distinct, no key repeats in the output, provided every key starts with its endpoint's label and keys are distinct within one endpoint |
| Lighting.LightOf | cli/server.py:72-79 | the record built for an endpoint carries the id `Node {n} - EP {e}`, `state` the raw attribute 0 of cluster 6, and `brightness` the raw attribute 0 of cluster 8 when cluster 8 is present and `null` when it is not |
| Lighting.LightsAt | cli/server.py:71-79 | an endpoint contributes at most one lighting record, contributes one if and only if it exposes cluster 6, and that record describes it |
| Lighting.LightingView | cli/server.py:61-66 | the lights handler answers 503 if and only if there is no client, and otherwise returns the list built from `get_nodes()` |
| Lighting.LightingMembership | cli/server.py:69-79 | a record is in the lights list if and only if some endpoint exposes cluster 6 and the record describes it: id `Node {n} - EP {e}`, `state` the raw attribute 0 of cluster 6, `brightness` the raw attribute 0 of cluster 8 when cluster 8 is present and `null` when it is not |
| Lighting.LightingIdsUnique | cli/server.py:69-79 | when node ids and each node's endpoint ids are distinct, no two lighting records share an id |
| Lighting.LightingOnePerOnOffEndpoint | cli/server.py:69-79 | an endpoint exposing cluster 6 has a record that describes it; an endpoint without cluster 6 has no record carrying its id; ids do not repeat, so there is exactly one record per On/Off endpoint |
| Lighting.RawLightingExample | cli/server.py:71-79 | for a three-endpoint node with any node id: an off light keeps its raw level 127, a light without cluster 8 reports `null` brightness, and a sensor-only endpoint gets no record |
| Lighting.CollectNodeLights | cli/server.py:70-79 | the loop over a node's endpoints appends exactly the node's lighting records, in endpoint order |
| Lighting.ServeLightingApi | cli/server.py:61-81 | the handler's loops, which append one record per On/Off endpoint, produce exactly the lighting view |
| Sensors.Reading | cli/server.py:95-102 | a table row yields at most one record, and yields one if and only if the endpoint exposes the row's cluster and the attribute reads a value; that record has the row's name, the sensor id and the raw value |
| Sensors.TableSensors | cli/server.py:94-102 | the rows of a table yield at most as many records as the table has rows |
| Sensors.SensorsAt | cli/server.py:19-26 | one endpoint yields at most 6 sensor records, the size of the fixed table |
| Sensors.SensorView | cli/server.py:83-88 | the sensors handler answers 503 if and only if there is no client, and otherwise returns the list built from `get_nodes()` |
| Sensors.TableSensorsAppend | cli/server.py:94 | within an endpoint, the records of earlier table rows come before those of later rows |
| Sensors.TableOfSix | cli/server.py:94-102 | a six-row table yields the readings of rows 0 to 5, concatenated in that order |
| Sensors.SensorOrderWithinEndpoint | cli/server.py:19-26 | an endpoint's sensor records come in table order: illuminance (1024), temperature (1026), pressure (1027), humidity (1029), occupancy (1030), contact (69) |
| Sensors.TableSensorsMembership | cli/server.py:94-102 | a record is among an endpoint's sensor records if and only if some table row reads a value there and the record describes that reading |
| Sensors.SensorMembership | cli/server.py:91-102 | a sensor record exists for (node, endpoint, cluster) if and only if the cluster is a table row, the endpoint exposes it, and its configured attribute reads a value; the record carries the table name, the id `Node {n} - EP {e} - {name}`, and the value as read |
| Sensors.ScaleNeverApplied | cli/server.py:94-101 | changing the table's scale factors changes no record: the scale is unpacked but never applied |
| Sensors.TemperatureServedUnscaled | cli/server.py:21 | a node, with any node id, whose only endpoint exposes temperature reading 2150 is served as exactly one record, `temperature` with the value 2150, not divided by the table's factor of 100 |
| Sensors.SensorClustersNamesDistinct | cli/server.py:19-26 | the six table rows have pairwise distinct names |
| Sensors.TableSensorsUnique | cli/server.py:94-100 | within one endpoint, a table with distinct names yields distinct sensor ids |
| Sensors.SensorIdLabelled | cli/server.py:99 | every sensor id starts with its endpoint's lighting-style label, followed by text that does not start with a digit |
| Sensors.SensorIdsUnique | cli/server.py:91-100 | when node ids and each node's endpoint ids are distinct, no two sensor records share an id |
| Sensors.SensorOnePerReading | cli/server.py:91-102 | for each (node, endpoint, table row): if the row reads a value, a record describes it; if a record carries the row's id, the row reads a value; ids do not repeat |
| Sensors.CollectEndpointSensors | cli/server.py:94-102 | the loop over the table rows appends exactly the endpoint's sensor records, in table order |
| Sensors.CollectNodeSensors | cli/server.py:92-102 | the loop over a node's endpoints appends exactly the node's sensor records |
| Sensors.ServeSensorsApi | cli/server.py:83-104 | the handler's loops produce exactly the sensor view |

## Left out

- Process and async lifecycle (`init_servers`, `close_servers`, cli/server.py:28-59): launching the subprocess, the fixed sleeps, the listening task and the ordered shutdown are I/O, not logic.
- The aiohttp application, route registration, JSON serialisation by `web.json_response`, and the `argparse` bootstrap (cli/server.py:106-125) are glue. The derived `MATTER_PORT = web_port + 1` is not modelled.
- The `MatterClient` transport and how `get_attribute_value` obtains its values belong to a foreign library. The tree and the attribute reads are an input value.
- Attribute values are integers. The on/off attribute is really a boolean, and `int()` on a float or boolean value (truncation, `True` to 1) is not modelled.
- Logging (cli/server.py:7, 62, 84, 124) is not modelled.
- The per-request log line and the response body `{"error": "Server not ready"}` are reduced to the `NotReady` reply, whose status is 503.
