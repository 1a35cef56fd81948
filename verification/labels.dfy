/** The human-facing identifiers the handlers put in their records. */
module Labels {
  import opened Wrappers
  import opened Decimal

  /** `Some(rest)` when `s` is `prefix + rest`, `None` otherwise. */
  function Expect(prefix: string, s: string): Option<string> {
    if prefix == [] then Some(s)
    else if s == [] || s[0] != prefix[0] then None
    else Expect(prefix[1..], s[1..])
  }

  lemma {:induction false} ExpectPrefix(prefix: string, rest: string)
    ensures Expect(prefix, prefix + rest) == Some(rest)
  {
    if prefix == [] {
      assert prefix + rest == rest;
    } else {
      assert (prefix + rest)[0] == prefix[0] && (prefix + rest)[1..] == prefix[1..] + rest;
      ExpectPrefix(prefix[1..], rest);
    }
  }

  /** Reads a label back: `"Node "`, a numeral, `" - EP "`, a numeral, and
      whatever follows the second numeral. */
  function ParseLabel(s: string): Option<(nat, nat, string)> {
    match Expect("Node ", s)
    case None => None
    case Some(t) =>
      match ReadNumeral(t)
      case None => None
      case Some((nodeId, u)) =>
        match Expect(" - EP ", u)
        case None => None
        case Some(v) =>
          match ReadNumeral(v)
          case None => None
          case Some((endpointId, rest)) => Some((nodeId, endpointId, rest))
  }

  /** The label's text for two numbers, followed by text that does not
      extend the second numeral, reads back as those numbers and that text. */
  lemma ParseLabelRoundTrip(nodeId: nat, endpointId: nat, rest: string)
    requires StartsWithNonDigit(rest)
    ensures ParseLabel("Node " + NatToString(nodeId) + " - EP " + NatToString(endpointId) + rest)
         == Some((nodeId, endpointId, rest))
  {
    var a, b := NatToString(nodeId), NatToString(endpointId);
    var v := b + rest;
    var u := " - EP " + v;
    var t := a + u;
    assert "Node " + a + " - EP " + b + rest == "Node " + t;
    ExpectPrefix("Node ", t);
    ReadNumeralOf(nodeId, u);
    ExpectPrefix(" - EP ", v);
    ReadNumeralOf(endpointId, rest);
  }

  /** `"Node {node_id} - EP {endpoint_id}"`: the id of a lighting record and
      the prefix of every sensor id. It reads back as exactly its two numbers. */
  function DeviceId(nodeId: nat, endpointId: nat): (r: string)
    ensures ParseLabel(r) == Some((nodeId, endpointId, ""))
  {
    ParseLabelRoundTrip(nodeId, endpointId, "");
    assert "Node " + NatToString(nodeId) + " - EP " + NatToString(endpointId) + ""
        == "Node " + NatToString(nodeId) + " - EP " + NatToString(endpointId);
    "Node " + NatToString(nodeId) + " - EP " + NatToString(endpointId)
  }

  /** A device id followed by text that does not continue its last numeral
      reads back as the two numbers and that text. */
  lemma ParseLabelled(nodeId: nat, endpointId: nat, rest: string)
    requires StartsWithNonDigit(rest)
    ensures ParseLabel(DeviceId(nodeId, endpointId) + rest) == Some((nodeId, endpointId, rest))
  {
    ParseLabelRoundTrip(nodeId, endpointId, rest);
  }

  /** `"Node {node_id} - EP {endpoint_id} - {sensor_name}"`. It reads back as
      its two numbers followed by `" - "` and the name. */
  function SensorId(nodeId: nat, endpointId: nat, name: string): (r: string)
    ensures ParseLabel(r) == Some((nodeId, endpointId, " - " + name))
  {
    ParseLabelled(nodeId, endpointId, " - " + name);
    assert DeviceId(nodeId, endpointId) + " - " + name == DeviceId(nodeId, endpointId) + (" - " + name);
    DeviceId(nodeId, endpointId) + " - " + name
  }

  /** A device id followed by text that does not continue its last numeral
      determines both numbers and the text. */
  lemma DeviceIdPrefixUnique(n1: nat, e1: nat, rest1: string, n2: nat, e2: nat, rest2: string)
    requires StartsWithNonDigit(rest1) && StartsWithNonDigit(rest2)
    requires DeviceId(n1, e1) + rest1 == DeviceId(n2, e2) + rest2
    ensures n1 == n2 && e1 == e2 && rest1 == rest2
  {
    ParseLabelled(n1, e1, rest1);
    ParseLabelled(n2, e2, rest2);
  }

  /** Distinct (node, endpoint) pairs get distinct lighting ids. */
  lemma DeviceIdInjective(n1: nat, e1: nat, n2: nat, e2: nat)
    ensures DeviceId(n1, e1) == DeviceId(n2, e2) <==> n1 == n2 && e1 == e2
  {
    if DeviceId(n1, e1) == DeviceId(n2, e2) {
      assert DeviceId(n1, e1) + [] == DeviceId(n2, e2) + [];
      DeviceIdPrefixUnique(n1, e1, [], n2, e2, []);
    }
  }

  /** Distinct (node, endpoint, sensor name) triples get distinct sensor ids. */
  lemma SensorIdInjective(n1: nat, e1: nat, s1: string, n2: nat, e2: nat, s2: string)
    ensures SensorId(n1, e1, s1) == SensorId(n2, e2, s2) <==> n1 == n2 && e1 == e2 && s1 == s2
  {
    if SensorId(n1, e1, s1) == SensorId(n2, e2, s2) {
      assert SensorId(n1, e1, s1) == DeviceId(n1, e1) + (" - " + s1);
      assert SensorId(n2, e2, s2) == DeviceId(n2, e2) + (" - " + s2);
      DeviceIdPrefixUnique(n1, e1, " - " + s1, n2, e2, " - " + s2);
      assert s1 == (" - " + s1)[3..];
      assert s2 == (" - " + s2)[3..];
    }
  }


  /** `s` is the label of endpoint `endpointId` of node `nodeId`, possibly
      followed by a suffix that does not extend the endpoint numeral. */
  predicate LabelledBy(s: string, nodeId: nat, endpointId: nat) {
    var prefix := DeviceId(nodeId, endpointId);
    && |prefix| <= |s|
    && s[..|prefix|] == prefix
    && StartsWithNonDigit(s[|prefix|..])
  }

  /** A string carries the prefix of at most one (node, endpoint) pair. */
  lemma LabelledByUnique(s: string, n1: nat, e1: nat, n2: nat, e2: nat)
    requires LabelledBy(s, n1, e1) && LabelledBy(s, n2, e2)
    ensures n1 == n2 && e1 == e2
  {
    var k1, k2 := |DeviceId(n1, e1)|, |DeviceId(n2, e2)|;
    assert s == DeviceId(n1, e1) + s[k1..];
    assert s == DeviceId(n2, e2) + s[k2..];
    DeviceIdPrefixUnique(n1, e1, s[k1..], n2, e2, s[k2..]);
  }

  lemma DeviceIdLabelled(nodeId: nat, endpointId: nat, rest: string)
    requires StartsWithNonDigit(rest)
    ensures LabelledBy(DeviceId(nodeId, endpointId) + rest, nodeId, endpointId)
  {
  }
}
