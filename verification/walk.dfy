/** The traversal both read handlers share: every node in `get_nodes()`
    order, and within a node every endpoint in dictionary order, with the
    records produced for each endpoint appended in that order. */
module Walk {
  import opened DeviceTree
  import opened Labels

  /** What a handler produces for one endpoint of one node. */
  type Emit<R> = (Node, EndpointId, Endpoint) -> seq<R>

  function EndpointsWalk<R>(node: Node, eps: seq<(EndpointId, Endpoint)>, emit: Emit<R>): seq<R> {
    if eps == [] then [] else emit(node, eps[0].0, eps[0].1) + EndpointsWalk(node, eps[1..], emit)
  }

  function NodesWalk<R>(nodes: seq<Node>, emit: Emit<R>): seq<R> {
    if nodes == [] then [] else EndpointsWalk(nodes[0], nodes[0].endpoints, emit) + NodesWalk(nodes[1..], emit)
  }

  /** Records of earlier endpoints come before records of later ones. */
  lemma {:induction false} EndpointsWalkAppend<R>(node: Node, a: seq<(EndpointId, Endpoint)>, b: seq<(EndpointId, Endpoint)>, emit: Emit<R>)
    ensures EndpointsWalk(node, a + b, emit) == EndpointsWalk(node, a, emit) + EndpointsWalk(node, b, emit)
  {
    if a == [] {
      assert a + b == b;
    } else {
      assert (a + b)[0] == a[0];
      assert (a + b)[1..] == a[1..] + b;
      EndpointsWalkAppend(node, a[1..], b, emit);
    }
  }

  /** Records of earlier nodes come before records of later ones. */
  lemma {:induction false} NodesWalkAppend<R>(a: seq<Node>, b: seq<Node>, emit: Emit<R>)
    ensures NodesWalk(a + b, emit) == NodesWalk(a, emit) + NodesWalk(b, emit)
  {
    if a == [] {
      assert a + b == b;
    } else {
      assert (a + b)[0] == a[0];
      assert (a + b)[1..] == a[1..] + b;
      NodesWalkAppend(a[1..], b, emit);
    }
  }

  /** One endpoint on its own contributes exactly what the handler emits for
      it; with the append lemmas this fixes the output order within a node. */
  lemma EndpointsWalkSingleton<R>(node: Node, ep: (EndpointId, Endpoint), emit: Emit<R>)
    ensures EndpointsWalk(node, [ep], emit) == emit(node, ep.0, ep.1)
  {
  }

  /** One node on its own contributes the walk over its endpoints. */
  lemma NodesWalkSingleton<R>(node: Node, emit: Emit<R>)
    ensures NodesWalk([node], emit) == EndpointsWalk(node, node.endpoints, emit)
  {
  }

  /** `x` is among the records emitted for endpoint `j` of node `i`. */
  predicate EmittedAt<R(==)>(nodes: seq<Node>, emit: Emit<R>, i: int, j: int, x: R) {
    && 0 <= i < |nodes|
    && 0 <= j < |nodes[i].endpoints|
    && x in emit(nodes[i], nodes[i].endpoints[j].0, nodes[i].endpoints[j].1)
  }

  lemma {:induction false} EndpointsWalkMembership<R>(node: Node, eps: seq<(EndpointId, Endpoint)>, emit: Emit<R>, x: R)
    ensures x in EndpointsWalk(node, eps, emit) <==> exists j :: 0 <= j < |eps| && x in emit(node, eps[j].0, eps[j].1)
  {
    if eps != [] {
      EndpointsWalkMembership(node, eps[1..], emit, x);
      if x in EndpointsWalk(node, eps[1..], emit) {
        var j :| 0 <= j < |eps[1..]| && x in emit(node, eps[1..][j].0, eps[1..][j].1);
        assert eps[1..][j] == eps[j + 1];
      }
      if exists j :: 0 <= j < |eps| && x in emit(node, eps[j].0, eps[j].1) {
        var j :| 0 <= j < |eps| && x in emit(node, eps[j].0, eps[j].1);
        if j > 0 {
          assert eps[1..][j - 1] == eps[j];
        }
      }
    }
  }

  /** A record is in the output exactly when it was emitted for some
      endpoint of some node. */
  lemma {:induction false} NodesWalkMembership<R>(nodes: seq<Node>, emit: Emit<R>, x: R)
    ensures x in NodesWalk(nodes, emit) <==> exists i, j :: EmittedAt(nodes, emit, i, j, x)
  {
    if nodes != [] {
      NodesWalkMembership(nodes[1..], emit, x);
      EndpointsWalkMembership(nodes[0], nodes[0].endpoints, emit, x);
      if x in EndpointsWalk(nodes[0], nodes[0].endpoints, emit) {
        var j :| 0 <= j < |nodes[0].endpoints| && x in emit(nodes[0], nodes[0].endpoints[j].0, nodes[0].endpoints[j].1);
        assert EmittedAt(nodes, emit, 0, j, x);
      }
      if x in NodesWalk(nodes[1..], emit) {
        var i, j :| EmittedAt(nodes[1..], emit, i, j, x);
        assert EmittedAt(nodes, emit, i + 1, j, x);
      }
      if exists i, j :: EmittedAt(nodes, emit, i, j, x) {
        var i, j :| EmittedAt(nodes, emit, i, j, x);
        if i > 0 {
          assert EmittedAt(nodes[1..], emit, i - 1, j, x);
        } else {
          assert x in emit(nodes[0], nodes[0].endpoints[j].0, nodes[0].endpoints[j].1);
        }
      }
    }
  }

  /** No two records of `s` share a key. */
  predicate UniqueBy<R>(s: seq<R>, key: R -> string) {
    forall k, k' :: 0 <= k < k' < |s| ==> key(s[k]) != key(s[k'])
  }

  lemma UniqueByAppend<R>(a: seq<R>, b: seq<R>, key: R -> string)
    requires UniqueBy(a, key) && UniqueBy(b, key)
    requires forall x, y :: x in a && y in b ==> key(x) != key(y)
    ensures UniqueBy(a + b, key)
  {
  }

  /** Every record emitted for an endpoint is keyed by that endpoint's label. */
  ghost predicate KeyedBySite<R>(emit: Emit<R>, key: R -> string) {
    forall n, e, ep, x :: x in emit(n, e, ep) ==> LabelledBy(key(x), n.nodeId, e)
  }

  lemma {:induction false} EndpointsWalkUnique<R>(node: Node, eps: seq<(EndpointId, Endpoint)>, emit: Emit<R>, key: R -> string)
    requires forall j, j' :: 0 <= j < j' < |eps| ==> eps[j].0 != eps[j'].0
    requires forall e, ep :: UniqueBy(emit(node, e, ep), key)
    requires KeyedBySite(emit, key)
    ensures UniqueBy(EndpointsWalk(node, eps, emit), key)
  {
    if eps != [] {
      var head := emit(node, eps[0].0, eps[0].1);
      var tail := EndpointsWalk(node, eps[1..], emit);
      EndpointsWalkUnique(node, eps[1..], emit, key);
      forall x, y | x in head && y in tail ensures key(x) != key(y) {
        EndpointsWalkMembership(node, eps[1..], emit, y);
        var j :| 0 <= j < |eps[1..]| && y in emit(node, eps[1..][j].0, eps[1..][j].1);
        assert eps[1..][j] == eps[j + 1];
        if key(x) == key(y) {
          LabelledByUnique(key(x), node.nodeId, eps[0].0, node.nodeId, eps[j + 1].0);
        }
      }
      UniqueByAppend(head, tail, key);
    }
  }

  /** When node ids are distinct, endpoint ids are distinct within each node,
      and every record's key carries its endpoint's label, keys never repeat
      across the whole output. */
  lemma {:induction false} NodesWalkUnique<R>(nodes: seq<Node>, emit: Emit<R>, key: R -> string)
    requires WellFormed(nodes)
    requires forall n, e, ep :: UniqueBy(emit(n, e, ep), key)
    requires KeyedBySite(emit, key)
    ensures UniqueBy(NodesWalk(nodes, emit), key)
  {
    if nodes != [] {
      var head := EndpointsWalk(nodes[0], nodes[0].endpoints, emit);
      var tail := NodesWalk(nodes[1..], emit);
      assert DistinctEndpointIds(nodes[0]);
      EndpointsWalkUnique(nodes[0], nodes[0].endpoints, emit, key);
      assert WellFormed(nodes[1..]) by {
        forall i | 0 <= i < |nodes[1..]| ensures DistinctEndpointIds(nodes[1..][i]) {
          assert nodes[1..][i] == nodes[i + 1];
        }
      }
      NodesWalkUnique(nodes[1..], emit, key);
      forall x, y | x in head && y in tail ensures key(x) != key(y) {
        EndpointsWalkMembership(nodes[0], nodes[0].endpoints, emit, x);
        var j :| 0 <= j < |nodes[0].endpoints| && x in emit(nodes[0], nodes[0].endpoints[j].0, nodes[0].endpoints[j].1);
        NodesWalkMembership(nodes[1..], emit, y);
        var i, j' :| EmittedAt(nodes[1..], emit, i, j', y);
        assert nodes[1..][i] == nodes[i + 1];
        if key(x) == key(y) {
          LabelledByUnique(key(x), nodes[0].nodeId, nodes[0].endpoints[j].0, nodes[i + 1].nodeId, nodes[i + 1].endpoints[j'].0);
        }
      }
      UniqueByAppend(head, tail, key);
    }
  }
}
