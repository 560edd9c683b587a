/** Datanode registry and health sweep (internal/domain/namenode/memory_registry.go, health_monitor.go). */
module Registry {
  import opened Basics

  datatype Node = Node(id: string, address: string, totalBytes: int, freeBytes: int, storageUsed: int,
                       totalStorage: int, connections: int, last: int, available: bool)

  type Nodes = map<string, Node>

  datatype Error = NodeNotFound | InvalidNode

  function Register(nodes: Nodes, n: Node, now: int): (r: (Nodes, Option<Error>)) {
    if n.id == "" || n.address == "" then (nodes, Some(InvalidNode))
    else (nodes[n.id := n.(last := now, available := true, storageUsed := n.totalBytes - n.freeBytes,
                           totalStorage := n.totalBytes)], None)
  }

  function Heartbeat(nodes: Nodes, id: string, free: int, connections: int, now: int): (r: (Nodes, Option<Error>)) {
    if id !in nodes then (nodes, Some(NodeNotFound))
    else (nodes[id := nodes[id].(freeBytes := free, connections := connections, last := now, available := true)], None)
  }

  function MarkUnavailable(nodes: Nodes, id: string): (r: (Nodes, Option<Error>)) {
    if id !in nodes then (nodes, Some(NodeNotFound))
    else (nodes[id := nodes[id].(available := false)], None)
  }

  /** GetAllAvailable, for the order in which the map is visited. */
  function Available(nodes: Nodes, order: seq<string>): (r: seq<Node>) {
    if order == [] then []
    else
      var rest, id := Available(nodes, order[..|order| - 1]), order[|order| - 1];
      if id in nodes && nodes[id].available then rest + [nodes[id]] else rest
  }

  /** Every key holds the node of that id. */
  ghost predicate WellKeyed(nodes: Nodes) {
    forall id :: id in nodes ==> nodes[id].id == id
  }

  predicate Current(n: Node, nodes: Nodes) {
    n.available && n.id in nodes && nodes[n.id] == n
  }

  /** The listing holds each available node exactly once. */
  lemma {:induction false} AvailableFacts(nodes: Nodes, order: seq<string>)
    requires WellKeyed(nodes) && forall i, j :: 0 <= i < j < |order| ==> order[i] != order[j]
    ensures var r := Available(nodes, order);
      && (forall n :: n in r ==> Current(n, nodes) && n.id in order)
      && (forall k, l :: 0 <= k < l < |r| ==> r[k].id != r[l].id)
      && (forall id :: id in order && id in nodes && nodes[id].available ==> nodes[id] in r)
  {
    if order != [] {
      var rest, id := order[..|order| - 1], order[|order| - 1];
      AvailableFacts(nodes, rest);
      assert order == rest + [id];
      assert id !in rest;
      var q, r := Available(nodes, rest), Available(nodes, order);
      forall k, l | 0 <= k < l < |r| ensures r[k].id != r[l].id {
        assert r[k] in q && r[k].id in rest;
        if l < |q| { assert r[l] == q[l]; }
      }
    }
  }

  /** The nodes silent for the timeout are unavailable, all others as they were. */
  function Swept(nodes: Nodes, now: int, timeout: int): (r: Nodes) {
    map id | id in nodes :: if now - nodes[id].last >= timeout then nodes[id].(available := false) else nodes[id]
  }

  /** The sweep's loop over its copy of the nodes. */
  function MarkSilent(nodes: Nodes, todo: seq<Node>, at: int, timeout: int): (r: Nodes) {
    if todo == [] then nodes
    else
      var rest, n := MarkSilent(nodes, todo[..|todo| - 1], at, timeout), todo[|todo| - 1];
      if at - n.last >= timeout then MarkUnavailable(rest, n.id).0 else rest
  }

  lemma {:induction false} MarkSilentAt(nodes: Nodes, todo: seq<Node>, at: int, timeout: int, id: string)
    requires id in nodes && WellKeyed(nodes)
    requires forall n :: n in todo ==> Current(n, nodes)
    ensures var r := MarkSilent(nodes, todo, at, timeout);
      id in r && r[id] == if nodes[id] in todo && at - nodes[id].last >= timeout
                          then nodes[id].(available := false) else nodes[id]
    ensures MarkSilent(nodes, todo, at, timeout).Keys == nodes.Keys
  {
    if todo != [] {
      var rest, n := todo[..|todo| - 1], todo[|todo| - 1];
      MarkSilentAt(nodes, rest, at, timeout, id);
      assert todo == rest + [n] && n in todo && Current(n, nodes);
      assert nodes[id] in todo <==> nodes[id] in rest || n.id == id;
    }
  }

  lemma SweepMarksTheSilent(nodes: Nodes, order: seq<string>, now: int, timeout: int)
    requires WellKeyed(nodes) && Lists(order, nodes.Keys)
    ensures MarkSilent(nodes, Available(nodes, order), now, timeout) == Swept(nodes, now, timeout)
  {
    AvailableFacts(nodes, order);
    var todo := Available(nodes, order);
    forall id | id in nodes
      ensures id in MarkSilent(nodes, todo, now, timeout)
      ensures MarkSilent(nodes, todo, now, timeout)[id] == Swept(nodes, now, timeout)[id]
      ensures MarkSilent(nodes, todo, now, timeout).Keys == nodes.Keys
    {
      MarkSilentAt(nodes, todo, now, timeout, id);
    }
    if nodes == map[] { assert todo == []; }
    assert MarkSilent(nodes, todo, now, timeout).Keys == nodes.Keys;
  }

  class InMemoryDataNodeRegistry {
    var nodes: Nodes

    constructor ()
      ensures nodes == map[]
    {
      nodes := map[];
    }

    method RegisterNode(node: Option<Node>, now: int) returns (err: Option<Error>)
      modifies this
      ensures node.None? ==> nodes == old(nodes) && err == Some(InvalidNode)
      ensures node.Some? ==> (nodes, err) == Register(old(nodes), node.value, now)
      ensures old(WellKeyed(nodes)) ==> WellKeyed(nodes)
    {
      if node.None? || node.value.id == "" || node.value.address == "" {
        return Some(InvalidNode);
      }
      var nodeCopy := node.value;
      nodeCopy := nodeCopy.(last := now);
      nodeCopy := nodeCopy.(available := true);
      nodeCopy := nodeCopy.(storageUsed := node.value.totalBytes - node.value.freeBytes);
      nodeCopy := nodeCopy.(totalStorage := node.value.totalBytes);
      nodes := nodes[nodeCopy.id := nodeCopy];
      err := None;
    }

    method UpdateHeartbeat(id: string, free: int, connections: int, now: int) returns (err: Option<Error>)
      modifies this
      ensures (nodes, err) == Heartbeat(old(nodes), id, free, connections, now)
      ensures old(WellKeyed(nodes)) ==> WellKeyed(nodes)
    {
      if id !in nodes {
        return Some(NodeNotFound);
      }
      nodes := nodes[id := nodes[id].(freeBytes := free, connections := connections, last := now, available := true)];
      err := None;
    }

    method Mark(id: string) returns (err: Option<Error>)
      modifies this
      ensures (nodes, err) == MarkUnavailable(old(nodes), id)
      ensures old(WellKeyed(nodes)) ==> WellKeyed(nodes)
    {
      if id !in nodes {
        return Some(NodeNotFound);
      }
      nodes := nodes[id := nodes[id].(available := false)];
      err := None;
    }

    method GetAllAvailable(order: seq<string>) returns (r: seq<Node>)
      requires Lists(order, nodes.Keys)
      ensures r == Available(nodes, order)
    {
      r := [];
      for i := 0 to |order|
        invariant r == Available(nodes, order[..i])
      {
        assert order[..i + 1][..i] == order[..i];
        if nodes[order[i]].available {
          r := r + [nodes[order[i]]];
        }
      }
      assert order[..|order|] == order;
    }

    /** HealthMonitor.sweep with nothing else running; errors other than an unknown node do not arise here. */
    method Sweep(now: int, timeout: int, order: seq<string>)
      requires WellKeyed(nodes) && Lists(order, nodes.Keys)
      modifies this
      ensures nodes == Swept(old(nodes), now, timeout)
    {
      var availableNodes := GetAllAvailable(order);
      for i := 0 to |availableNodes|
        invariant nodes == MarkSilent(old(nodes), availableNodes[..i], now, timeout)
      {
        assert availableNodes[..i + 1][..i] == availableNodes[..i];
        var node := availableNodes[i];
        if now - node.last >= timeout {
          var _ := Mark(node.id);
        }
      }
      assert availableNodes[..|availableNodes|] == availableNodes;
      SweepMarksTheSilent(old(nodes), order, now, timeout);
    }
  }
}
