/** Chunk placement: AllocateChunk (internal/namenode/server.go) on the nodes the registry lists. */
module Placement {
  import opened Basics
  import opened Paths
  import F = Files
  import H = Handlers
  import R = Registry

  function Addresses(nodes: seq<R.Node>): (r: seq<string>) {
    seq(|nodes|, i requires 0 <= i < |nodes| => nodes[i].address)
  }

  /** What the handler reads from the registry, for the order in which the registry's map is visited. */
  function Listed(c: H.Choice, nodes: R.Nodes, order: seq<string>): (r: H.Choice) {
    c.(available := Addresses(R.Available(nodes, order)))
  }

  /** Available nodes of the registry, no node twice. */
  ghost predicate Distinct(chosen: seq<R.Node>, nodes: R.Nodes) {
    (forall i :: 0 <= i < |chosen| ==> R.Current(chosen[i], nodes)) &&
    forall i, j :: 0 <= i < j < |chosen| ==> chosen[i].id != chosen[j].id
  }

  ghost function AvailableIds(nodes: R.Nodes): (ids: set<string>) {
    set id | id in nodes && nodes[id].available
  }

  ghost function Ids(chosen: seq<R.Node>): (ids: set<string>) {
    set i | 0 <= i < |chosen| :: chosen[i].id
  }

  lemma {:induction false} DistinctCount(chosen: seq<R.Node>, nodes: R.Nodes)
    requires Distinct(chosen, nodes)
    ensures |Ids(chosen)| == |chosen|
  {
    if chosen != [] {
      var n := |chosen| - 1;
      DistinctCount(chosen[..n], nodes);
      assert Ids(chosen) == Ids(chosen[..n]) + {chosen[n].id};
    }
  }

  /** The listing has as many nodes as are available. */
  lemma ListingLength(nodes: R.Nodes, order: seq<string>)
    requires R.WellKeyed(nodes) && Lists(order, nodes.Keys)
    ensures Distinct(R.Available(nodes, order), nodes) && |R.Available(nodes, order)| == |AvailableIds(nodes)|
  {
    var all := R.Available(nodes, order);
    R.AvailableFacts(nodes, order);
    DistinctCount(all, nodes);
    forall id | id in AvailableIds(nodes) ensures id in Ids(all) {
      var i :| 0 <= i < |all| && all[i] == nodes[id];
    }
    forall id | id in Ids(all) ensures id in AvailableIds(nodes) {
      var i :| 0 <= i < |all| && all[i].id == id;
      assert R.Current(all[i], nodes);
    }
    assert Ids(all) == AvailableIds(nodes);
  }

  /** The file gained one chunk, placed on the chosen nodes. */
  ghost predicate PlacedOn(s: F.Files, t: F.Files, id: string, chunkID: string, chosen: seq<R.Node>) {
    exists p, replicas :: p in s && s[p].fileID == id && H.OneChunkMore(s, t, p, chunkID, replicas) &&
                          |replicas| == |chosen| && forall i :: 0 <= i < |chosen| ==> replicas[i] == chosen[i].address
  }

  lemma FirstFew(all: seq<R.Node>, nodes: R.Nodes, n: nat)
    requires Distinct(all, nodes) && n <= |all|
    ensures Distinct(all[..n], nodes) && |Addresses(all)| == |all|
    ensures forall i :: 0 <= i < n ==> Addresses(all)[..n][i] == all[..n][i].address
  {
  }

  /** The replication factor a request settles on. */
  function Factor(asked: int, replFac: int): int { if asked <= 0 then replFac else asked }

  /** A request for a chunk succeeds exactly when the file exists in the caller's namespace and as many nodes are
      available as the replication factor says; the file then has one chunk more, on that many distinct available
      nodes. */
  lemma ReplicasAreDistinctNodes(s: F.Files, replFac: int, ns: string, id: string, asked: int, c: H.Choice,
                                 nodes: R.Nodes, order: seq<string>) returns (chosen: seq<R.Node>)
    requires H.StoreInv(s) && id != "" && replFac >= 1 && Lists(c.order, s.Keys) && Lists(c.again, s.Keys)
    requires R.WellKeyed(nodes) && Lists(order, nodes.Keys)
    ensures var r := H.Handle(s, replFac, Some(ns), H.AllocateReq(id, asked), Listed(c, nodes, order));
      && (r.code == H.OK <==> |AvailableIds(nodes)| >= Factor(asked, replFac) &&
                              exists p :: p in s && s[p].fileID == id && Allowed(ns, p))
      && (r.code != H.OK ==> r.files == s && r.entry.None?)
      && (r.code == H.OK ==> |chosen| == Factor(asked, replFac) && Distinct(chosen, nodes) &&
                             PlacedOn(s, r.files, id, c.id, chosen))
  {
    var all, rf := R.Available(nodes, order), Factor(asked, replFac);
    ListingLength(nodes, order);
    H.AllocateAddsOneChunk(s, ns, id, rf, Listed(c, nodes, order));
    chosen := if rf <= |all| then all[..rf] else [];
    if rf <= |all| { FirstFew(all, nodes, rf); }
  }
}
