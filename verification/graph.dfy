/** The in-memory traversal graph `RomGraph` of src/graph/store.rs.

    The petgraph `StableGraph` underneath is modelled by what the code
    relies on: node slots that keep their index when other nodes are
    removed, vacated slots reused most-recently-vacated first, and edges
    kept in insertion order, a node's outgoing (or incoming) edges being
    visited newest first. */
module Graph {
  import opened Wrappers
  import opened Hex
  import opened RomTypes

  datatype RomNode = RomNode(
    dbId: int,
    sha256: Hash,
    filename: Option<string>,
    title: string,
    version: Option<string>,
    romType: RomType)

  datatype DiffEdge = DiffEdge(dbId: int, diffPath: string, diffSize: int)

  datatype Edge = Edge(source: nat, target: nat, weight: DiffEdge)

  /** A step of a path: the node reached and the edge used to reach it
      (None for the first step). */
  datatype PathStep = PathStep(node: nat, edge: Option<DiffEdge>)

  datatype RomGraph = RomGraph(
    slots: seq<Option<RomNode>>,
    free: seq<nat>,
    edges: seq<Edge>,
    hashToNode: map<Hash, nat>,
    dbIdToNode: map<int, nat>)

  /** `RomGraph::new`. */
  const EmptyGraph := RomGraph([], [], [], map[], map[])

  predicate Live(g: RomGraph, i: nat) {
    i < |g.slots| && g.slots[i].Some?
  }

  function NodeAt(g: RomGraph, i: nat): RomNode
    requires Live(g, i)
  {
    g.slots[i].value
  }

  /** The structural invariant: the free list holds exactly the vacant
      slots, once each; edges join live nodes; both lookup maps point at
      live nodes carrying the key. */
  predicate Valid(g: RomGraph) {
    && (forall i :: i in g.free ==> i < |g.slots|)
    && (forall i :: 0 <= i < |g.slots| ==> (g.slots[i].None? <==> i in g.free))
    && (forall a, b :: 0 <= a < b < |g.free| ==> g.free[a] != g.free[b])
    && (forall e :: e in g.edges ==> Live(g, e.source) && Live(g, e.target))
    && (forall h :: h in g.hashToNode ==>
          Live(g, g.hashToNode[h]) && NodeAt(g, g.hashToNode[h]).sha256 == h)
    && (forall d :: d in g.dbIdToNode ==>
          Live(g, g.dbIdToNode[d]) && NodeAt(g, g.dbIdToNode[d]).dbId == d)
  }

  /** Every live node is the one its hash and its db id look up; this
      holds as long as no hash or db id was added twice. */
  ghost predicate Indexed(g: RomGraph) {
    forall i :: Live(g, i) ==>
      && NodeAt(g, i).sha256 in g.hashToNode && g.hashToNode[NodeAt(g, i).sha256] == i
      && NodeAt(g, i).dbId in g.dbIdToNode && g.dbIdToNode[NodeAt(g, i).dbId] == i
  }

  lemma EmptyGraphValid()
    ensures Valid(EmptyGraph) && Indexed(EmptyGraph)
  {
  }

  /** `add_node`: takes the most recently vacated slot, or a new one, and
      points both lookup maps at it, overwriting any previous entry for
      the same hash or db id without a check. */
  function AddNode(g: RomGraph, n: RomNode): (r: (RomGraph, nat))
    requires Valid(g)
    ensures Valid(r.0)
    ensures !Live(g, r.1) && Live(r.0, r.1) && NodeAt(r.0, r.1) == n
    ensures GetNodeByHash(r.0, n.sha256) == Some(r.1)
    ensures GetNodeByDbId(r.0, n.dbId) == Some(r.1)
    ensures forall i :: Live(g, i) ==> Live(r.0, i) && NodeAt(r.0, i) == NodeAt(g, i)
    ensures forall i :: Live(r.0, i) && i != r.1 ==> Live(g, i)
    ensures forall h :: h != n.sha256 ==> GetNodeByHash(r.0, h) == GetNodeByHash(g, h)
    ensures forall d :: d != n.dbId ==> GetNodeByDbId(r.0, d) == GetNodeByDbId(g, d)
    ensures r.0.edges == g.edges
  {
    PlacedSlots(g, n);
    PlacedValid(g, n);
    Placed(g, n)
  }

  /** The slot a new node takes: the most recently vacated, or a new one. */
  function Slot(g: RomGraph): nat {
    if |g.free| > 0 then g.free[0] else |g.slots|
  }

  /** The graph with `n` in slot `Slot(g)` and both maps pointing there. */
  function Placed(g: RomGraph, n: RomNode): (r: (RomGraph, nat))
    requires Valid(g)
  {
    assert |g.free| > 0 ==> g.free[0] in g.free;
    var idx := Slot(g);
    var slots := if |g.free| > 0 then g.slots[idx := Some(n)] else g.slots + [Some(n)];
    var free := if |g.free| > 0 then g.free[1..] else [];
    (RomGraph(slots, free, g.edges, g.hashToNode[n.sha256 := idx], g.dbIdToNode[n.dbId := idx]), idx)
  }

  /** Placing a node fills one vacant slot and leaves the others as they were. */
  lemma PlacedSlots(g: RomGraph, n: RomNode)
    requires Valid(g)
    ensures var (g', idx) := Placed(g, n);
            && !Live(g, idx) && Live(g', idx) && NodeAt(g', idx) == n
            && |g'.slots| >= |g.slots|
            && (forall i :: 0 <= i < |g'.slots| && i != idx ==> i < |g.slots| && g'.slots[i] == g.slots[i])
            && (forall i :: i in g'.free <==> i in g.free && i != idx)
  {
    if |g.free| > 0 {
      assert g.free[0] in g.free;
      var free := g.free[1..];
      forall i ensures i in free <==> i in g.free && i != g.free[0] {
        if i in g.free && i != g.free[0] {
          var k :| 0 <= k < |g.free| && g.free[k] == i;
          assert free[k - 1] == i;
        }
        if i in free {
          var k :| 0 <= k < |free| && free[k] == i;
          assert g.free[k + 1] == i;
        }
      }
    }
  }

  /** Placing a node keeps the graph valid. */
  lemma PlacedValid(g: RomGraph, n: RomNode)
    requires Valid(g)
    ensures Valid(Placed(g, n).0)
  {
    PlacedSlots(g, n);
    var (g', idx) := Placed(g, n);
    forall a, b | 0 <= a < b < |g'.free| ensures g'.free[a] != g'.free[b] {
      assert g'.free[a] == g.free[a + 1] && g'.free[b] == g.free[b + 1];
    }
  }

  /** Adding a node whose hash and db id are both new keeps every live node
      reachable through its own keys. */
  lemma AddNodeKeepsIndexed(g: RomGraph, n: RomNode)
    requires Valid(g) && Indexed(g)
    requires n.sha256 !in g.hashToNode && n.dbId !in g.dbIdToNode
    ensures Indexed(AddNode(g, n).0)
  {
    var (g', idx) := AddNode(g, n);
    forall i | Live(g', i)
      ensures NodeAt(g', i).sha256 in g'.hashToNode && g'.hashToNode[NodeAt(g', i).sha256] == i
      ensures NodeAt(g', i).dbId in g'.dbIdToNode && g'.dbIdToNode[NodeAt(g', i).dbId] == i
    {
      if i != idx {
        assert Live(g, i) && NodeAt(g', i) == NodeAt(g, i);
      }
    }
  }

  /** Adding a second node with an existing hash steals the hash lookup:
      the earlier node stays live but its hash no longer finds it. */
  lemma AddDuplicateHashShadows(g: RomGraph, n: RomNode, prior: nat)
    requires Valid(g) && Live(g, prior) && NodeAt(g, prior).sha256 == n.sha256
    ensures Live(AddNode(g, n).0, prior)
    ensures GetNodeByHash(AddNode(g, n).0, n.sha256) != Some(prior)
  {
  }

  /** `add_edge`; petgraph panics unless both endpoints exist. */
  function AddEdge(g: RomGraph, source: nat, target: nat, w: DiffEdge): (r: RomGraph)
    requires Valid(g) && Live(g, source) && Live(g, target)
    ensures Valid(r)
    ensures r.edges == g.edges + [Edge(source, target, w)]
    ensures r.slots == g.slots && r.hashToNode == g.hashToNode && r.dbIdToNode == g.dbIdToNode
  {
    g.(edges := g.edges + [Edge(source, target, w)])
  }

  /** `get_node_by_hash`. */
  function GetNodeByHash(g: RomGraph, h: Hash): (r: Option<nat>)
    ensures Valid(g) && r.Some? ==> Live(g, r.value) && NodeAt(g, r.value).sha256 == h
    ensures Indexed(g) ==> forall i: nat :: Live(g, i) && NodeAt(g, i).sha256 == h ==> r == Some(i)
  {
    if h in g.hashToNode then Some(g.hashToNode[h]) else None
  }

  /** `get_node_by_db_id`. */
  function GetNodeByDbId(g: RomGraph, d: int): (r: Option<nat>)
    ensures Valid(g) && r.Some? ==> Live(g, r.value) && NodeAt(g, r.value).dbId == d
    ensures Indexed(g) ==> forall i: nat :: Live(g, i) && NodeAt(g, i).dbId == d ==> r == Some(i)
  {
    if d in g.dbIdToNode then Some(g.dbIdToNode[d]) else None
  }

  /** `get_node`. */
  function GetNode(g: RomGraph, i: nat): (r: Option<RomNode>)
    ensures r.Some? <==> Live(g, i)
  {
    if Live(g, i) then Some(NodeAt(g, i)) else None
  }

  /** The edges of `es` leaving `c`, newest first (petgraph's order). */
  function OutFrom(es: seq<Edge>, c: nat): (r: seq<Edge>)
    ensures forall e :: e in r <==> e in es && e.source == c
    ensures |r| <= |es|
  {
    if |es| == 0 then []
    else
      var last := es[|es| - 1];
      (if last.source == c then [last] else []) + OutFrom(es[..|es| - 1], c)
  }

  /** The edges of `es` entering `c`, newest first. */
  function InTo(es: seq<Edge>, c: nat): (r: seq<Edge>)
    ensures forall e :: e in r <==> e in es && e.target == c
  {
    if |es| == 0 then []
    else
      var last := es[|es| - 1];
      (if last.target == c then [last] else []) + InTo(es[..|es| - 1], c)
  }

  /** `outgoing_edge_count`. */
  function OutgoingEdgeCount(g: RomGraph, i: nat): (n: nat)
    ensures n <= |g.edges|
    ensures n > 0 <==> exists e :: e in g.edges && e.source == i
  {
    var out := OutFrom(g.edges, i);
    assert out != [] ==> out[0] in out;
    |out|
  }

  /** Adding an edge changes the outgoing count of its source only. */
  lemma {:induction false} OutgoingCountOfAddEdge(g: RomGraph, s: nat, t: nat, w: DiffEdge, i: nat)
    requires Valid(g) && Live(g, s) && Live(g, t)
    ensures OutgoingEdgeCount(AddEdge(g, s, t, w), i)
            == OutgoingEdgeCount(g, i) + (if s == i then 1 else 0)
  {
    var es := AddEdge(g, s, t, w).edges;
    assert es[..|es| - 1] == g.edges;
  }

  /** `neighbors`: the target node and edge data of each outgoing edge. */
  function Neighbors(g: RomGraph, i: nat): (r: seq<(RomNode, DiffEdge)>)
    requires Valid(g)
    ensures |r| == OutgoingEdgeCount(g, i)
    ensures forall n, w :: (n, w) in r <==>
              exists e :: e in g.edges && e.source == i && e.weight == w
                          && Live(g, e.target) && NodeAt(g, e.target) == n
  {
    var out := OutFrom(g.edges, i);
    var r := seq(|out|, k requires 0 <= k < |out| => (NodeAt(g, out[k].target), out[k].weight));
    assert forall k :: 0 <= k < |out| ==> out[k] in out;
    forall n, w | (exists e :: e in g.edges && e.source == i && e.weight == w
                               && Live(g, e.target) && NodeAt(g, e.target) == n)
      ensures (n, w) in r
    {
      var e :| e in g.edges && e.source == i && e.weight == w && Live(g, e.target) && NodeAt(g, e.target) == n;
      var k :| 0 <= k < |out| && out[k] == e;
      assert r[k] == (n, w);
    }
    r
  }

  /** The edges of `es` touching neither endpoint `c`, order kept. */
  function Detach(es: seq<Edge>, c: nat): (r: seq<Edge>)
    ensures forall e :: e in r <==> e in es && e.source != c && e.target != c
    ensures |r| <= |es|
  {
    if |es| == 0 then []
    else (if es[0].source != c && es[0].target != c then [es[0]] else []) + Detach(es[1..], c)
  }

  /** `remove_node`: vacates the slot, drops every incident edge and the
      two map entries keyed by the removed node's hash and db id. A vacant
      index removes nothing. */
  function RemoveNode(g: RomGraph, i: nat): (r: (RomGraph, Option<RomNode>))
    requires Valid(g)
    ensures Valid(r.0)
    ensures !Live(g, i) ==> r == (g, None)
    ensures Live(g, i) ==> r.1 == Some(NodeAt(g, i))
    ensures !Live(r.0, i)
    ensures Live(g, i) ==> GetNodeByHash(r.0, NodeAt(g, i).sha256).None?
                           && GetNodeByDbId(r.0, NodeAt(g, i).dbId).None?
    ensures forall j :: j != i ==> (Live(r.0, j) <==> Live(g, j))
    ensures forall j :: j != i && Live(g, j) ==> NodeAt(r.0, j) == NodeAt(g, j)
    ensures forall e :: e in r.0.edges <==> e in g.edges && e.source != i && e.target != i
    ensures Live(g, i) ==> forall h :: h != NodeAt(g, i).sha256 ==>
              GetNodeByHash(r.0, h) == GetNodeByHash(g, h)
    ensures Live(g, i) ==> forall d :: d != NodeAt(g, i).dbId ==>
              GetNodeByDbId(r.0, d) == GetNodeByDbId(g, d)
  {
    if !Live(g, i) then (g, None)
    else
      VacatedValid(g, i);
      (Vacated(g, i), Some(NodeAt(g, i)))
  }

  /** The graph with live slot `i` vacated, pushed on the free list, its
      edges detached and its two keys unmapped. */
  function Vacated(g: RomGraph, i: nat): (r: RomGraph)
    requires Live(g, i)
    ensures r.slots == g.slots[i := None] && r.free == [i] + g.free && r.edges == Detach(g.edges, i)
    ensures r.hashToNode == g.hashToNode - {NodeAt(g, i).sha256} && r.dbIdToNode == g.dbIdToNode - {NodeAt(g, i).dbId}
  {
    var n := NodeAt(g, i);
    RomGraph(g.slots[i := None], [i] + g.free, Detach(g.edges, i),
             g.hashToNode - {n.sha256}, g.dbIdToNode - {n.dbId})
  }

  /** Vacating a live slot keeps the graph valid. */
  lemma VacatedValid(g: RomGraph, i: nat)
    requires Valid(g) && Live(g, i)
    ensures Valid(Vacated(g, i))
  {
    var g' := Vacated(g, i);
    assert forall j :: 0 <= j < |g.slots| && j != i ==> g'.slots[j] == g.slots[j];
    assert forall j :: j in g'.free <==> j == i || j in g.free;
    forall a, b | 0 <= a < b < |g'.free| ensures g'.free[a] != g'.free[b] {
      if a > 0 {
        assert g'.free[a] == g.free[a - 1];
      } else {
        assert g.free[b - 1] in g.free;
      }
      assert g'.free[b] == g.free[b - 1];
    }
  }

  /** Removing a node from an indexed graph keeps it indexed. */
  lemma RemoveNodeKeepsIndexed(g: RomGraph, i: nat)
    requires Valid(g) && Indexed(g)
    ensures Indexed(RemoveNode(g, i).0)
  {
    var g' := RemoveNode(g, i).0;
    if Live(g, i) {
      forall j | Live(g', j)
        ensures NodeAt(g', j).sha256 in g'.hashToNode && g'.hashToNode[NodeAt(g', j).sha256] == j
        ensures NodeAt(g', j).dbId in g'.dbIdToNode && g'.dbIdToNode[NodeAt(g', j).dbId] == j
      {
        assert Live(g, j) && NodeAt(g', j) == NodeAt(g, j);
        assert NodeAt(g, j).sha256 != NodeAt(g, i).sha256;
        assert NodeAt(g, j).dbId != NodeAt(g, i).dbId;
      }
    }
  }

  /** `get_node_mut` followed by setting `title` and `version`. */
  function SetTitleVersion(g: RomGraph, i: nat, title: string, version: Option<string>): (r: RomGraph)
    requires Valid(g)
    ensures Valid(r)
    ensures forall j :: Live(r, j) <==> Live(g, j)
    ensures Live(g, i) ==> NodeAt(r, i) == NodeAt(g, i).(title := title, version := version)
    ensures forall j :: j != i && Live(g, j) ==> NodeAt(r, j) == NodeAt(g, j)
    ensures r.edges == g.edges && r.hashToNode == g.hashToNode && r.dbIdToNode == g.dbIdToNode
  {
    if !Live(g, i) then g
    else
      var r := g.(slots := g.slots[i := Some(NodeAt(g, i).(title := title, version := version))]);
      assert forall j :: 0 <= j < |g.slots| && j != i ==> r.slots[j] == g.slots[j];
      r
  }

  lemma SetTitleVersionKeepsIndexed(g: RomGraph, i: nat, title: string, version: Option<string>)
    requires Valid(g) && Indexed(g)
    ensures Indexed(SetTitleVersion(g, i, title, version))
  {
    var r := SetTitleVersion(g, i, title, version);
    forall j | Live(r, j)
      ensures NodeAt(r, j).sha256 in r.hashToNode && r.hashToNode[NodeAt(r, j).sha256] == j
      ensures NodeAt(r, j).dbId in r.dbIdToNode && r.dbIdToNode[NodeAt(r, j).dbId] == j
    {
      assert NodeAt(r, j).sha256 == NodeAt(g, j).sha256 && NodeAt(r, j).dbId == NodeAt(g, j).dbId;
    }
  }

  /** The live indices from `k` on, ascending (`node_indices`). */
  function LiveFrom(g: RomGraph, k: nat): (r: seq<nat>)
    ensures forall i :: i in r <==> k <= i && Live(g, i)
    ensures forall a, b :: 0 <= a < b < |r| ==> r[a] < r[b]
    ensures forall a :: 0 <= a < |r| ==> k <= r[a]
    decreases |g.slots| - k
  {
    if k >= |g.slots| then []
    else (if Live(g, k) then [k] else []) + LiveFrom(g, k + 1)
  }

  /** The order `iter_nodes` yields nodes in: ascending index. */
  function NodeOrder(g: RomGraph): (r: seq<nat>)
    ensures forall i :: i in r <==> Live(g, i)
    ensures forall a, b :: 0 <= a < b < |r| ==> r[a] < r[b]
  {
    LiveFrom(g, 0)
  }
}
