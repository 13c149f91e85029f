/** The breadth-first searches of src/graph/store.rs: `find_path`,
    `reconstruct_path` and `connected_component`, with the reachability
    notions their contracts are stated in. */
module GraphSearch {
  import opened Wrappers
  import opened Graph

  /** Targets of the edges leaving a node of `s`. */
  ghost function Succ(g: RomGraph, s: set<nat>): set<nat> {
    set e | e in g.edges && e.source in s :: e.target
  }

  /** Every node an edge enters. */
  ghost function Targets(g: RomGraph): set<nat> {
    set e | e in g.edges :: e.target
  }

  /** The nodes reachable from `s` over at most `k` directed edges. */
  ghost function Reach(g: RomGraph, s: nat, k: nat): set<nat> {
    if k == 0 then {s} else Reach(g, s, k - 1) + Succ(g, Reach(g, s, k - 1))
  }

  /** `p` walks from `s` to `t`: it starts at `s` with no edge, ends at `t`,
      and every later step carries an edge from the previous node to its own. */
  ghost predicate IsPath(g: RomGraph, p: seq<PathStep>, s: nat, t: nat) {
    && |p| > 0 && p[0] == PathStep(s, None) && p[|p| - 1].node == t
    && forall k :: 1 <= k < |p| ==>
         p[k].edge.Some? && Edge(p[k - 1].node, p[k].node, p[k].edge.value) in g.edges
  }

  ghost predicate Reachable(g: RomGraph, s: nat, t: nat) {
    exists p :: IsPath(g, p, s, t)
  }

  lemma {:induction false} ReachMono(g: RomGraph, s: nat, j: nat, k: nat)
    requires j <= k
    ensures Reach(g, s, j) <= Reach(g, s, k)
    decreases k
  {
    if j < k {
      ReachMono(g, s, j, k - 1);
    }
  }

  lemma SuccOfEdge(g: RomGraph, S: set<nat>, e: Edge)
    requires e in g.edges && e.source in S
    ensures e.target in Succ(g, S)
  {
  }

  /** The end of a path with `n` edges is reachable within `n` steps. */
  lemma {:induction false} PathInReach(g: RomGraph, p: seq<PathStep>, s: nat, t: nat)
    requires IsPath(g, p, s, t)
    ensures t in Reach(g, s, |p| - 1)
    decreases |p|
  {
    if |p| > 1 {
      var q := p[..|p| - 1];
      assert IsPath(g, q, s, q[|q| - 1].node);
      PathInReach(g, q, s, q[|q| - 1].node);
      var e := Edge(p[|p| - 2].node, t, p[|p| - 1].edge.value);
      SuccOfEdge(g, Reach(g, s, |p| - 2), e);
    }
  }

  /** Every node within `k` edges of `s` is in `E`. */
  ghost predicate Explored(g: RomGraph, s: nat, E: set<nat>, k: nat) {
    forall v {:trigger InReach(g, s, k, v)} :: InReach(g, s, k, v) ==> v in E
  }

  ghost predicate InReach(g: RomGraph, s: nat, k: nat, v: nat) {
    v in Reach(g, s, k)
  }

  /** A set holding `s` and closed under outgoing edges holds everything
      reachable from `s`. */
  lemma {:induction false} ClosedHoldsReach(g: RomGraph, s: nat, D: set<nat>, k: nat)
    requires s in D
    requires forall e :: e in g.edges && e.source in D ==> e.target in D
    ensures Reach(g, s, k) <= D
  {
    if k > 0 {
      ClosedHoldsReach(g, s, D, k - 1);
    }
  }

  /** A node outside the discovered set `D` is farther than `k` edges when
      every node within `k - 1` edges was expanded. */
  lemma {:induction false} UndiscoveredIsFarther(g: RomGraph, s: nat, k: nat, D: set<nat>, E: set<nat>, v: nat)
    requires k > 0 ==> Explored(g, s, E, k - 1)
    requires E <= D && s in D
    requires forall e :: e in g.edges && e.source in E ==> e.target in D
    requires v !in D
    ensures v !in Reach(g, s, k)
  {
    if k > 0 {
      forall e | e in g.edges && e.source in Reach(g, s, k - 1)
        ensures e.target != v
      {
        assert InReach(g, s, k - 1, e.source);
      }
      assert !InReach(g, s, k - 1, v);
    }
  }

  /** `v` is exactly `d` edges away from `s`. */
  ghost predicate AtDistance(g: RomGraph, s: nat, v: nat, d: nat) {
    v in Reach(g, s, d) && (d > 0 ==> v !in Reach(g, s, d - 1))
  }

  /** `level` records exact distances from `s`. */
  ghost predicate Distances(g: RomGraph, s: nat, level: map<nat, nat>) {
    forall v {:trigger AtDistance(g, s, v, level[v])} :: v in level ==> AtDistance(g, s, v, level[v])
  }

  /** Each discovered node other than `s` records a parent one level
      closer and the edge from that parent. */
  ghost predicate Parents(g: RomGraph, s: nat, visited: map<nat, (nat, DiffEdge)>, level: map<nat, nat>) {
    && level.Keys == visited.Keys + {s} && s !in visited && level[s] == 0
    && forall v {:trigger visited[v]} :: v in visited ==>
         && visited[v].0 in level
         && level[v] == level[visited[v].0] + 1
         && Edge(visited[v].0, v, visited[v].1) in g.edges
  }

  /** What the search knows about every discovered node. */
  ghost predicate Discovered(g: RomGraph, s: nat, visited: map<nat, (nat, DiffEdge)>, level: map<nat, nat>) {
    Parents(g, s, visited, level) && Distances(g, s, level)
  }

  /** Every successor of an expanded node has been discovered. */
  ghost predicate Closed(g: RomGraph, level: map<nat, nat>, expanded: set<nat>) {
    && expanded <= level.Keys
    && forall e :: e in g.edges && e.source in expanded ==> e.target in level
  }

  /** Expanded nodes lie within `lo` edges, and all nodes within `lo - 1`
      edges have been expanded. */
  ghost predicate Frontier(g: RomGraph, s: nat, level: map<nat, nat>, expanded: set<nat>, lo: nat) {
    && (forall u :: u in expanded && u in level ==> level[u] <= lo)
    && (lo > 0 ==> Explored(g, s, expanded, lo - 1))
  }

  /** The queue's levels never decrease. */
  ghost predicate Sorted(queue: seq<nat>, level: map<nat, nat>) {
    && (forall v :: v in queue ==> v in level)
    && forall a, b :: 0 <= a <= b < |queue| ==> level[queue[a]] <= level[queue[b]]
  }

  /** The queue's levels lie in `lo .. lo + 1`. */
  ghost predicate Band(queue: seq<nat>, level: map<nat, nat>, lo: nat) {
    forall v :: v in queue ==> v in level && lo <= level[v] <= lo + 1
  }

  /** The loop invariant of `find_path` at the head of the `while let`. */
  ghost predicate Searching(g: RomGraph, s: nat, visited: map<nat, (nat, DiffEdge)>, queue: seq<nat>,
                            level: map<nat, nat>, expanded: set<nat>) {
    && Discovered(g, s, visited, level)
    && Closed(g, level, expanded)
    && Sorted(queue, level)
    && (forall v :: v in level ==> v in expanded || v in queue)
    && (|queue| > 0 ==> Band(queue, level, level[queue[0]]))
    && (|queue| > 0 ==> Frontier(g, s, level, expanded, level[queue[0]]))
  }

  /** The invariant of the scan over the edges of `current`. */
  ghost predicate Scanning(g: RomGraph, s: nat, visited: map<nat, (nat, DiffEdge)>, queue: seq<nat>,
                           level: map<nat, nat>, expanded: set<nat>, current: nat, lc: nat) {
    && Discovered(g, s, visited, level)
    && Closed(g, level, expanded)
    && Sorted(queue, level)
    && Band(queue, level, lc)
    && current in level && level[current] == lc
    && (forall v :: v in level ==> v in expanded || v in queue || v == current)
    && Frontier(g, s, level, expanded, lc)
  }

  lemma SearchStart(g: RomGraph, s: nat)
    ensures Searching(g, s, map[], [s], map[s := 0], {})
  {
  }

  lemma ScanStart(g: RomGraph, s: nat, visited: map<nat, (nat, DiffEdge)>, queue: seq<nat>,
                  level: map<nat, nat>, expanded: set<nat>)
    requires Searching(g, s, visited, queue, level, expanded) && |queue| > 0
    ensures Scanning(g, s, visited, queue[1..], level, expanded, queue[0], level[queue[0]])
  {
    assert forall v :: v in queue[1..] ==> v in queue;
    assert forall a, b :: 0 <= a <= b < |queue| - 1 ==> queue[1..][a] == queue[a + 1] && queue[1..][b] == queue[b + 1];
    forall v | v in level
      ensures v in expanded || v in queue[1..] || v == queue[0]
    {
      if v in queue && v != queue[0] {
        var k :| 0 <= k < |queue| && queue[k] == v;
        assert queue[1..][k - 1] == v;
      }
    }
  }

  /** A newly discovered neighbour of `current` sits exactly one level
      further out. */
  lemma {:induction false} DiscoverDistance(g: RomGraph, s: nat, level: map<nat, nat>, expanded: set<nat>,
                                            current: nat, lc: nat, e: Edge)
    requires Distances(g, s, level) && s in level && Closed(g, level, expanded)
    requires Frontier(g, s, level, expanded, lc)
    requires current in level && level[current] == lc
    requires e in g.edges && e.source == current && e.target !in level
    ensures Distances(g, s, level[e.target := lc + 1])
  {
    assert AtDistance(g, s, current, level[current]);
    UndiscoveredIsFarther(g, s, lc, level.Keys, expanded, e.target);
    SuccOfEdge(g, Reach(g, s, lc), e);
    var level' := level[e.target := lc + 1];
    forall v | v in level'
      ensures AtDistance(g, s, v, level'[v])
    {
      if v != e.target {
        assert AtDistance(g, s, v, level[v]);
      }
    }
  }

  lemma Discover(g: RomGraph, s: nat, visited: map<nat, (nat, DiffEdge)>, queue: seq<nat>,
                 level: map<nat, nat>, expanded: set<nat>, current: nat, lc: nat, e: Edge)
    requires Scanning(g, s, visited, queue, level, expanded, current, lc)
    requires e in g.edges && e.source == current && e.target !in visited && e.target != s
    ensures Scanning(g, s, visited[e.target := (current, e.weight)], queue + [e.target],
                     level[e.target := lc + 1], expanded, current, lc)
  {
    DiscoverDistance(g, s, level, expanded, current, lc, e);
    var level' := level[e.target := lc + 1];
    var queue' := queue + [e.target];
    var visited' := visited[e.target := (current, e.weight)];
    assert forall v :: v in queue' ==> v in queue || v == e.target;
    assert forall a :: 0 <= a < |queue| ==> queue'[a] == queue[a];
    assert Parents(g, s, visited', level');
    assert Discovered(g, s, visited', level');
    assert Closed(g, level', expanded);
    assert Sorted(queue', level');
    assert Band(queue', level', lc);
    assert Frontier(g, s, level', expanded, lc);
  }

  lemma ScanEnd(g: RomGraph, s: nat, visited: map<nat, (nat, DiffEdge)>, queue: seq<nat>,
                level: map<nat, nat>, expanded: set<nat>, current: nat, lc: nat)
    requires Scanning(g, s, visited, queue, level, expanded, current, lc)
    requires forall e :: e in g.edges && e.source == current ==> e.target in level
    ensures Searching(g, s, visited, queue, level, expanded + {current})
  {
    var E := expanded + {current};
    if |queue| > 0 {
      var F := NextBand(queue, level, lc);
      if F == lc + 1 {
        FrontierAdvance(g, s, lc, level, E, queue);
      } else {
        FrontierGrow(g, s, level, expanded, E, lc);
      }
    }
  }

  /** The queue's front level, lying in the band `lo .. lo + 1`. */
  lemma NextBand(queue: seq<nat>, level: map<nat, nat>, lo: nat) returns (F: nat)
    requires Sorted(queue, level) && Band(queue, level, lo) && |queue| > 0
    ensures F == level[queue[0]] && lo <= F <= lo + 1
    ensures Band(queue, level, F)
    ensures forall v :: v in queue ==> v in level && F <= level[v]
  {
    assert queue[0] in queue;
    F := level[queue[0]];
    forall v | v in queue
      ensures F <= level[v]
    {
      var k :| 0 <= k < |queue| && queue[k] == v;
    }
  }

  lemma FrontierGrow(g: RomGraph, s: nat, level: map<nat, nat>, expanded: set<nat>, E: set<nat>, lc: nat)
    requires Frontier(g, s, level, expanded, lc) && expanded <= E
    requires forall u :: u in E && u in level ==> level[u] <= lc
    ensures Frontier(g, s, level, E, lc)
  {
    if lc > 0 {
      forall v | InReach(g, s, lc - 1, v)
        ensures v in E
      {
      }
    }
  }

  /** When the front of the queue sits one level past the node just
      expanded, every node within that node's level has been expanded. */
  lemma {:induction false} FrontierAdvance(g: RomGraph, s: nat, lc: nat, level: map<nat, nat>,
                                           E: set<nat>, queue: seq<nat>)
    requires Distances(g, s, level) && s in level && Closed(g, level, E)
    requires lc > 0 ==> Explored(g, s, E, lc - 1)
    requires forall v :: v in level ==> v in E || v in queue
    requires forall v :: v in queue ==> v in level && level[v] > lc
    ensures Explored(g, s, E, lc)
  {
    forall v | InReach(g, s, lc, v)
      ensures v in E
    {
      WithinIsDiscovered(g, s, lc, level, E, v);
      assert AtDistance(g, s, v, level[v]);
      if level[v] > lc {
        ReachMono(g, s, lc, level[v] - 1);
      }
    }
  }

  lemma {:induction false} WithinIsDiscovered(g: RomGraph, s: nat, lc: nat, level: map<nat, nat>,
                                              E: set<nat>, v: nat)
    requires s in level && Closed(g, level, E)
    requires lc > 0 ==> Explored(g, s, E, lc - 1)
    requires v in Reach(g, s, lc)
    ensures v in level
  {
    if lc > 0 {
      if v in Reach(g, s, lc - 1) {
        assert InReach(g, s, lc - 1, v);
      } else {
        var e :| e in g.edges && e.source in Reach(g, s, lc - 1) && e.target == v;
        assert InReach(g, s, lc - 1, e.source);
      }
    }
  }

  /** Once the queue is empty the target, if never discovered, cannot be
      reached. */
  lemma Exhausted(g: RomGraph, s: nat, t: nat, visited: map<nat, (nat, DiffEdge)>,
                  level: map<nat, nat>, expanded: set<nat>)
    requires Searching(g, s, visited, [], level, expanded)
    requires t != s && t !in visited
    ensures !Reachable(g, s, t)
  {
    forall p | IsPath(g, p, s, t)
      ensures false
    {
      PathInReach(g, p, s, t);
      ClosedHoldsReach(g, s, level.Keys, |p| - 1);
    }
  }

  /** A path of `d + 1` edges to a node farther than `d` edges is a
      shortest one. */
  lemma ShortestByLevel(g: RomGraph, s: nat, t: nat, path: seq<PathStep>, d: nat)
    requires IsPath(g, path, s, t) && |path| == d + 2
    requires t !in Reach(g, s, d)
    ensures forall p :: IsPath(g, p, s, t) ==> |path| <= |p|
  {
    forall p | IsPath(g, p, s, t)
      ensures |path| <= |p|
    {
      PathInReach(g, p, s, t);
      if |p| < |path| {
        ReachMono(g, s, |p| - 1, d);
      }
    }
  }

  function Reverse<T>(s: seq<T>): (r: seq<T>)
    ensures |r| == |s|
    ensures forall i :: 0 <= i < |s| ==> r[i] == s[|s| - 1 - i]
  {
    seq(|s|, i requires 0 <= i < |s| => s[|s| - 1 - i])
  }

  /** `rev` lists, newest first, steps walked backwards from `rev[0]`
      towards `back`: each step carries the edge from the node after it
      (or from `back`, for the last one) to its own node. */
  ghost predicate BackChain(g: RomGraph, rev: seq<PathStep>, back: nat) {
    forall m {:trigger rev[m]} :: 0 <= m < |rev| ==>
      rev[m].edge.Some? &&
      Edge(if m + 1 < |rev| then rev[m + 1].node else back, rev[m].node, rev[m].edge.value) in g.edges
  }

  /** Reversing a back chain that reached `source` yields a path. */
  lemma ReverseBackChain(g: RomGraph, chain: seq<PathStep>, source: nat, target: nat)
    requires BackChain(g, chain, source)
    requires |chain| == 0 ==> source == target
    requires |chain| > 0 ==> chain[0].node == target
    ensures IsPath(g, Reverse(chain + [PathStep(source, None)]), source, target)
  {
    var rev := chain + [PathStep(source, None)];
    var path := Reverse(rev);
    forall k | 1 <= k < |path|
      ensures path[k].edge.Some? && Edge(path[k - 1].node, path[k].node, path[k].edge.value) in g.edges
    {
      var m := |rev| - 1 - k;
      assert path[k] == chain[m] && path[k - 1] == rev[m + 1];
      assert Edge(if m + 1 < |chain| then chain[m + 1].node else source,
                  chain[m].node, chain[m].edge.value) in g.edges;
      assert rev[m + 1].node == if m + 1 < |chain| then chain[m + 1].node else source;
    }
  }

  /** `reconstruct_path`: follows the parent links back from `target`,
      then reverses. */
  method ReconstructPath(g: RomGraph, source: nat, target: nat,
                         visited: map<nat, (nat, DiffEdge)>, ghost level: map<nat, nat>)
    returns (path: seq<PathStep>)
    requires Parents(g, source, visited, level) && target in level
    ensures IsPath(g, path, source, target)
    ensures |path| == level[target] + 1
  {
    var rev: seq<PathStep> := [];
    var current := target;
    while current != source
      invariant current in level
      invariant |rev| == level[target] - level[current]
      invariant |rev| == 0 ==> current == target
      invariant |rev| > 0 ==> rev[0].node == target
      invariant BackChain(g, rev, current)
      decreases level[current]
    {
      var (prev, edge) := visited[current];
      ghost var rev0 := rev;
      rev := rev + [PathStep(current, Some(edge))];
      assert forall m :: 0 <= m < |rev0| ==> rev[m] == rev0[m];
      current := prev;
    }
    ReverseBackChain(g, rev, source, target);
    rev := rev + [PathStep(source, None)];
    path := Reverse(rev);
  }

  /** The `for` loop of `find_path` over the edges of `current`, newest
      first: each undiscovered neighbour gets `current` as its parent and
      joins the queue; the scan stops early when the target is discovered. */
  method ScanEdges(g: RomGraph, source: nat, target: nat, current: nat,
                   visited: map<nat, (nat, DiffEdge)>, queue: seq<nat>,
                   ghost level: map<nat, nat>, ghost expanded: set<nat>, ghost lc: nat)
    returns (visited': map<nat, (nat, DiffEdge)>, queue': seq<nat>, ghost level': map<nat, nat>, found: bool)
    requires Scanning(g, source, visited, queue, level, expanded, current, lc)
    requires target !in visited && target != source
    ensures Parents(g, source, visited', level')
    ensures found ==> target in level' && level'[target] == lc + 1 && target !in Reach(g, source, lc)
    ensures !found ==> Scanning(g, source, visited', queue', level', expanded, current, lc)
    ensures !found ==> target !in visited'
    ensures !found ==> forall e :: e in g.edges && e.source == current ==> e.target in level'
    ensures visited.Keys <= visited'.Keys
    ensures visited'.Keys <= visited.Keys + Targets(g)
    ensures visited'.Keys == visited.Keys ==> queue' == queue
  {
    visited', queue', level' := visited, queue, level;
    var out := OutFrom(g.edges, current);
    var j := 0;
    while j < |out|
      invariant 0 <= j <= |out|
      invariant Scanning(g, source, visited', queue', level', expanded, current, lc)
      invariant target !in visited'
      invariant visited.Keys <= visited'.Keys
      invariant visited'.Keys <= visited.Keys + Targets(g)
      invariant visited'.Keys == visited.Keys ==> queue' == queue
      invariant forall k :: 0 <= k < j ==> out[k].target in level'
    {
      var e := out[j];
      var neighbor := e.target;
      assert e in out;
      if neighbor !in visited' && neighbor != source {
        Discover(g, source, visited', queue', level', expanded, current, lc, e);
        assert neighbor in Targets(g);
        visited' := visited'[neighbor := (current, e.weight)];
        level' := level'[neighbor := lc + 1];
        if neighbor == target {
          assert AtDistance(g, source, target, level'[target]);
          return visited', queue', level', true;
        }
        queue' := queue' + [neighbor];
      }
      j := j + 1;
    }
    forall e | e in g.edges && e.source == current
      ensures e.target in level'
    {
      assert e in out;
      var k :| 0 <= k < |out| && out[k] == e;
    }
    found := false;
  }

  lemma Shrinks(all: set<nat>, a: set<nat>, b: set<nat>)
    requires a <= b <= all
    ensures a != b ==> all - b < all - a
  {
    if a != b {
      var v :| v in b && v !in a;
      assert v in all - a && v !in all - b;
    }
  }

  /** `find_path`: breadth-first search along outgoing edges, nodes
      visited in queue order and each node's edges newest first; the
      search stops as soon as the target is discovered. */
  method FindPath(g: RomGraph, source: nat, target: nat) returns (r: Option<seq<PathStep>>)
    ensures source == target ==> r == Some([PathStep(source, None)])
    ensures r.Some? ==> IsPath(g, r.value, source, target)
    ensures r.Some? ==> forall p :: IsPath(g, p, source, target) ==> |r.value| <= |p|
    ensures r.None? <==> !Reachable(g, source, target)
  {
    if source == target {
      assert IsPath(g, [PathStep(source, None)], source, target);
      return Some([PathStep(source, None)]);
    }
    var visited: map<nat, (nat, DiffEdge)> := map[];
    var queue: seq<nat> := [source];
    ghost var level: map<nat, nat> := map[source := 0];
    ghost var expanded: set<nat> := {};
    ghost var targets := Targets(g);
    SearchStart(g, source);
    while |queue| > 0
      invariant Searching(g, source, visited, queue, level, expanded)
      invariant target !in visited && visited.Keys <= targets
      decreases targets - visited.Keys, |queue|
    {
      ScanStart(g, source, visited, queue, level, expanded);
      var current := queue[0];
      ghost var lc := level[current];
      var found;
      ghost var visited0 := visited;
      visited, queue, level, found := ScanEdges(g, source, target, current, visited, queue[1..], level, expanded, lc);
      assert visited.Keys <= targets;
      if found {
        var path := ReconstructPath(g, source, target, visited, level);
        ShortestByLevel(g, source, target, path, lc);
        return Some(path);
      }
      Shrinks(targets, visited0.Keys, visited.Keys);
      ScanEnd(g, source, visited, queue, level, expanded, current, lc);
      expanded := expanded + {current};
    }
    Exhausted(g, source, target, visited, level, expanded);
    return None;
  }

  /** Nodes one edge away from a node of `s`, in either direction. */
  ghost function Around(g: RomGraph, s: set<nat>): set<nat> {
    (set e | e in g.edges && e.source in s :: e.target)
    + (set e | e in g.edges && e.target in s :: e.source)
  }

  /** The nodes within `k` edges of `s` when direction is ignored. */
  ghost function UReach(g: RomGraph, s: nat, k: nat): set<nat> {
    if k == 0 then {s} else UReach(g, s, k - 1) + Around(g, UReach(g, s, k - 1))
  }

  ghost predicate Connected(g: RomGraph, s: nat, v: nat) {
    exists k :: v in UReach(g, s, k)
  }

  lemma {:induction false} UClosedHoldsUReach(g: RomGraph, s: nat, D: set<nat>, k: nat)
    requires s in D
    requires forall e :: e in g.edges && e.source in D ==> e.target in D
    requires forall e :: e in g.edges && e.target in D ==> e.source in D
    ensures UReach(g, s, k) <= D
  {
    if k > 0 {
      UClosedHoldsUReach(g, s, D, k - 1);
    }
  }

  /** `v` is within `d` undirected edges of `s`. */
  ghost predicate Within(g: RomGraph, s: nat, v: nat, d: nat) {
    v in UReach(g, s, d)
  }

  /** Every node in `dist` is within its recorded number of undirected
      edges of `s`. */
  ghost predicate Near(g: RomGraph, s: nat, dist: map<nat, nat>) {
    forall v {:trigger Within(g, s, v, dist[v])} :: v in dist ==> Within(g, s, v, dist[v])
  }

  /** The neighbour an edge leads to when followed from its source
      (`outgoing`) or from its target. */
  function Across(e: Edge, outgoing: bool): nat {
    if outgoing then e.target else e.source
  }

  /** Every node an edge touches. */
  ghost function Endpoints(g: RomGraph): set<nat> {
    (set e | e in g.edges :: e.target) + (set e | e in g.edges :: e.source)
  }

  /** A node one edge from a recorded node is within one more edge. */
  lemma NearExtend(g: RomGraph, start: nat, dist: map<nat, nat>, current: nat, e: Edge, outgoing: bool)
    requires Near(g, start, dist) && current in dist
    requires e in g.edges && (if outgoing then e.source else e.target) == current
    ensures Near(g, start, dist[Across(e, outgoing) := dist[current] + 1])
  {
    var n := Across(e, outgoing);
    var d := dist[n := dist[current] + 1];
    assert Within(g, start, current, dist[current]);
    assert n in Around(g, UReach(g, start, dist[current]));
    forall v | v in d
      ensures Within(g, start, v, d[v])
    {
      if v != n {
        assert Within(g, start, v, dist[v]);
      }
    }
  }

  /** One `for` loop of `connected_component`: every neighbour across the
      edges `es` of `current` not yet visited is marked and queued. */
  method VisitAcross(g: RomGraph, start: nat, current: nat, es: seq<Edge>, outgoing: bool,
                     visited: set<nat>, queue: seq<nat>, ghost dist: map<nat, nat>)
    returns (visited': set<nat>, queue': seq<nat>, ghost dist': map<nat, nat>)
    requires forall e :: e in es ==> e in g.edges && (if outgoing then e.source else e.target) == current
    requires dist.Keys == visited && current in visited && Near(g, start, dist)
    requires forall v :: v in queue ==> v in visited
    ensures dist'.Keys == visited' && visited <= visited' && Near(g, start, dist')
    ensures forall v :: v in queue' ==> v in visited'
    ensures forall v :: v in visited' ==> v in visited || v in queue'
    ensures forall v :: v in queue ==> v in queue'
    ensures forall e :: e in es ==> Across(e, outgoing) in visited'
    ensures visited' <= visited + Endpoints(g)
    ensures visited' == visited ==> queue' == queue
  {
    visited', queue', dist' := visited, queue, dist;
    var j := 0;
    while j < |es|
      invariant 0 <= j <= |es|
      invariant dist'.Keys == visited' && visited <= visited' && Near(g, start, dist')
      invariant forall v :: v in queue' ==> v in visited'
      invariant forall v :: v in visited' ==> v in visited || v in queue'
      invariant forall v :: v in queue ==> v in queue'
      invariant forall k :: 0 <= k < j ==> Across(es[k], outgoing) in visited'
      invariant visited' <= visited + Endpoints(g)
      invariant visited' == visited ==> queue' == queue
    {
      var e := es[j];
      assert e in es;
      var neighbor := if outgoing then e.target else e.source;
      if neighbor !in visited' {
        NearExtend(g, start, dist', current, e, outgoing);
        assert neighbor in Endpoints(g);
        visited' := visited' + {neighbor};
        dist' := dist'[neighbor := dist'[current] + 1];
        queue' := queue' + [neighbor];
      }
      j := j + 1;
    }
  }

  /** `connected_component`: breadth-first search along outgoing, then
      incoming edges of each node. */
  method ConnectedComponent(g: RomGraph, start: nat) returns (comp: set<nat>)
    ensures start in comp
    ensures forall e :: e in g.edges && e.source in comp ==> e.target in comp
    ensures forall e :: e in g.edges && e.target in comp ==> e.source in comp
    ensures forall v :: v in comp <==> Connected(g, start, v)
  {
    var visited: set<nat> := {start};
    var queue: seq<nat> := [start];
    ghost var dist: map<nat, nat> := map[start := 0];
    ghost var expanded: set<nat> := {};
    ghost var ends := Endpoints(g) + {start};
    while |queue| > 0
      invariant dist.Keys == visited && start in visited && visited <= ends
      invariant Near(g, start, dist)
      invariant forall v :: v in queue ==> v in visited
      invariant forall v :: v in visited ==> v in expanded || v in queue
      invariant expanded <= visited
      invariant forall e :: e in g.edges && e.source in expanded ==> e.target in visited
      invariant forall e :: e in g.edges && e.target in expanded ==> e.source in visited
      decreases ends - visited, |queue|
    {
      var current := queue[0];
      assert current in queue;
      ghost var visited0 := visited;
      var rest := queue[1..];
      forall v | v in visited
        ensures v in expanded || v in rest || v == current
      {
        if v in queue && v != current {
          var k :| 0 <= k < |queue| && queue[k] == v;
          assert rest[k - 1] == v;
        }
      }
      assert forall v :: v in rest ==> v in queue;
      var out := OutFrom(g.edges, current);
      var inc := InTo(g.edges, current);
      visited, queue, dist := VisitAcross(g, start, current, out, true, visited, rest, dist);
      ghost var visited1 := visited;
      visited, queue, dist := VisitAcross(g, start, current, inc, false, visited, queue, dist);
      forall e | e in g.edges && e.source == current
        ensures e.target in visited
      {
        assert e in out;
        assert Across(e, true) in visited1;
      }
      forall e | e in g.edges && e.target == current
        ensures e.source in visited
      {
        assert e in inc;
        assert Across(e, false) in visited;
      }
      assert visited <= ends;
      Shrinks(ends, visited0, visited);
      expanded := expanded + {current};
    }
    forall v | Connected(g, start, v)
      ensures v in visited
    {
      var k :| v in UReach(g, start, k);
      UClosedHoldsUReach(g, start, visited, k);
    }
    forall v | v in visited
      ensures Connected(g, start, v)
    {
      assert Within(g, start, v, dist[v]);
    }
    return visited;
  }
}
