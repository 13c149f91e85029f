/** The reading operations of `StorageManager` (src/storage/manager.rs):
    `find_node_by_hash_prefix`, `find_path`, `build_rom` and `link_count`.
    bsdiff's patch application is a parameter. */
module ManagerQueries {
  import opened Wrappers
  import opened Ascii
  import opened Hex
  import opened Errors
  import opened RomTypes
  import opened RomHash
  import opened Seqs
  import opened StorageManager
  import opened ManagerUpdates
  import G = Graph
  import GS = GraphSearch
  import R = Repository

  // ----- find_node_by_hash_prefix -----

  /** Node `i` is live and its hex hash starts with the lower-cased prefix. */
  function PrefixMatch(g: G.RomGraph, prefix: string): nat -> bool {
    (i: nat) => G.Live(g, i) && StartsWith(FormatHash(G.NodeAt(g, i).sha256), ToLower(prefix))
  }

  /** The index `find_node_by_hash_prefix` stops at: the first node, in
      index order, whose hex hash starts with the lower-cased prefix. Several
      matches are not an error. */
  function FindPrefixIndex(g: G.RomGraph, prefix: string): (r: Option<nat>)
    ensures r.Some? ==> PrefixMatch(g, prefix)(r.value)
    ensures r.Some? ==> forall j: nat :: j < r.value && PrefixMatch(g, prefix)(j) ==> false
    ensures r.None? <==> forall i: nat :: !PrefixMatch(g, prefix)(i)
  {
    var order := G.NodeOrder(g);
    var r := Find(order, PrefixMatch(g, prefix));
    if r.Some? then
      FirstInOrder(g, prefix, r.value);
      r
    else
      assert forall i: nat :: PrefixMatch(g, prefix)(i) ==> i in order;
      r
  }

  /** No live node before the one `Find` picks in index order matches. */
  lemma FirstInOrder(g: G.RomGraph, prefix: string, i: nat)
    requires Find(G.NodeOrder(g), PrefixMatch(g, prefix)) == Some(i)
    ensures forall j: nat :: j < i && PrefixMatch(g, prefix)(j) ==> false
  {
    var order := G.NodeOrder(g);
    var p := PrefixMatch(g, prefix);
    forall j: nat | j < i && p(j) ensures false {
      var pj :| 0 <= pj < |order| && order[pj] == j;
      FindIsFirst(order, p, pj);
    }
  }

  /** `find_node_by_hash_prefix`. */
  function FindNodeByHashPrefix(g: G.RomGraph, prefix: string): (r: Option<G.RomNode>)
    ensures r.Some? <==> FindPrefixIndex(g, prefix).Some?
    ensures r.Some? ==> r.value == G.NodeAt(g, FindPrefixIndex(g, prefix).value)
  {
    match FindPrefixIndex(g, prefix)
    case None => None
    case Some(i) => Some(G.NodeAt(g, i))
  }

  /** A prefix with a character that is not a hex digit once lowercased
      finds nothing: hex hashes hold only hex digits. Every non-ASCII
      character is such a character, in the model and under Rust's
      `to_lowercase` alike, since none lowercases to a text that starts
      with a hex digit. */
  lemma NonHexPrefixFindsNothing(g: G.RomGraph, prefix: string, k: nat)
    requires k < |prefix| && !IsHexDigit(LowerChar(prefix[k]))
    ensures FindNodeByHashPrefix(g, prefix) == None
  {
    forall i: nat | G.Live(g, i) ensures !PrefixMatch(g, prefix)(i) {
      var hex := FormatHash(G.NodeAt(g, i).sha256);
      if |prefix| <= |hex| {
        assert hex[..|prefix|][k] == hex[k];
      }
    }
  }

  /** The lookup ignores the letter case of the prefix. */
  lemma PrefixCaseInsensitive(g: G.RomGraph, prefix: string)
    ensures FindNodeByHashPrefix(g, ToUpper(prefix)) == FindNodeByHashPrefix(g, prefix)
  {
    var u := ToUpper(prefix);
    assert ToLower(u) == ToLower(prefix) by {
      forall k | 0 <= k < |prefix| ensures ToLower(u)[k] == ToLower(prefix)[k] {
        var c := prefix[k];
        if IsLower(c) {
          assert UpperChar(c) as int + 32 == c as int;
        }
      }
    }
    assert PrefixMatch(g, u) == PrefixMatch(g, prefix);
  }

  /** A full hash, in either case, finds the node of that hash when the
      graph holds it. */
  lemma FullHashFindsNode(g: G.RomGraph, h: Hash)
    requires G.Valid(g) && G.Indexed(g) && G.GetNodeByHash(g, h).Some?
    ensures FindNodeByHashPrefix(g, FormatHash(h)) == Some(G.NodeAt(g, G.GetNodeByHash(g, h).value))
  {
    var text := FormatHash(h);
    assert ToLower(text) == text;
    var i := G.GetNodeByHash(g, h).value;
    assert PrefixMatch(g, text)(i) by {
      assert FormatHash(G.NodeAt(g, i).sha256)[..64] == text;
    }
    var j := FindPrefixIndex(g, text).value;
    var hj := G.NodeAt(g, j).sha256;
    assert FormatHash(hj)[..64] == text;
    FormatHashInjective(hj, h);
  }

  // ----- find_path -----

  /** `StorageManager::find_path`: both hashes are looked up in the graph,
      then the breadth-first search runs between their nodes. */
  method FindPath(g: G.RomGraph, source: Hash, target: Hash) returns (r: Option<seq<G.PathStep>>)
    ensures G.GetNodeByHash(g, source).None? || G.GetNodeByHash(g, target).None? ==> r.None?
    ensures G.GetNodeByHash(g, source).Some? && G.GetNodeByHash(g, target).Some? ==>
              var s, t := G.GetNodeByHash(g, source).value, G.GetNodeByHash(g, target).value;
              && (r.None? <==> !GS.Reachable(g, s, t))
              && (r.Some? ==> GS.IsPath(g, r.value, s, t))
              && (r.Some? ==> forall p :: GS.IsPath(g, p, s, t) ==> |r.value| <= |p|)
              && (source == target ==> r == Some([G.PathStep(s, None)]))
  {
    var s := G.GetNodeByHash(g, source);
    var t := G.GetNodeByHash(g, target);
    if s.None? || t.None? {
      return None;
    }
    r := GS.FindPath(g, s.value, t.value);
  }

  // ----- build_rom -----

  /** bsdiff's `patch(old, patch)`: the new bytes, or None when the patch
      does not apply. */
  type Patcher = (seq<Byte>, seq<Byte>) -> Option<seq<Byte>>

  /** What `build_rom` returns. */
  datatype BuildResult = BuildResult(bytes: seq<Byte>, targetRow: R.NodeRow, steps: nat)

  /** `apply_diff` for one path step: open the step's patch file (a missing
      one is NotFound) and apply it. A step without an edge changes
      nothing. */
  function ApplyStep(cur: seq<Byte>, diffs: Files, patch: Patcher, step: G.PathStep): (r: Outcome<seq<Byte>>)
    ensures step.edge.None? ==> r == Ok(cur)
    ensures step.edge.Some? && step.edge.value.diffPath !in diffs ==> r == Err(Io(NotFound))
    ensures step.edge.Some? && step.edge.value.diffPath in diffs ==>
              var out := patch(cur, diffs[step.edge.value.diffPath]);
              (r.Ok? <==> out.Some?) && (r.Ok? ==> r.value == out.value) && (r.Err? ==> r.error == DiffApplication)
  {
    match step.edge
    case None => Ok(cur)
    case Some(w) =>
      if w.diffPath !in diffs then Err(Io(NotFound))
      else match patch(cur, diffs[w.diffPath])
        case None => Err(DiffApplication)
        case Some(next) => Ok(next)
  }

  /** The steps applied in order, stopping at the first failure. */
  function ApplyChain(cur: seq<Byte>, diffs: Files, patch: Patcher, steps: seq<G.PathStep>): (r: Outcome<seq<Byte>>)
    decreases |steps|
  {
    if |steps| == 0 then Ok(cur)
    else match ApplyStep(cur, diffs, patch, steps[0])
      case Err(e) => Err(e)
      case Ok(next) => ApplyChain(next, diffs, patch, steps[1..])
  }

  /** Applying two stretches of a path one after the other is applying the
      whole stretch. */
  lemma {:induction false} ApplyChainAppend(cur: seq<Byte>, diffs: Files, patch: Patcher,
                                            a: seq<G.PathStep>, b: seq<G.PathStep>)
    ensures ApplyChain(cur, diffs, patch, a + b)
            == (match ApplyChain(cur, diffs, patch, a)
                case Err(e) => Err(e)
                case Ok(mid) => ApplyChain(mid, diffs, patch, b))
    decreases |a|
  {
    if |a| > 0 {
      assert (a + b)[0] == a[0] && (a + b)[1..] == a[1..] + b;
      match ApplyStep(cur, diffs, patch, a[0])
      case Err(e) =>
      case Ok(next) => ApplyChainAppend(next, diffs, patch, a[1..], b);
    } else {
      assert a + b == b;
    }
  }

  /** Steps that carry no edge leave the bytes alone. */
  lemma {:induction false} ApplyChainNoEdges(cur: seq<Byte>, diffs: Files, patch: Patcher, steps: seq<G.PathStep>)
    requires forall k :: 0 <= k < |steps| ==> steps[k].edge.None?
    ensures ApplyChain(cur, diffs, patch, steps) == Ok(cur)
    decreases |steps|
  {
    if |steps| > 0 {
      ApplyChainNoEdges(cur, diffs, patch, steps[1..]);
    }
  }

  /** Folds the diffs of `steps` over `bytes`, as the loop of `build_rom`
      does, stopping at the first failure. */
  method ApplyPath(bytes: seq<Byte>, diffs: Files, patch: Patcher, steps: seq<G.PathStep>) returns (r: Outcome<seq<Byte>>)
    ensures r == ApplyChain(bytes, diffs, patch, steps)
  {
    var cur := bytes;
    var k := 0;
    while k < |steps|
      invariant 0 <= k <= |steps|
      invariant ApplyChain(bytes, diffs, patch, steps) == ApplyChain(cur, diffs, patch, steps[k..])
    {
      assert steps[k..][0] == steps[k] && steps[k..][1..] == steps[k + 1..];
      var next := ApplyStep(cur, diffs, patch, steps[k]);
      if next.Err? {
        return Err(next.error);
      }
      cur := next.value;
      k := k + 1;
    }
    assert steps[k..] == [];
    return Ok(cur);
  }

  /** `build_rom`: hash the source file, which the graph must hold; find the
      shortest path to the target; fold the path's diffs over the source's
      payload; read the target's row. The result's hash is not checked. */
  method BuildRom(s: Storage, sha: Digest, patch: Patcher, sourcePath: RomPath, sourceFile: Option<seq<Byte>>,
                  target: Hash) returns (r: Outcome<BuildResult>, ghost path: seq<G.PathStep>)
    requires G.Valid(s.graph)
    ensures HashRomFile(sha, sourcePath, sourceFile).Err? ==> r == Err(HashRomFile(sha, sourcePath, sourceFile).error)
    ensures HashRomFile(sha, sourcePath, sourceFile).Ok? ==>
              var source := HashRomFile(sha, sourcePath, sourceFile).value.sha256;
              && (G.GetNodeByHash(s.graph, source).None? ==> r == Err(RomNotFound(FormatHash(source))))
              && (G.GetNodeByHash(s.graph, source).Some? && G.GetNodeByHash(s.graph, target).None? ==>
                    r == Err(NoPath(FormatHash(source), FormatHash(target))))
              && (G.GetNodeByHash(s.graph, source).Some? && G.GetNodeByHash(s.graph, target).Some? ==>
                    var si, ti := G.GetNodeByHash(s.graph, source).value, G.GetNodeByHash(s.graph, target).value;
                    && (!GS.Reachable(s.graph, si, ti) ==> r == Err(NoPath(FormatHash(source), FormatHash(target))))
                    && (GS.Reachable(s.graph, si, ti) ==>
                          && GS.IsPath(s.graph, path, si, ti)
                          && (forall p :: GS.IsPath(s.graph, p, si, ti) ==> |path| <= |p|)
                          && var built := ApplyChain(ReadRomBytes(sourcePath, sourceFile).value, s.diffs, patch, path[1..]);
                             && (built.Err? ==> r == Err(built.error))
                             && (built.Ok? && !R.HasHash(s.file.db, target) ==> r == Err(RomNotFound(FormatHash(target))))
                             && (built.Ok? && R.HasHash(s.file.db, target) ==>
                                   r == Ok(BuildResult(built.value, R.GetNodeByHash(s.file.db, target).value, |path| - 1)))))
    ensures r.Ok? ==> r.value.targetRow.sha256 == target
  {
    path := [];
    var meta := HashRomFile(sha, sourcePath, sourceFile);
    if meta.Err? {
      return Err(meta.error), path;
    }
    var source := meta.value.sha256;
    if G.GetNodeByHash(s.graph, source).None? {
      return Err(RomNotFound(FormatHash(source))), path;
    }
    var found := FindPath(s.graph, source, target);
    if found.None? {
      return Err(NoPath(FormatHash(source), FormatHash(target))), path;
    }
    var steps := found.value;
    path := steps;
    HashCoversReadBytes(sha, sourcePath, sourceFile);
    var bytes := ReadRomBytes(sourcePath, sourceFile).value;
    var built := ApplyPath(bytes, s.diffs, patch, steps[1..]);
    if built.Err? {
      return Err(built.error), path;
    }
    var row := R.GetNodeByHash(s.file.db, target);
    if row.None? {
      return Err(RomNotFound(FormatHash(target))), path;
    }
    r := Ok(BuildResult(built.value, row.value, |steps| - 1));
  }

  /** A build from a ROM to itself takes no step and yields the source's
      payload unchanged. */
  lemma BuildToSelf(s: Storage, sha: Digest, patch: Patcher, sourcePath: RomPath, sourceFile: Option<seq<Byte>>)
    requires G.Valid(s.graph)
    requires HashRomFile(sha, sourcePath, sourceFile).Ok?
    ensures var h := HashRomFile(sha, sourcePath, sourceFile).value.sha256;
            G.GetNodeByHash(s.graph, h).Some? ==>
              && GS.Reachable(s.graph, G.GetNodeByHash(s.graph, h).value, G.GetNodeByHash(s.graph, h).value)
              && forall p :: (GS.IsPath(s.graph, p, G.GetNodeByHash(s.graph, h).value, G.GetNodeByHash(s.graph, h).value)
                              && |p| == 1) ==>
                   ApplyChain(ReadRomBytes(sourcePath, sourceFile).value, s.diffs, patch, p[1..])
                   == ReadRomBytes(sourcePath, sourceFile)
  {
    var h := HashRomFile(sha, sourcePath, sourceFile).value.sha256;
    HashCoversReadBytes(sha, sourcePath, sourceFile);
    if G.GetNodeByHash(s.graph, h).Some? {
      var i := G.GetNodeByHash(s.graph, h).value;
      assert GS.IsPath(s.graph, [G.PathStep(i, None)], i, i);
    }
  }

  // ----- link_count -----

  /** `link_count`: the outgoing edges of the hash's node, 0 for an
      unknown hash. */
  function LinkCount(g: G.RomGraph, h: Hash): (n: nat)
    requires G.Valid(g)
    ensures G.GetNodeByHash(g, h).None? ==> n == 0
    ensures G.GetNodeByHash(g, h).Some? ==>
              (n > 0 <==> exists e :: e in g.edges && e.source == G.GetNodeByHash(g, h).value)
    ensures n <= |g.edges|
  {
    match G.GetNodeByHash(g, h)
    case None => 0
    case Some(i) => G.OutgoingEdgeCount(g, i)
  }

  /** After a successful link each side counts one more link. */
  lemma LinkCountAfterLink(s: Storage, sha: Digest, diff: DiffMaker, pathA: RomPath, fileA: Option<seq<Byte>>,
                           pathB: RomPath, fileB: Option<seq<Byte>>)
    requires Consistent(s)
    requires BothStored(s.file.db, sha, pathA, fileA, pathB, fileB)
    requires LinkNodes(s, sha, diff, pathA, fileA, pathB, fileB).1.Ok?
    ensures var inp := ReadLinkInputs(sha, pathA, fileA, pathB, fileB).value;
            var g' := LinkNodes(s, sha, diff, pathA, fileA, pathB, fileB).0.graph;
            && G.Valid(g')
            && LinkCount(g', inp.hashA) == LinkCount(s.graph, inp.hashA) + 1
            && LinkCount(g', inp.hashB) == LinkCount(s.graph, inp.hashB) + 1
  {
    var inp := ReadLinkInputs(sha, pathA, fileA, pathB, fileB).value;
    var db, g := s.file.db, s.graph;
    var (a, b) := LinkIds(db, inp);
    SyncedHash(db, g, inp.hashA);
    SyncedHash(db, g, inp.hashB);
    var ab, ba := DiffName(inp.hashA, inp.hashB), DiffName(inp.hashB, inp.hashA);
    var pab, pba := diff(inp.bytesA, inp.bytesB), diff(inp.bytesB, inp.bytesA);
    assert LinkNodes(s, sha, diff, pathA, fileA, pathB, fileB) == LinkWrite(s, diff, inp, a, b);
    LinkCountGraph(g, inp.hashA, inp.hashB, a, b, LinkWeight(ab, pab), LinkWeight(ba, pba));
  }

  /** The two edges of a link between distinct stored rows add one
      outgoing edge to each side's node. */
  lemma LinkCountGraph(g: G.RomGraph, ha: Hash, hb: Hash, a: int, b: int, wab: G.DiffEdge, wba: G.DiffEdge)
    requires G.Valid(g) && a != b
    requires G.GetNodeByHash(g, ha).Some? && G.GetNodeByHash(g, ha) == G.GetNodeByDbId(g, a)
    requires G.GetNodeByHash(g, hb).Some? && G.GetNodeByHash(g, hb) == G.GetNodeByDbId(g, b)
    ensures var g' := LinkGraph(g, a, b, wab, wba);
            && LinkCount(g', ha) == LinkCount(g, ha) + 1
            && LinkCount(g', hb) == LinkCount(g, hb) + 1
  {
    var ia, ib := g.dbIdToNode[a], g.dbIdToNode[b];
    var g1 := G.AddEdge(g, ia, ib, wab);
    assert LinkGraph(g, a, b, wab, wba) == G.AddEdge(g1, ib, ia, wba);
    G.OutgoingCountOfAddEdge(g, ia, ib, wab, ia);
    G.OutgoingCountOfAddEdge(g, ia, ib, wab, ib);
    G.OutgoingCountOfAddEdge(g1, ib, ia, wba, ia);
    G.OutgoingCountOfAddEdge(g1, ib, ia, wba, ib);
  }
}
