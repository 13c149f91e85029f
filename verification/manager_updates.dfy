/** The writing operations of `StorageManager` (src/storage/manager.rs):
    `add_node`, `link_nodes`, `remove_node` and `update_node_metadata`.
    Each returns the storage it leaves behind with its result. None runs
    in a transaction, so a failure part-way keeps the writes made before
    it. Reading a ROM file is its bytes (None when it cannot be read);
    SHA-256 and bsdiff's patch creation are parameters. */
module ManagerUpdates {
  import opened Wrappers
  import opened Hex
  import opened Errors
  import opened RomTypes
  import opened RomHash
  import opened Seqs
  import opened StorageManager
  import G = Graph
  import R = Repository

  /** bsdiff's `diff(old, new)`: the patch turning `old` into `new`. */
  type DiffMaker = (seq<Byte>, seq<Byte>) -> seq<Byte>

  // ----- add_node -----

  /** `add_node`: hash the file, insert the row, then add the graph node.
      A failure changes nothing. */
  function AddNode(s: Storage, sha: Digest, path: RomPath, file: Option<seq<Byte>>, nm: R.NodeMetadata)
    : (r: (Storage, Outcome<RomMetadata>))
    requires R.Valid(s.file.db) && G.Valid(s.graph)
    ensures r.1.Err? ==> r.0 == s
    ensures HashRomFile(sha, path, file).Err? ==> r.1 == Err(HashRomFile(sha, path, file).error)
    ensures HashRomFile(sha, path, file).Ok? ==> r == AddHashed(s, HashRomFile(sha, path, file).value, nm)
  {
    match HashRomFile(sha, path, file)
    case Err(e) => (s, Err(e))
    case Ok(meta) => AddHashed(s, meta, nm)
  }

  /** The part of `add_node` after hashing: the row, then the graph node. */
  function AddHashed(s: Storage, meta: RomMetadata, nm: R.NodeMetadata): (r: (Storage, Outcome<RomMetadata>))
    requires R.Valid(s.file.db) && G.Valid(s.graph)
    ensures r.1.Err? <==> R.HasHash(s.file.db, meta.sha256)
    ensures r.1.Err? ==> r == (s, Err(RomAlreadyExists(FormatHash(meta.sha256))))
    ensures r.1.Ok? ==>
              && r.1.value == meta
              && R.HasHash(r.0.file.db, meta.sha256)
              && G.Valid(r.0.graph)
              && G.GetNodeByHash(r.0.graph, meta.sha256).Some?
              && G.NodeAt(r.0.graph, G.GetNodeByHash(r.0.graph, meta.sha256).value).title == nm.title
              && r.0.file.db.edges == s.file.db.edges
              && r.0.graph.edges == s.graph.edges
              && r.0.diffs == s.diffs
  {
    match R.InsertNode(s.file.db, meta, nm)
    case Err(e) => (s, Err(e))
    case Ok((db, id)) =>
      var n := G.RomNode(id, meta.sha256, meta.filename, nm.title, nm.version, meta.romType);
      assert R.NewRecord(id, meta, nm) in db.nodes;
      (Storage(s.file.(db := db), G.AddNode(s.graph, n).0, s.diffs), Ok(meta))
  }

  /** The graph node `add_node` adds is the one built from the row it
      inserts, and the row's hash text is canonical. */
  lemma NewRowNode(id: int, meta: RomMetadata, nm: R.NodeMetadata)
    ensures NodeOf(R.ReadRow(R.NewRecord(id, meta, nm)))
            == G.RomNode(id, meta.sha256, meta.filename, nm.title, nm.version, meta.romType)
    ensures var x := R.NewRecord(id, meta, nm);
            ParseHash(x.sha256).Some? && FormatHash(ParseHash(x.sha256).value) == x.sha256
  {
    ParseFormat(meta.sha256);
    FromStrAsStr(meta.romType);
  }

  /** `add_node` keeps the graph in step with the store, nodes and edges
      alike. */
  lemma AddNodeConsistent(s: Storage, sha: Digest, path: RomPath, file: Option<seq<Byte>>, nm: R.NodeMetadata)
    requires Consistent(s)
    ensures Consistent(AddNode(s, sha, path, file, nm).0)
    ensures Mirrored(s.file.db, s.graph) ==>
              Mirrored(AddNode(s, sha, path, file, nm).0.file.db, AddNode(s, sha, path, file, nm).0.graph)
  {
    if HashRomFile(sha, path, file).Ok? {
      AddHashedConsistent(s, HashRomFile(sha, path, file).value, nm);
    }
  }

  lemma AddHashedConsistent(s: Storage, meta: RomMetadata, nm: R.NodeMetadata)
    requires Consistent(s)
    ensures Consistent(AddHashed(s, meta, nm).0)
    ensures Mirrored(s.file.db, s.graph) ==> Mirrored(AddHashed(s, meta, nm).0.file.db, AddHashed(s, meta, nm).0.graph)
  {
    if !R.HasHash(s.file.db, meta.sha256) {
      InsertSynced(s.file.db, s.graph, meta, nm);
      var r := AddHashed(s, meta, nm).0;
      if Mirrored(s.file.db, s.graph) {
        SameEndpointsMirrored(s.file.db, s.graph, r.file.db, r.graph);
      }
    }
  }

  /** Appending a row with a canonical hash keeps the hashes canonical. */
  lemma AppendCanonical(db: R.Db, x: R.NodeRecord, db': R.Db)
    requires Canonical(db) && db'.nodes == db.nodes + [x]
    requires ParseHash(x.sha256).Some? && FormatHash(ParseHash(x.sha256).value) == x.sha256
    ensures Canonical(db')
  {
    forall y | y in db'.nodes
      ensures ParseHash(y.sha256).Some? && FormatHash(ParseHash(y.sha256).value) == y.sha256
    {
      if y != x {
        assert y in db.nodes;
      }
    }
  }

  /** Inserting a row for a new hash and adding its graph node keeps store
      and graph in step. */
  lemma InsertSynced(db: R.Db, g: G.RomGraph, meta: RomMetadata, nm: R.NodeMetadata)
    requires Synced(db, g) && !R.HasHash(db, meta.sha256)
    ensures var (db', id) := R.InsertNode(db, meta, nm).value;
            Synced(db', G.AddNode(g, G.RomNode(id, meta.sha256, meta.filename, nm.title, nm.version, meta.romType)).0)
  {
    var (db', id) := R.InsertNode(db, meta, nm).value;
    var x := R.NewRecord(id, meta, nm);
    NewRowNode(id, meta, nm);
    AppendCanonical(db, x, db');
    SyncedHash(db, g, meta.sha256);
    SyncedId(db, g, id);
    AppendSynced(db, g, x, db');
  }

  /** Appending a row whose hash and id are new to both store and graph,
      and adding its node, keeps the two in step. */
  lemma AppendSynced(db: R.Db, g: G.RomGraph, x: R.NodeRecord, db': R.Db)
    requires Synced(db, g) && R.Valid(db') && Canonical(db')
    requires db'.nodes == db.nodes + [x]
    requires R.ReadRow(x).sha256 !in g.hashToNode && x.id !in g.dbIdToNode
    ensures Synced(db', G.AddNode(g, NodeOf(R.ReadRow(x))).0)
  {
    var row := R.ReadRow(x);
    AddRowStep(g, row);
    var (g', idx) := G.AddNode(g, NodeOf(row));
    forall y | y in db'.nodes ensures HasNode(g', R.ReadRow(y)) {
      if y != x {
        assert y in db.nodes;
      }
    }
    AppendLiveStored(db, g, x, db');
  }

  /** Every live node of the grown graph names a row of the grown store. */
  lemma AppendLiveStored(db: R.Db, g: G.RomGraph, x: R.NodeRecord, db': R.Db)
    requires Synced(db, g) && R.Valid(db')
    requires db'.nodes == db.nodes + [x]
    ensures var g' := G.AddNode(g, NodeOf(R.ReadRow(x))).0;
            forall i :: G.Live(g', i) ==> R.GetNodeById(db', G.NodeAt(g', i).dbId).Some?
  {
    var (g', idx) := G.AddNode(g, NodeOf(R.ReadRow(x)));
    forall i | G.Live(g', i) ensures R.GetNodeById(db', G.NodeAt(g', i).dbId).Some? {
      if i != idx {
        assert G.Live(g, i) && G.NodeAt(g', i) == G.NodeAt(g, i);
        var y :| y in db.nodes && y.id == G.NodeAt(g, i).dbId;
        assert y in db'.nodes;
      } else {
        assert x in db'.nodes;
      }
    }
  }

  // ----- link_nodes -----

  /** The file name `link_nodes` gives the patch from `a` to `b`: the first
      16 hex digits of each hash, joined by '_', with the `.bsdiff`
      extension. */
  function DiffName(a: Hash, b: Hash): (name: string)
    ensures |name| == 40
    ensures name[..16] == FormatHash(a)[..16] && name[16] == '_'
    ensures name[17..33] == FormatHash(b)[..16] && name[33..] == ".bsdiff"
  {
    FormatHash(a)[..16] + "_" + FormatHash(b)[..16] + ".bsdiff"
  }

  /** The names of the two directions differ unless the two hashes share
      their first 16 hex digits (as a hash does with itself). */
  lemma DiffNameDirections(a: Hash, b: Hash)
    ensures DiffName(a, b) == DiffName(b, a) <==> FormatHash(a)[..16] == FormatHash(b)[..16]
  {
    var ab, ba := DiffName(a, b), DiffName(b, a);
    if ab == ba {
      assert ab[..16] == ba[..16];
    }
  }

  /** Only the first 16 hex digits of each hash name the file: hashes that
      agree there share a patch file name. */
  lemma DiffNameByPrefix(a: Hash, b: Hash, c: Hash, d: Hash)
    requires FormatHash(a)[..16] == FormatHash(c)[..16] && FormatHash(b)[..16] == FormatHash(d)[..16]
    ensures DiffName(a, b) == DiffName(c, d)
  {
  }

  /** What `link_nodes` reads before it writes anything: the payload bytes
      and the hash of each file. */
  datatype LinkInputs = LinkInputs(bytesA: seq<Byte>, bytesB: seq<Byte>, hashA: Hash, hashB: Hash)

  /** The four reads at the head of `link_nodes`, in order; the first
      failure is returned. */
  function ReadLinkInputs(sha: Digest, pathA: RomPath, fileA: Option<seq<Byte>>,
                          pathB: RomPath, fileB: Option<seq<Byte>>): (r: Outcome<LinkInputs>)
    ensures r.Ok? ==> HashRomFile(sha, pathA, fileA).Ok? && HashRomFile(sha, pathB, fileB).Ok?
    ensures r.Ok? ==> && r.value.hashA == HashRomFile(sha, pathA, fileA).value.sha256
                      && r.value.hashB == HashRomFile(sha, pathB, fileB).value.sha256
                      && r.value.hashA == sha(r.value.bytesA) && r.value.hashB == sha(r.value.bytesB)
    ensures HashRomFile(sha, pathA, fileA).Ok? && HashRomFile(sha, pathB, fileB).Ok? ==> r.Ok?
  {
    HashReads(sha, pathA, fileA);
    HashReads(sha, pathB, fileB);
    var bytesA :- ReadRomBytes(pathA, fileA);
    var bytesB :- ReadRomBytes(pathB, fileB);
    var metaA :- HashRomFile(sha, pathA, fileA);
    var metaB :- HashRomFile(sha, pathB, fileB);
    Ok(LinkInputs(bytesA, bytesB, metaA.sha256, metaB.sha256))
  }

  /** A file that hashes can be read, and its hash is that of the bytes read. */
  lemma HashReads(sha: Digest, path: RomPath, file: Option<seq<Byte>>)
    ensures HashRomFile(sha, path, file).Ok? ==>
              && ReadRomBytes(path, file).Ok?
              && HashRomFile(sha, path, file).value.sha256 == sha(ReadRomBytes(path, file).value)
  {
    if HashRomFile(sha, path, file).Ok? {
      HashCoversReadBytes(sha, path, file);
    }
  }

  /** `link_nodes` panics unless both files are stored already: whenever
      the reads succeed, both hashes are in the store. */
  predicate BothStored(db: R.Db, sha: Digest, pathA: RomPath, fileA: Option<seq<Byte>>,
                       pathB: RomPath, fileB: Option<seq<Byte>>) {
    var r := ReadLinkInputs(sha, pathA, fileA, pathB, fileB);
    r.Ok? ==> R.HasHash(db, r.value.hashA) && R.HasHash(db, r.value.hashB)
  }

  /** An edge row for the ordered pair is stored. */
  predicate PairStored(db: R.Db, source: int, target: int) {
    exists e :: e in db.edges && e.sourceId == source && e.targetId == target
  }

  /** The two patch files `link_nodes` writes, A to B first; when both
      directions share a name the second write wins. */
  function PatchFiles(diffs: Files, diff: DiffMaker, inp: LinkInputs): (r: Files)
    ensures var ab, ba := DiffName(inp.hashA, inp.hashB), DiffName(inp.hashB, inp.hashA);
            && ab in r && ba in r
            && r[ba] == diff(inp.bytesB, inp.bytesA)
            && (ab != ba ==> r[ab] == diff(inp.bytesA, inp.bytesB))
            && (forall k :: k != ab && k != ba ==> (k in r <==> k in diffs))
            && (forall k :: k in diffs && k != ab && k != ba ==> r[k] == diffs[k])
  {
    diffs[DiffName(inp.hashA, inp.hashB) := diff(inp.bytesA, inp.bytesB)]
         [DiffName(inp.hashB, inp.hashA) := diff(inp.bytesB, inp.bytesA)]
  }

  /** The in-memory edge a link adds: database id 0, whatever id the row got. */
  function LinkWeight(name: string, patch: seq<Byte>): G.DiffEdge {
    G.DiffEdge(0, name, R.ToI64(|patch|))
  }

  /** The last step of `link_nodes`: both directed edges go into the graph
      when both db ids resolve there; otherwise the graph is left alone. */
  function LinkGraph(g: G.RomGraph, da: int, db: int, wab: G.DiffEdge, wba: G.DiffEdge): (r: G.RomGraph)
    requires G.Valid(g)
    ensures G.Valid(r)
    ensures r.slots == g.slots && r.hashToNode == g.hashToNode && r.dbIdToNode == g.dbIdToNode
    ensures G.GetNodeByDbId(g, da).Some? && G.GetNodeByDbId(g, db).Some? ==>
              var ia, ib := g.dbIdToNode[da], g.dbIdToNode[db];
              r.edges == g.edges + [G.Edge(ia, ib, wab), G.Edge(ib, ia, wba)]
    ensures G.GetNodeByDbId(g, da).None? || G.GetNodeByDbId(g, db).None? ==> r == g
  {
    match (G.GetNodeByDbId(g, da), G.GetNodeByDbId(g, db))
    case (Some(ia), Some(ib)) =>
      var g1 := G.AddEdge(g, ia, ib, wab);
      G.AddEdge(g1, ib, ia, wba)
    case _ => g
  }

  /** `link_nodes` as written: the reads, then both patch files, then the
      edge row A to B, then B to A, then the graph. A failure part-way keeps
      what was written before it. */
  function LinkNodesAsWritten(s: Storage, sha: Digest, diff: DiffMaker, pathA: RomPath, fileA: Option<seq<Byte>>,
                              pathB: RomPath, fileB: Option<seq<Byte>>): (r: (Storage, Outcome<(nat, nat)>))
    requires R.Valid(s.file.db) && G.Valid(s.graph)
    requires BothStored(s.file.db, sha, pathA, fileA, pathB, fileB)
    ensures var inp := ReadLinkInputs(sha, pathA, fileA, pathB, fileB);
            && (inp.Err? ==> r == (s, Err(inp.error)))
            && (inp.Ok? ==> r == LinkWrite(s, diff, inp.value, LinkIds(s.file.db, inp.value).0, LinkIds(s.file.db, inp.value).1))
  {
    match ReadLinkInputs(sha, pathA, fileA, pathB, fileB)
    case Err(e) => (s, Err(e))
    case Ok(inp) =>
      var (a, b) := LinkIds(s.file.db, inp);
      LinkWrite(s, diff, inp, a, b)
  }

  /** The two `insert_edge` calls of `link_nodes`, A to B then B to A,
      outside any transaction: when the second fails the first stays. */
  function LinkRows(db: R.Db, a: int, b: int, ab: string, sab: int, ba: string, sba: int): (r: (R.Db, Outcome<()>))
    requires R.Valid(db)
    ensures R.Valid(r.0) && r.0.nodes == db.nodes
    ensures PairStored(db, a, b) ==> r == (db, Err(DiffAlreadyExists(a, b)))
    ensures !PairStored(db, a, b) ==>
              && |r.0.edges| > |db.edges| && r.0.edges[..|db.edges|] == db.edges
              && RowSig(r.0.edges[|db.edges|]) == EdgeSig(a, b, ab, sab)
    ensures !PairStored(db, a, b) && (a == b || PairStored(db, b, a)) ==>
              r.1 == Err(DiffAlreadyExists(b, a)) && |r.0.edges| == |db.edges| + 1
    ensures r.1.Ok? <==> !PairStored(db, a, b) && a != b && !PairStored(db, b, a)
    ensures r.1.Ok? ==>
              && |r.0.edges| == |db.edges| + 2
              && RowSig(r.0.edges[|db.edges| + 1]) == EdgeSig(b, a, ba, sba)
  {
    var first := R.InsertEdge(db, a, b, ab, sab);
    if first.Err? then (db, Err(first.error))
    else
      var db1 := first.value.0;
      assert db1.edges[..|db.edges|] == db.edges;
      PairStoredAfter(db, db1, b, a);
      var second := R.InsertEdge(db1, b, a, ba, sba);
      if second.Err? then (db1, Err(second.error))
      else
        var db2 := second.value.0;
        assert db2.edges[..|db1.edges|] == db1.edges;
        assert db2.edges[..|db.edges|] == db.edges;
        (db2, Ok(()))
  }

  /** One appended row adds its own pair to the pairs stored. */
  lemma PairStoredAfter(db: R.Db, db1: R.Db, x: int, y: int)
    requires |db1.edges| == |db.edges| + 1 && db1.edges[..|db.edges|] == db.edges
    ensures var f := db1.edges[|db.edges|];
            PairStored(db1, x, y) <==> PairStored(db, x, y) || (f.sourceId == x && f.targetId == y)
  {
    var f := db1.edges[|db.edges|];
    assert db1.edges == db.edges + [f];
    assert f in db1.edges;
  }

  /** The ids of the two stored rows `link_nodes` looks up. */
  function LinkIds(db: R.Db, inp: LinkInputs): (int, int)
    requires R.HasHash(db, inp.hashA) && R.HasHash(db, inp.hashB)
  {
    (R.GetNodeByHash(db, inp.hashA).value.id, R.GetNodeByHash(db, inp.hashB).value.id)
  }

  /** The writing part of `link_nodes` as written, for the rows with ids
      `a` and `b`: both patch files, both edge rows, then the graph, which
      is touched only when both rows went in. */
  function LinkWrite(s: Storage, diff: DiffMaker, inp: LinkInputs, a: int, b: int): (r: (Storage, Outcome<(nat, nat)>))
    requires R.Valid(s.file.db) && G.Valid(s.graph)
  {
    var ab, ba := DiffName(inp.hashA, inp.hashB), DiffName(inp.hashB, inp.hashA);
    var pab, pba := diff(inp.bytesA, inp.bytesB), diff(inp.bytesB, inp.bytesA);
    var diffs := PatchFiles(s.diffs, diff, inp);
    var rows := LinkRows(s.file.db, a, b, ab, R.ToI64(|pab|), ba, R.ToI64(|pba|));
    var file := s.file.(db := rows.0);
    if rows.1.Err? then (Storage(file, s.graph, diffs), Err(rows.1.error))
    else (Storage(file, LinkGraph(s.graph, a, b, LinkWeight(ab, pab), LinkWeight(ba, pba)), diffs), Ok((|pab|, |pba|)))
  }

  /** `link_nodes` with both pairs checked before anything is written: a
      link either adds both directed edges and both patch files, or fails
      and changes nothing. */
  function LinkNodes(s: Storage, sha: Digest, diff: DiffMaker, pathA: RomPath, fileA: Option<seq<Byte>>,
                     pathB: RomPath, fileB: Option<seq<Byte>>): (r: (Storage, Outcome<(nat, nat)>))
    requires R.Valid(s.file.db) && G.Valid(s.graph)
    requires BothStored(s.file.db, sha, pathA, fileA, pathB, fileB)
    ensures r.1.Err? ==> r.0 == s
    ensures var inp := ReadLinkInputs(sha, pathA, fileA, pathB, fileB);
            && (inp.Err? ==> r.1 == Err(inp.error))
            && (inp.Ok? ==>
                  var (a, b) := LinkIds(s.file.db, inp.value);
                  && (PairStored(s.file.db, a, b) ==> r.1 == Err(DiffAlreadyExists(a, b)))
                  && (!PairStored(s.file.db, a, b) && (a == b || PairStored(s.file.db, b, a)) ==>
                        r.1 == Err(DiffAlreadyExists(b, a)))
                  && (r.1.Ok? <==> !PairStored(s.file.db, a, b) && a != b && !PairStored(s.file.db, b, a)))
    ensures r.1.Ok? ==> r == LinkNodesAsWritten(s, sha, diff, pathA, fileA, pathB, fileB)
  {
    match ReadLinkInputs(sha, pathA, fileA, pathB, fileB)
    case Err(e) => (s, Err(e))
    case Ok(inp) =>
      var (a, b) := LinkIds(s.file.db, inp);
      if PairStored(s.file.db, a, b) then (s, Err(DiffAlreadyExists(a, b)))
      else if a == b || PairStored(s.file.db, b, a) then (s, Err(DiffAlreadyExists(b, a)))
      else LinkWrite(s, diff, inp, a, b)
  }

  /** The id `link_nodes` finds for a stored hash belongs to a stored row,
      and the graph resolves it. */
  lemma LinkIdResolves(db: R.Db, g: G.RomGraph, h: Hash)
    requires Synced(db, g) && R.HasHash(db, h)
    ensures R.GetNodeById(db, R.GetNodeByHash(db, h).value.id).Some?
    ensures G.GetNodeByDbId(g, R.GetNodeByHash(db, h).value.id).Some?
  {
    var x :| x in db.nodes && x.sha256 == FormatHash(h);
    SyncedId(db, g, x.id);
  }

  /** Edge rows appended to a sequence add their signatures. */
  lemma StoredSigsAppend(es: seq<R.EdgeRow>, es': seq<R.EdgeRow>)
    requires |es'| == |es| + 2 && es'[..|es|] == es
    ensures StoredSigs(es') == StoredSigs(es) + {RowSig(es'[|es|]), RowSig(es'[|es| + 1])}
  {
    assert es' == es + [es'[|es|], es'[|es| + 1]];
  }

  /** A graph edge adds its signature. */
  lemma GraphSigsAddEdge(g: G.RomGraph, source: nat, target: nat, w: G.DiffEdge)
    requires G.Valid(g) && G.Live(g, source) && G.Live(g, target)
    ensures GraphSigs(G.AddEdge(g, source, target, w))
            == GraphSigs(g) + {EdgeSig(G.NodeAt(g, source).dbId, G.NodeAt(g, target).dbId, w.diffPath, w.diffSize)}
  {
    var g' := G.AddEdge(g, source, target, w);
    assert forall e :: e in g.edges ==> GraphSig(g', e) == GraphSig(g, e);
    assert G.Edge(source, target, w) in g'.edges;
  }

  /** The graph edges of a link carry the two rows' signatures. */
  lemma LinkGraphSigs(g: G.RomGraph, a: int, b: int, wab: G.DiffEdge, wba: G.DiffEdge)
    requires G.Valid(g) && a in g.dbIdToNode && b in g.dbIdToNode
    ensures GraphSigs(LinkGraph(g, a, b, wab, wba))
            == GraphSigs(g) + {EdgeSig(a, b, wab.diffPath, wab.diffSize), EdgeSig(b, a, wba.diffPath, wba.diffSize)}
  {
    var ia, ib := g.dbIdToNode[a], g.dbIdToNode[b];
    var g1 := G.AddEdge(g, ia, ib, wab);
    assert LinkGraph(g, a, b, wab, wba) == G.AddEdge(g1, ib, ia, wba);
    GraphSigsAddEdge(g, ia, ib, wab);
    GraphSigsAddEdge(g1, ib, ia, wba);
  }

  /** The checked `link_nodes` keeps the graph in step with the store,
      nodes and edges alike. */
  lemma LinkKeepsSync(s: Storage, sha: Digest, diff: DiffMaker, pathA: RomPath, fileA: Option<seq<Byte>>,
                      pathB: RomPath, fileB: Option<seq<Byte>>)
    requires Consistent(s) && Mirrored(s.file.db, s.graph)
    requires BothStored(s.file.db, sha, pathA, fileA, pathB, fileB)
    ensures var r := LinkNodes(s, sha, diff, pathA, fileA, pathB, fileB).0;
            Consistent(r) && Mirrored(r.file.db, r.graph)
  {
    var r := LinkNodes(s, sha, diff, pathA, fileA, pathB, fileB);
    if r.1.Ok? {
      var inp := ReadLinkInputs(sha, pathA, fileA, pathB, fileB).value;
      var (a, b) := LinkIds(s.file.db, inp);
      LinkWriteSync(s, diff, inp, a, b);
    }
  }

  /** The write step of a link whose pairs are both new keeps the storage
      in step. */
  lemma LinkWriteSync(s: Storage, diff: DiffMaker, inp: LinkInputs, a: int, b: int)
    requires Consistent(s) && Mirrored(s.file.db, s.graph)
    requires a in s.graph.dbIdToNode && b in s.graph.dbIdToNode
    requires !PairStored(s.file.db, a, b) && a != b && !PairStored(s.file.db, b, a)
    ensures var r := LinkWrite(s, diff, inp, a, b).0;
            Consistent(r) && Mirrored(r.file.db, r.graph)
  {
    var ab, ba := DiffName(inp.hashA, inp.hashB), DiffName(inp.hashB, inp.hashA);
    var pab, pba := diff(inp.bytesA, inp.bytesB), diff(inp.bytesB, inp.bytesA);
    var wab, wba := LinkWeight(ab, pab), LinkWeight(ba, pba);
    var r := LinkWrite(s, diff, inp, a, b).0;
    assert r.file.db == LinkRows(s.file.db, a, b, ab, R.ToI64(|pab|), ba, R.ToI64(|pba|)).0;
    assert r.graph == LinkGraph(s.graph, a, b, wab, wba);
    LinkStepsSync(s.file.db, s.graph, a, b, ab, R.ToI64(|pab|), ba, R.ToI64(|pba|), wab, wba);
  }

  /** Both edge rows and both graph edges of a new pair keep store and
      graph in step. */
  lemma LinkStepsSync(db: R.Db, g: G.RomGraph, a: int, b: int, ab: string, sab: int, ba: string, sba: int,
                      wab: G.DiffEdge, wba: G.DiffEdge)
    requires Synced(db, g) && Mirrored(db, g) && R.Valid(db) && G.Valid(g)
    requires a in g.dbIdToNode && b in g.dbIdToNode
    requires !PairStored(db, a, b) && a != b && !PairStored(db, b, a)
    requires wab.diffPath == ab && wab.diffSize == sab && wba.diffPath == ba && wba.diffSize == sba
    ensures var db' := LinkRows(db, a, b, ab, sab, ba, sba).0;
            Synced(db', LinkGraph(g, a, b, wab, wba)) && Mirrored(db', LinkGraph(g, a, b, wab, wba))
  {
    var db' := LinkRows(db, a, b, ab, sab, ba, sba).0;
    StoredSigsAppend(db.edges, db'.edges);
    LinkGraphSigs(g, a, b, wab, wba);
    SameNodesSynced(db, g, db', LinkGraph(g, a, b, wab, wba));
  }

  /** `link_nodes` as written, when the pair A to B is new but the reverse
      pair is not (or the two files are the same ROM): the A to B row is
      written, the call fails, and the graph never gets the edge, so the
      store holds an edge the graph lacks. */
  lemma LinkPartialWrite(s: Storage, diff: DiffMaker, inp: LinkInputs, a: int, b: int)
    requires Consistent(s) && Mirrored(s.file.db, s.graph)
    requires !PairStored(s.file.db, a, b) && (a == b || PairStored(s.file.db, b, a))
    ensures var r := LinkWrite(s, diff, inp, a, b);
            && r.1 == Err(DiffAlreadyExists(b, a))
            && |r.0.file.db.edges| == |s.file.db.edges| + 1
            && r.0.graph == s.graph
            && !Mirrored(r.0.file.db, r.0.graph)
  {
    var ab, ba := DiffName(inp.hashA, inp.hashB), DiffName(inp.hashB, inp.hashA);
    var pab, pba := diff(inp.bytesA, inp.bytesB), diff(inp.bytesB, inp.bytesA);
    var db := s.file.db;
    var db' := LinkRows(db, a, b, ab, R.ToI64(|pab|), ba, R.ToI64(|pba|)).0;
    NewRowUnmirrored(db, db', s.graph, a, b, ab, R.ToI64(|pab|));
  }

  /** A row for a pair the store did not hold, added to the store alone,
      leaves the graph without its edge. */
  lemma NewRowUnmirrored(db: R.Db, db': R.Db, g: G.RomGraph, a: int, b: int, p: string, n: int)
    requires Mirrored(db, g) && !PairStored(db, a, b)
    requires |db'.edges| == |db.edges| + 1 && db'.edges[..|db.edges|] == db.edges
    requires RowSig(db'.edges[|db.edges|]) == EdgeSig(a, b, p, n)
    ensures !Mirrored(db', g)
  {
    var f := db'.edges[|db.edges|];
    assert f in db'.edges;
    assert RowSig(f) !in StoredSigs(db.edges);
  }

  /** Linking a stored ROM to itself, as written: the self edge is stored,
      the call fails, and store and graph disagree. */
  lemma SelfLinkDesyncs(s: Storage, sha: Digest, diff: DiffMaker, path: RomPath, file: Option<seq<Byte>>)
    requires Consistent(s) && Mirrored(s.file.db, s.graph)
    requires BothStored(s.file.db, sha, path, file, path, file)
    requires ReadLinkInputs(sha, path, file, path, file).Ok?
    requires var a := LinkIds(s.file.db, ReadLinkInputs(sha, path, file, path, file).value).0;
             !PairStored(s.file.db, a, a)
    ensures var r := LinkNodesAsWritten(s, sha, diff, path, file, path, file);
            var a := LinkIds(s.file.db, ReadLinkInputs(sha, path, file, path, file).value).0;
            && r.1 == Err(DiffAlreadyExists(a, a))
            && !Mirrored(r.0.file.db, r.0.graph)
    ensures LinkNodes(s, sha, diff, path, file, path, file).0 == s
  {
    var inp := ReadLinkInputs(sha, path, file, path, file).value;
    var (a, b) := LinkIds(s.file.db, inp);
    assert a == b;
    LinkPartialWrite(s, diff, inp, a, b);
  }

  // ----- remove_node -----

  /** What `remove_node` reports. */
  datatype RemoveResult = RemoveResult(title: string, edgesRemoved: nat, diffFilesRemoved: nat)

  /** The patch file names of some edge rows. */
  function PathsOf(es: seq<R.EdgeRow>): set<string> {
    set e | e in es :: e.diffPath
  }

  /** Deletes each edge's patch file in turn, counting the deletions that
      found a file; a missing file is passed over (the warning it prints is
      not modelled). */
  function DeleteDiffFiles(diffs: Files, es: seq<R.EdgeRow>): (r: (Files, nat))
    ensures forall k :: k in r.0 <==> k in diffs && k !in PathsOf(es)
    ensures forall k :: k in r.0 ==> r.0[k] == diffs[k]
    ensures r.1 + |r.0.Keys| == |diffs.Keys|
    decreases |es|
  {
    if |es| == 0 then (diffs, 0)
    else
      var p := es[0].diffPath;
      var rest := DeleteDiffFiles(diffs - {p}, es[1..]);
      RemoveKeyCard(diffs, p);
      PathsOfCons(es);
      (rest.0, rest.1 + (if p in diffs then 1 else 0))
  }

  /** Removing a key shrinks a map by one exactly when the key was there. */
  lemma RemoveKeyCard<K, V>(m: map<K, V>, p: K)
    ensures (m - {p}).Keys == m.Keys - {p}
    ensures |(m - {p}).Keys| + (if p in m then 1 else 0) == |m.Keys|
  {
    assert (m - {p}).Keys == m.Keys - {p};
  }

  lemma PathsOfCons(es: seq<R.EdgeRow>)
    requires |es| > 0
    ensures PathsOf(es) == {es[0].diffPath} + PathsOf(es[1..])
  {
    assert es == [es[0]] + es[1..];
  }

  /** `remove_node`: the row's incident edges are counted, their patch
      files deleted, then the edges and the row are deleted from the store
      and the node from the graph. */
  function RemoveNode(s: Storage, h: Hash): (r: (Storage, RemoveResult))
    requires R.Valid(s.file.db) && G.Valid(s.graph) && R.HasHash(s.file.db, h)
    ensures var row := R.GetNodeByHash(s.file.db, h).value;
            var db, db' := s.file.db, r.0.file.db;
            && r.1.title == row.title
            && r.1.edgesRemoved == |R.GetEdgesForNode(db, row.id)|
            && r.1.edgesRemoved + |db'.edges| == |db.edges|
            && (forall e :: e in db'.edges <==> e in db.edges && e.sourceId != row.id && e.targetId != row.id)
            && (forall x :: x in db'.nodes <==> x in db.nodes && x.id != row.id)
            && !R.HasHash(db', h)
            && (forall k :: k in r.0.diffs <==> k in s.diffs && k !in PathsOf(R.GetEdgesForNode(db, row.id)))
            && r.1.diffFilesRemoved + |r.0.diffs.Keys| == |s.diffs.Keys|
            && R.Valid(db') && G.Valid(r.0.graph)
            && G.GetNodeByHash(r.0.graph, h).None?
            && r.0.file.tables == s.file.tables && r.0.file.meta == s.file.meta
  {
    var db := s.file.db;
    var row := R.GetNodeByHash(db, h).value;
    var edges := R.GetEdgesForNode(db, row.id);
    var (diffs, removed) := DeleteDiffFiles(s.diffs, edges);
    var db' := R.DeleteNode(db, row.id);
    FilterSplit(db.edges, R.Touches(row.id), R.Avoids(row.id));
    assert db'.edges == Filter(db.edges, R.Avoids(row.id));
    var g' := match G.GetNodeByHash(s.graph, h)
              case Some(idx) => G.RemoveNode(s.graph, idx).0
              case None => s.graph;
    (Storage(s.file.(db := db'), g', diffs), RemoveResult(row.title, |edges|, removed))
  }

  /** `remove_node` keeps the graph in step with the store, nodes and edges
      alike. */
  lemma RemoveKeepsSync(s: Storage, h: Hash)
    requires Consistent(s) && R.HasHash(s.file.db, h)
    ensures Consistent(RemoveNode(s, h).0)
    ensures Mirrored(s.file.db, s.graph) ==> Mirrored(RemoveNode(s, h).0.file.db, RemoveNode(s, h).0.graph)
  {
    var db, g := s.file.db, s.graph;
    var x :| x in db.nodes && x.sha256 == FormatHash(h);
    assert R.GetNodeByHash(db, h) == Some(R.ReadRow(x));
    SyncedHash(db, g, h);
    assert HasNode(g, R.ReadRow(x));
    assert G.GetNodeByHash(g, h) == Some(g.dbIdToNode[x.id]);
    RemoveSynced(db, g, x);
    if Mirrored(db, g) {
      RemoveMirrored(db, g, x);
    }
  }

  /** Deleting a stored row and its graph node keeps the two in step. */
  lemma RemoveSynced(db: R.Db, g: G.RomGraph, x: R.NodeRecord)
    requires Synced(db, g) && x in db.nodes
    ensures HasNode(g, R.ReadRow(x))
    ensures Synced(R.DeleteNode(db, x.id), G.RemoveNode(g, g.dbIdToNode[x.id]).0)
  {
    assert HasNode(g, R.ReadRow(x));
    var id, idx := x.id, g.dbIdToNode[x.id];
    var db', g' := R.DeleteNode(db, id), G.RemoveNode(g, idx).0;
    G.RemoveNodeKeepsIndexed(g, idx);
    forall y | y in db'.nodes ensures HasNode(g', R.ReadRow(y)) {
      assert y in db.nodes && y.id != id;
      assert HasNode(g, R.ReadRow(y));
      assert G.GetNodeByDbId(g', y.id) == G.GetNodeByDbId(g, y.id);
    }
    forall i | G.Live(g', i) ensures R.GetNodeById(db', G.NodeAt(g', i).dbId).Some? {
      assert i != idx && G.Live(g, i) && G.NodeAt(g', i) == G.NodeAt(g, i);
      var d := G.NodeAt(g, i).dbId;
      assert g.dbIdToNode[d] == i;
      R.DeleteKeepsOtherIds(db, id, d);
    }
  }

  /** Deleting a stored row's edges from the store and its node's edges
      from the graph keeps the edges mirrored. */
  lemma RemoveMirrored(db: R.Db, g: G.RomGraph, x: R.NodeRecord)
    requires Synced(db, g) && Mirrored(db, g) && x in db.nodes
    requires HasNode(g, R.ReadRow(x))
    ensures Mirrored(R.DeleteNode(db, x.id), G.RemoveNode(g, g.dbIdToNode[x.id]).0)
  {
    var id, idx := x.id, g.dbIdToNode[x.id];
    RemoveEdgesMirrored(db.edges, R.DeleteNode(db, id).edges, g, idx, id);
  }

  lemma RemoveEdgesMirrored(es: seq<R.EdgeRow>, es': seq<R.EdgeRow>, g: G.RomGraph, idx: nat, id: int)
    requires G.Valid(g) && G.Indexed(g) && G.Live(g, idx) && G.NodeAt(g, idx).dbId == id
    requires StoredSigs(es) == GraphSigs(g)
    requires forall e :: e in es' <==> e in es && e.sourceId != id && e.targetId != id
    ensures StoredSigs(es') == GraphSigs(G.RemoveNode(g, idx).0)
  {
    StoredSigsAvoiding(es, es', id);
    GraphSigsAvoiding(g, idx, id);
  }

  /** The signatures left after dropping the rows touching `id`. */
  lemma StoredSigsAvoiding(es: seq<R.EdgeRow>, es': seq<R.EdgeRow>, id: int)
    requires forall e :: e in es' <==> e in es && e.sourceId != id && e.targetId != id
    ensures forall sig :: sig in StoredSigs(es') <==> sig in StoredSigs(es) && sig.source != id && sig.target != id
  {
    forall sig | sig in StoredSigs(es) && sig.source != id && sig.target != id
      ensures sig in StoredSigs(es')
    {
      var f :| f in es && RowSig(f) == sig;
      assert f in es';
    }
  }

  /** The signatures left after removing node `idx`, whose db id is `id`. */
  lemma GraphSigsAvoiding(g: G.RomGraph, idx: nat, id: int)
    requires G.Valid(g) && G.Indexed(g) && G.Live(g, idx) && G.NodeAt(g, idx).dbId == id
    ensures var g' := G.RemoveNode(g, idx).0;
            forall sig :: sig in GraphSigs(g') <==> sig in GraphSigs(g) && sig.source != id && sig.target != id
  {
    RemainingSigsAvoid(g, idx, id);
    AvoidingSigsRemain(g, idx, id);
  }

  /** Every signature left after the removal was there before and avoids
      the removed id. */
  lemma RemainingSigsAvoid(g: G.RomGraph, idx: nat, id: int)
    requires G.Valid(g) && G.Indexed(g) && G.Live(g, idx) && G.NodeAt(g, idx).dbId == id
    ensures var g' := G.RemoveNode(g, idx).0;
            forall sig :: sig in GraphSigs(g') ==> sig in GraphSigs(g) && sig.source != id && sig.target != id
  {
    var g' := G.RemoveNode(g, idx).0;
    assert g.dbIdToNode[id] == idx;
    forall sig | sig in GraphSigs(g') ensures sig in GraphSigs(g) && sig.source != id && sig.target != id {
      var e :| e in g'.edges && GraphSig(g', e) == sig;
      assert e in g.edges && e.source != idx && e.target != idx;
      assert GraphSig(g', e) == GraphSig(g, e);
      assert g.dbIdToNode[G.NodeAt(g, e.source).dbId] == e.source;
      assert g.dbIdToNode[G.NodeAt(g, e.target).dbId] == e.target;
    }
  }

  /** Every signature that avoids the removed id survives the removal. */
  lemma AvoidingSigsRemain(g: G.RomGraph, idx: nat, id: int)
    requires G.Valid(g) && G.Live(g, idx) && G.NodeAt(g, idx).dbId == id
    ensures var g' := G.RemoveNode(g, idx).0;
            forall sig :: sig in GraphSigs(g) && sig.source != id && sig.target != id ==> sig in GraphSigs(g')
  {
    var g' := G.RemoveNode(g, idx).0;
    forall sig | sig in GraphSigs(g) && sig.source != id && sig.target != id ensures sig in GraphSigs(g') {
      var e :| e in g.edges && GraphSig(g, e) == sig;
      assert e.source != idx && e.target != idx;
      assert e in g'.edges;
      assert G.NodeAt(g', e.source) == G.NodeAt(g, e.source) && G.NodeAt(g', e.target) == G.NodeAt(g, e.target);
      assert GraphSig(g', e) == GraphSig(g, e);
    }
  }

  // ----- update_node_metadata -----

  /** `update_node_metadata`: an unknown hash is RomNotFound; otherwise the
      row's six user-editable columns are rewritten and the graph node's
      title and version follow (`UpdateThenRead`). */
  function UpdateNodeMetadata(s: Storage, h: Hash, nm: R.NodeMetadata): (r: (Storage, Outcome<()>))
    requires R.Valid(s.file.db) && G.Valid(s.graph)
    ensures !R.HasHash(s.file.db, h) ==> r == (s, Err(RomNotFound(FormatHash(h))))
    ensures R.HasHash(s.file.db, h) ==>
              && r.1 == Ok(())
              && R.Valid(r.0.file.db) && G.Valid(r.0.graph)
              && r.0.file.db.edges == s.file.db.edges && r.0.graph.edges == s.graph.edges
              && r.0.diffs == s.diffs
  {
    match R.GetNodeByHash(s.file.db, h)
    case None => (s, Err(RomNotFound(FormatHash(h))))
    case Some(row) =>
      var db' := R.UpdateNodeMetadata(s.file.db, row.id, nm);
      var g' := match G.GetNodeByHash(s.graph, h)
                case Some(i) => G.SetTitleVersion(s.graph, i, nm.title, nm.version)
                case None => s.graph;
      (Storage(s.file.(db := db'), g', s.diffs), Ok(()))
  }

  /** After `update_node_metadata` on a stored hash, the row read back by
      its id has the same hash and the new metadata, and the graph node of
      the hash has the new title and version. */
  lemma UpdateThenRead(s: Storage, h: Hash, nm: R.NodeMetadata)
    requires R.Valid(s.file.db) && G.Valid(s.graph) && R.HasHash(s.file.db, h)
    ensures var id := R.GetNodeByHash(s.file.db, h).value.id;
            var db', g' := UpdateNodeMetadata(s, h, nm).0.file.db, UpdateNodeMetadata(s, h, nm).0.graph;
            && R.GetNodeById(db', id).Some?
            && R.GetNodeById(db', id).value.sha256 == h
            && R.MetadataOf(R.GetNodeById(db', id).value) == nm
            && (G.GetNodeByHash(s.graph, h).Some? ==>
                  var i := G.GetNodeByHash(s.graph, h).value;
                  G.NodeAt(g', i) == G.NodeAt(s.graph, i).(title := nm.title, version := nm.version))
  {
    var row := R.GetNodeByHash(s.file.db, h).value;
    var x :| x in s.file.db.nodes && x.sha256 == FormatHash(h);
    assert R.GetNodeById(s.file.db, row.id) == Some(row);
    R.UpdateThenGet(s.file.db, row.id, nm);
  }

  /** `update_node_metadata` keeps the graph in step with the store, nodes
      and edges alike. */
  lemma UpdateKeepsSync(s: Storage, h: Hash, nm: R.NodeMetadata)
    requires Consistent(s)
    ensures Consistent(UpdateNodeMetadata(s, h, nm).0)
    ensures Mirrored(s.file.db, s.graph) ==> Mirrored(UpdateNodeMetadata(s, h, nm).0.file.db, UpdateNodeMetadata(s, h, nm).0.graph)
  {
    var db, g := s.file.db, s.graph;
    if R.HasHash(db, h) {
      var x :| x in db.nodes && x.sha256 == FormatHash(h);
      assert R.GetNodeByHash(db, h) == Some(R.ReadRow(x));
      SyncedHash(db, g, h);
      assert HasNode(g, R.ReadRow(x));
      assert G.GetNodeByHash(g, h) == Some(g.dbIdToNode[x.id]);
      var r := UpdateNodeMetadata(s, h, nm).0;
      assert r.file.db == R.UpdateNodeMetadata(db, x.id, nm);
      assert r.graph == G.SetTitleVersion(g, g.dbIdToNode[x.id], nm.title, nm.version);
      UpdateSynced(db, g, x, nm);
      if Mirrored(db, g) {
        SameEndpointsMirrored(db, g, r.file.db, r.graph);
      }
    }
  }

  /** Rewriting a stored row's metadata and its graph node's title and
      version keeps the two in step. */
  lemma UpdateSynced(db: R.Db, g: G.RomGraph, x: R.NodeRecord, nm: R.NodeMetadata)
    requires Synced(db, g) && x in db.nodes
    requires HasNode(g, R.ReadRow(x))
    ensures Synced(R.UpdateNodeMetadata(db, x.id, nm),
                   G.SetTitleVersion(g, g.dbIdToNode[x.id], nm.title, nm.version))
  {
    var idx := g.dbIdToNode[x.id];
    G.SetTitleVersionKeepsIndexed(g, idx, nm.title, nm.version);
    UpdatedCanonical(db, x.id, nm);
    UpdatedRowsHeld(db, g, x, nm);
    UpdatedLiveStored(db, g, x, nm);
  }

  /** The update leaves every hash column as it was. */
  lemma UpdatedCanonical(db: R.Db, id: int, nm: R.NodeMetadata)
    requires Canonical(db)
    ensures Canonical(R.UpdateNodeMetadata(db, id, nm))
  {
    var db' := R.UpdateNodeMetadata(db, id, nm);
    forall y' | y' in db'.nodes
      ensures ParseHash(y'.sha256).Some? && FormatHash(ParseHash(y'.sha256).value) == y'.sha256
    {
      var k :| 0 <= k < |db'.nodes| && db'.nodes[k] == y';
      assert db.nodes[k] in db.nodes;
    }
  }

  /** Every row after the update has its graph node after the update. */
  lemma UpdatedRowsHeld(db: R.Db, g: G.RomGraph, x: R.NodeRecord, nm: R.NodeMetadata)
    requires Synced(db, g) && x in db.nodes
    requires HasNode(g, R.ReadRow(x))
    ensures var g' := G.SetTitleVersion(g, g.dbIdToNode[x.id], nm.title, nm.version);
            forall y' :: y' in R.UpdateNodeMetadata(db, x.id, nm).nodes ==> HasNode(g', R.ReadRow(y'))
  {
    var id, idx := x.id, g.dbIdToNode[x.id];
    var db' := R.UpdateNodeMetadata(db, id, nm);
    var g' := G.SetTitleVersion(g, idx, nm.title, nm.version);
    forall y' | y' in db'.nodes ensures HasNode(g', R.ReadRow(y')) {
      var k :| 0 <= k < |db'.nodes| && db'.nodes[k] == y';
      var y := db.nodes[k];
      assert y in db.nodes && HasNode(g, R.ReadRow(y));
      if y.id == id {
        UpdatedNode(y', y, x, nm);
      }
    }
  }

  /** The rewritten row reads back as the old graph node with the new
      title and version. */
  lemma UpdatedNode(y': R.NodeRecord, y: R.NodeRecord, x: R.NodeRecord, nm: R.NodeMetadata)
    requires R.SameIdentity(y', y) && R.MetadataOf(R.ReadRow(y')) == nm
    ensures NodeOf(R.ReadRow(y')) == NodeOf(R.ReadRow(y)).(title := nm.title, version := nm.version)
  {
    R.SameIdentityReads(y', y);
  }

  /** Every live graph node after the update is still stored. */
  lemma UpdatedLiveStored(db: R.Db, g: G.RomGraph, x: R.NodeRecord, nm: R.NodeMetadata)
    requires Synced(db, g) && x in db.nodes
    requires HasNode(g, R.ReadRow(x))
    ensures var g' := G.SetTitleVersion(g, g.dbIdToNode[x.id], nm.title, nm.version);
            forall i :: G.Live(g', i) ==> R.GetNodeById(R.UpdateNodeMetadata(db, x.id, nm), G.NodeAt(g', i).dbId).Some?
  {
    var id, idx := x.id, g.dbIdToNode[x.id];
    var db' := R.UpdateNodeMetadata(db, id, nm);
    var g' := G.SetTitleVersion(g, idx, nm.title, nm.version);
    forall i | G.Live(g', i) ensures R.GetNodeById(db', G.NodeAt(g', i).dbId).Some? {
      var d := G.NodeAt(g, i).dbId;
      assert G.NodeAt(g', i).dbId == d;
      var y :| y in db.nodes && y.id == d;
      var k :| 0 <= k < |db.nodes| && db.nodes[k] == y;
      assert db'.nodes[k] in db'.nodes;
    }
  }

  /** The same edge rows, and graph edges between nodes with the same db
      ids: still mirrored. */
  lemma SameEndpointsMirrored(db: R.Db, g: G.RomGraph, db': R.Db, g': G.RomGraph)
    requires Mirrored(db, g) && G.Valid(g')
    requires db'.edges == db.edges && g'.edges == g.edges
    requires forall i :: G.Live(g, i) ==> G.Live(g', i) && G.NodeAt(g', i).dbId == G.NodeAt(g, i).dbId
    ensures Mirrored(db', g')
  {
    assert forall e :: e in g.edges ==> GraphSig(g', e) == GraphSig(g, e);
  }
}
