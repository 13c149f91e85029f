/** The state `StorageManager` of src/storage/manager.rs owns: the SQLite
    file (its table catalogue, the `dromos_meta` key/value table and the
    two data tables), the in-memory graph rebuilt from it, and the diffs
    directory as a map from file name to contents. This module holds the
    start-up path (`open` and `load_graph_from_db`) and the invariant that
    ties the graph to the store. */
module StorageManager {
  import opened Wrappers
  import opened Hex
  import opened Schema
  import G = Graph
  import R = Repository

  /** The diffs directory: file name to contents. */
  type Files = map<string, seq<Byte>>

  const MetaTableName := "dromos_meta"

  /** The tables the initial migration creates. */
  const MigratedTables: set<string> := {"nodes", "edges", MetaTableName}

  /** The database file: the names of its tables, the rows of
      `dromos_meta`, and the data tables. The table names and the rows are
      independent fields: the opening code only asks which tables exist
      and what the meta table holds, and after `Open` every table exists
      (`MigratedTables <= tables`), so the rows are only ever read from a
      file that has all its tables. */
  datatype DbFile = DbFile(tables: set<string>, meta: map<string, string>, db: R.Db)

  datatype Storage = Storage(file: DbFile, graph: G.RomGraph, diffs: Files)

  /** The `dromos_meta` table, absent when the file has no such table. */
  function MetaOf(f: DbFile): MetaTable {
    if MetaTableName in f.tables then Some(f.meta) else None
  }

  // ----- open -----

  /** The wipe decision of `open`: a stored revision below the current one,
      or no revision at all in a file that already holds a `nodes` table.
      A revision above the current one is kept. */
  function NeedsWipe(stored: Option<nat>, hasData: bool): (wipe: bool)
    ensures stored.Some? ==> (wipe <==> stored.value < DataRevision)
    ensures stored.None? ==> (wipe <==> hasData)
  {
    match stored
    case Some(rev) => rev < DataRevision
    case None => hasData
  }

  /** Whether `open` wipes the file it finds (a missing file is never wiped). */
  predicate WipeDecision(existing: Option<DbFile>) {
    && existing.Some?
    && NeedsWipe(GetStoredDataRevision(MetaOf(existing.value)),
                 HasExistingData(Some(existing.value.tables)))
  }

  /** `run_migrations` on an opened file: the tables exist afterwards, and
      the rows already stored are kept. A missing file becomes a fresh,
      empty database. */
  function Migrate(file: Option<DbFile>): (f: DbFile)
    ensures MigratedTables <= f.tables
    ensures file.Some? ==> f.db == file.value.db
    ensures file.None? ==> f.db == R.EmptyDb
  {
    match file
    case None => DbFile(MigratedTables, map[], R.EmptyDb)
    case Some(f) =>
      DbFile(f.tables + MigratedTables, if MetaTableName in f.tables then f.meta else map[], f.db)
  }

  /** `StorageManager::open`: decide on the wipe, migrate, record the
      current revision, rebuild the graph. A wipe deletes the database and
      every diff file. */
  function Open(existing: Option<DbFile>, diffs: Files): (s: Storage)
    ensures GetStoredDataRevision(MetaOf(s.file)) == Some(DataRevision)
    ensures MigratedTables <= s.file.tables
    ensures WipeDecision(existing) ==> s.file.db == R.EmptyDb && s.diffs == map[]
    ensures !WipeDecision(existing) ==>
              && s.diffs == diffs
              && s.file.db == (if existing.Some? then existing.value.db else R.EmptyDb)
    ensures s.graph == LoadGraphFromDb(s.file.db)
  {
    var wipe := WipeDecision(existing);
    var file := Migrate(if wipe then None else existing);
    SetThenGet(MetaOf(file), DataRevision);
    var f := file.(meta := SetDataRevision(MetaOf(file), DataRevision).value);
    Storage(f, LoadGraphFromDb(f.db), if wipe then map[] else diffs)
  }

  /** A file `open` has written is kept by the next `open`. */
  lemma ReopenKeeps(existing: Option<DbFile>, diffs: Files, diffs': Files)
    ensures !WipeDecision(Some(Open(existing, diffs).file))
    ensures Open(Some(Open(existing, diffs).file), diffs').file.db == Open(existing, diffs).file.db
  {
  }

  /** A legacy file (a `nodes` table but no revision) is wiped. */
  lemma LegacyFileWiped(f: DbFile, diffs: Files)
    requires MetaTableName !in f.tables && "nodes" in f.tables
    ensures Open(Some(f), diffs).file.db == R.EmptyDb
    ensures Open(Some(f), diffs).diffs == map[]
  {
  }

  // ----- load_graph_from_db -----

  /** The graph node built from a stored row. */
  function NodeOf(row: R.NodeRow): G.RomNode {
    G.RomNode(row.id, row.sha256, row.filename, row.title, row.version, row.romType)
  }

  /** Adds a node per row, in order. */
  function AddRows(g: G.RomGraph, rows: seq<R.NodeRow>): (r: G.RomGraph)
    requires G.Valid(g)
    ensures G.Valid(r)
    ensures r.edges == g.edges
    decreases |rows|
  {
    if |rows| == 0 then g else AddRows(G.AddNode(g, NodeOf(rows[0])).0, rows[1..])
  }

  /** Both endpoint ids of the edge row resolve in the graph. */
  predicate Linkable(g: G.RomGraph, f: R.EdgeRow) {
    f.sourceId in g.dbIdToNode && f.targetId in g.dbIdToNode
  }

  /** The graph edge an edge row becomes. */
  function EdgeOf(g: G.RomGraph, f: R.EdgeRow): G.Edge
    requires Linkable(g, f)
  {
    G.Edge(g.dbIdToNode[f.sourceId], g.dbIdToNode[f.targetId], G.DiffEdge(f.id, f.diffPath, f.diffSize))
  }

  /** Adds an edge per row whose endpoints both resolve; the others are
      dropped without an error. */
  function AddStoredEdges(g: G.RomGraph, es: seq<R.EdgeRow>): (r: G.RomGraph)
    requires G.Valid(g)
    ensures G.Valid(r)
    ensures r.slots == g.slots && r.hashToNode == g.hashToNode && r.dbIdToNode == g.dbIdToNode
    decreases |es|
  {
    if |es| == 0 then g else AddStoredEdges(AddStoredEdge(g, es[0]), es[1..])
  }

  /** One step of `AddStoredEdges`. */
  function AddStoredEdge(g: G.RomGraph, f: R.EdgeRow): (r: G.RomGraph)
    requires G.Valid(g)
    ensures G.Valid(r)
    ensures r.slots == g.slots && r.hashToNode == g.hashToNode && r.dbIdToNode == g.dbIdToNode
    ensures r.edges == g.edges + (if Linkable(g, f) then [EdgeOf(g, f)] else [])
  {
    if Linkable(g, f) then G.AddEdge(g, g.dbIdToNode[f.sourceId], g.dbIdToNode[f.targetId],
                                     G.DiffEdge(f.id, f.diffPath, f.diffSize))
    else g
  }

  /** The edges `AddStoredEdges` ends with: those it started with and one
      per row whose endpoints resolve. */
  lemma {:induction false} AddStoredEdgesMembers(g: G.RomGraph, es: seq<R.EdgeRow>)
    requires G.Valid(g)
    ensures forall e :: e in AddStoredEdges(g, es).edges <==>
              e in g.edges || exists f :: f in es && Linkable(g, f) && e == EdgeOf(g, f)
    decreases |es|
  {
    if |es| > 0 {
      var f := es[0];
      var g1 := AddStoredEdge(g, f);
      var rest := es[1..];
      AddStoredEdgesMembers(g1, rest);
      assert AddStoredEdges(g, es) == AddStoredEdges(g1, rest);
      assert es == [f] + rest;
      assert f in es;
      assert forall f' :: f' in rest ==> f' in es;
    }
  }

  /** `load_graph_from_db`: every stored node, then every stored edge whose
      endpoints are both in the graph. */
  function LoadGraphFromDb(db: R.Db): (g: G.RomGraph)
    ensures G.Valid(g)
  {
    G.EmptyGraphValid();
    AddStoredEdges(AddRows(G.EmptyGraph, R.LoadAllNodes(db)), R.LoadAllEdges(db))
  }

  // ----- The invariant -----

  /** Every stored hash is the canonical (lower-case) text of a hash, as
      `insert_node` writes it. */
  predicate Canonical(db: R.Db) {
    forall x :: x in db.nodes ==> ParseHash(x.sha256).Some? && FormatHash(ParseHash(x.sha256).value) == x.sha256
  }

  /** The graph holds `row`: its db id looks up a live node built from it. */
  predicate HasNode(g: G.RomGraph, row: R.NodeRow) {
    && row.id in g.dbIdToNode && G.Live(g, g.dbIdToNode[row.id])
    && G.NodeAt(g, g.dbIdToNode[row.id]) == NodeOf(row)
  }

  /** The store and the graph agree: every stored node has its graph node
      (same hash, db id, file name, title, version, type), and every live
      graph node is stored. */
  ghost predicate Synced(db: R.Db, g: G.RomGraph) {
    && R.Valid(db) && Canonical(db) && G.Valid(g) && G.Indexed(g)
    && (forall x :: x in db.nodes ==> HasNode(g, R.ReadRow(x)))
    && (forall i :: G.Live(g, i) ==> R.GetNodeById(db, G.NodeAt(g, i).dbId).Some?)
  }

  ghost predicate Consistent(s: Storage) {
    Synced(s.file.db, s.graph)
  }

  /** A hash is stored exactly when the graph knows it, and then the graph
      node it finds is the one built from the stored row. */
  lemma SyncedHash(db: R.Db, g: G.RomGraph, h: Hash)
    requires Synced(db, g)
    ensures R.HasHash(db, h) <==> G.GetNodeByHash(g, h).Some?
    ensures R.HasHash(db, h) ==>
              && G.GetNodeByHash(g, h) == G.GetNodeByDbId(g, R.GetNodeByHash(db, h).value.id)
              && G.NodeAt(g, G.GetNodeByHash(g, h).value) == NodeOf(R.GetNodeByHash(db, h).value)
  {
    if R.HasHash(db, h) {
      var x :| x in db.nodes && x.sha256 == FormatHash(h);
      ParseFormat(h);
      assert HasNode(g, R.ReadRow(x));
    }
    if G.GetNodeByHash(g, h).Some? {
      var i := g.hashToNode[h];
      var d := G.NodeAt(g, i).dbId;
      assert R.GetNodeById(db, d).Some?;
      var x :| x in db.nodes && x.id == d;
      assert HasNode(g, R.ReadRow(x));
      assert x.sha256 == FormatHash(h);
    }
  }

  /** A db id resolves in the graph exactly when a row carries it. */
  lemma SyncedId(db: R.Db, g: G.RomGraph, d: int)
    requires Synced(db, g)
    ensures d in g.dbIdToNode <==> R.GetNodeById(db, d).Some?
  {
    if R.GetNodeById(db, d).Some? {
      var x :| x in db.nodes && x.id == d;
      assert HasNode(g, R.ReadRow(x));
    }
  }

  /** Two rows of a valid store map to different hashes and ids. */
  lemma StoredRowsDistinct(db: R.Db, a: int, b: int)
    requires R.Valid(db) && Canonical(db) && 0 <= a < b < |db.nodes|
    ensures R.ReadRow(db.nodes[a]).sha256 != R.ReadRow(db.nodes[b]).sha256
    ensures db.nodes[a].id != db.nodes[b].id
  {
    var x, y := db.nodes[a], db.nodes[b];
    var ka, kb := R.NodeKey(x), R.NodeKey(y);
    assert x in db.nodes && y in db.nodes;
  }

  /** No row's hash or db id is a key of the graph yet. */
  predicate FreshRows(g: G.RomGraph, rows: seq<R.NodeRow>) {
    forall k :: 0 <= k < |rows| ==> rows[k].sha256 !in g.hashToNode && rows[k].id !in g.dbIdToNode
  }

  /** No two rows share a hash or a db id. */
  predicate DistinctRows(rows: seq<R.NodeRow>) {
    forall a, b :: 0 <= a < b < |rows| ==> rows[a].sha256 != rows[b].sha256 && rows[a].id != rows[b].id
  }

  /** The db ids of `rows`. */
  function RowIds(rows: seq<R.NodeRow>): set<int> {
    if |rows| == 0 then {} else {rows[0].id} + RowIds(rows[1..])
  }

  lemma {:induction false} RowIdsAt(rows: seq<R.NodeRow>, d: int)
    requires d in RowIds(rows)
    ensures exists k :: 0 <= k < |rows| && rows[k].id == d
  {
    if rows[0].id != d {
      RowIdsAt(rows[1..], d);
      var k :| 0 <= k < |rows[1..]| && rows[1..][k].id == d;
      assert rows[k + 1].id == d;
    }
  }

  /** One `add_node` of a row with a new hash and db id: the graph stays
      indexed, holds the row and every row it held, gains only the two keys
      of the row, and its one new live node is the row's. */
  lemma AddRowStep(g: G.RomGraph, row: R.NodeRow)
    requires G.Valid(g) && G.Indexed(g)
    requires row.sha256 !in g.hashToNode && row.id !in g.dbIdToNode
    ensures var g1 := G.AddNode(g, NodeOf(row)).0;
            && G.Indexed(g1)
            && HasNode(g1, row)
            && (forall r :: HasNode(g, r) ==> HasNode(g1, r))
            && (forall h :: h in g1.hashToNode ==> h in g.hashToNode || h == row.sha256)
            && (forall d :: d in g1.dbIdToNode ==> d in g.dbIdToNode || d == row.id)
  {
    var n := NodeOf(row);
    var g1 := G.AddNode(g, n).0;
    G.AddNodeKeepsIndexed(g, n);
    forall r | HasNode(g, r) ensures HasNode(g1, r) {
      assert G.GetNodeByDbId(g1, r.id) == G.GetNodeByDbId(g, r.id);
    }
    forall h | h in g1.hashToNode && h != row.sha256 ensures h in g.hashToNode {
      assert G.GetNodeByHash(g1, h) == G.GetNodeByHash(g, h);
    }
    forall d | d in g1.dbIdToNode && d != row.id ensures d in g.dbIdToNode {
      assert G.GetNodeByDbId(g1, d) == G.GetNodeByDbId(g, d);
    }
  }

  /** Adding rows with new, pairwise distinct hashes and ids to an indexed
      graph keeps it indexed; every row is held afterwards, and so is every
      row held before. */
  lemma {:induction false} AddRowsHolds(g: G.RomGraph, rows: seq<R.NodeRow>)
    requires G.Valid(g) && G.Indexed(g) && FreshRows(g, rows) && DistinctRows(rows)
    ensures G.Indexed(AddRows(g, rows))
    ensures forall k :: 0 <= k < |rows| ==> HasNode(AddRows(g, rows), rows[k])
    ensures forall row :: HasNode(g, row) ==> HasNode(AddRows(g, rows), row)
    decreases |rows|
  {
    if |rows| > 0 {
      var g1 := G.AddNode(g, NodeOf(rows[0])).0;
      AddRowStep(g, rows[0]);
      var rest := rows[1..];
      assert FreshRows(g1, rest) by {
        forall k | 0 <= k < |rest|
          ensures rest[k].sha256 !in g1.hashToNode && rest[k].id !in g1.dbIdToNode
        {
          assert rest[k] == rows[k + 1];
        }
      }
      assert DistinctRows(rest) by {
        forall a, b | 0 <= a < b < |rest|
          ensures rest[a].sha256 != rest[b].sha256 && rest[a].id != rest[b].id
        {
          assert rest[a] == rows[a + 1] && rest[b] == rows[b + 1];
        }
      }
      AddRowsHolds(g1, rest);
      assert AddRows(g, rows) == AddRows(g1, rest);
      forall k | 0 <= k < |rows| ensures HasNode(AddRows(g, rows), rows[k]) {
        if k > 0 {
          assert rows[k] == rest[k - 1];
        }
      }
    }
  }

  /** Adding rows keeps every live node as it was, and every node that
      becomes live carries the db id of one of the rows. */
  lemma {:induction false} AddRowsLive(g: G.RomGraph, rows: seq<R.NodeRow>)
    requires G.Valid(g)
    ensures forall i :: G.Live(g, i) ==> G.Live(AddRows(g, rows), i) && G.NodeAt(AddRows(g, rows), i) == G.NodeAt(g, i)
    ensures forall i :: G.Live(AddRows(g, rows), i) && !G.Live(g, i) ==>
              G.NodeAt(AddRows(g, rows), i).dbId in RowIds(rows)
    decreases |rows|
  {
    if |rows| > 0 {
      var g1 := G.AddNode(g, NodeOf(rows[0])).0;
      AddRowsLive(g1, rows[1..]);
      assert AddRows(g, rows) == AddRows(g1, rows[1..]);
    }
  }

  /** The graph `open` rebuilds agrees with the store it was rebuilt from. */
  lemma LoadSynced(db: R.Db)
    requires R.Valid(db) && Canonical(db)
    ensures Synced(db, LoadGraphFromDb(db))
  {
    var g1 := LoadedRowsSynced(db);
    var g := LoadGraphFromDb(db);
    assert g.slots == g1.slots && g.hashToNode == g1.hashToNode && g.dbIdToNode == g1.dbIdToNode;
    SameNodesSynced(db, g1, db, g);
  }

  /** Store and graph stay in step when neither the stored rows nor the
      graph's nodes and indexes change. */
  lemma SameNodesSynced(db: R.Db, g: G.RomGraph, db': R.Db, g': G.RomGraph)
    requires Synced(db, g) && R.Valid(db') && G.Valid(g')
    requires db'.nodes == db.nodes
    requires g'.slots == g.slots && g'.hashToNode == g.hashToNode && g'.dbIdToNode == g.dbIdToNode
    ensures Synced(db', g')
  {
    SameNodesPresent(db, g, g');
    SameNodesStored(db, g, db', g');
    SameNodesIndexed(g, g');
  }

  lemma SameNodesPresent(db: R.Db, g: G.RomGraph, g': G.RomGraph)
    requires forall x :: x in db.nodes ==> HasNode(g, R.ReadRow(x))
    requires g'.slots == g.slots && g'.dbIdToNode == g.dbIdToNode
    ensures forall x :: x in db.nodes ==> HasNode(g', R.ReadRow(x))
  {
    forall x | x in db.nodes ensures HasNode(g', R.ReadRow(x)) {
      assert HasNode(g, R.ReadRow(x));
    }
  }

  lemma SameNodesStored(db: R.Db, g: G.RomGraph, db': R.Db, g': G.RomGraph)
    requires forall i :: G.Live(g, i) ==> R.GetNodeById(db, G.NodeAt(g, i).dbId).Some?
    requires db'.nodes == db.nodes && g'.slots == g.slots
    ensures forall i :: G.Live(g', i) ==> R.GetNodeById(db', G.NodeAt(g', i).dbId).Some?
  {
    forall i | G.Live(g', i) ensures R.GetNodeById(db', G.NodeAt(g', i).dbId).Some? {
      assert G.Live(g, i) && G.NodeAt(g', i) == G.NodeAt(g, i);
      assert R.GetNodeById(db', G.NodeAt(g, i).dbId) == R.GetNodeById(db, G.NodeAt(g, i).dbId);
    }
  }

  lemma SameNodesIndexed(g: G.RomGraph, g': G.RomGraph)
    requires G.Indexed(g)
    requires g'.slots == g.slots && g'.hashToNode == g.hashToNode && g'.dbIdToNode == g.dbIdToNode
    ensures G.Indexed(g')
  {
    forall i | G.Live(g', i)
      ensures G.NodeAt(g', i).sha256 in g'.hashToNode && g'.hashToNode[G.NodeAt(g', i).sha256] == i
      ensures G.NodeAt(g', i).dbId in g'.dbIdToNode && g'.dbIdToNode[G.NodeAt(g', i).dbId] == i
    {
      assert G.Live(g, i) && G.NodeAt(g', i) == G.NodeAt(g, i);
    }
  }

  /** The rows of the store, added one by one to an empty graph, give a
      graph in step with the store. */
  lemma LoadedRowsSynced(db: R.Db) returns (g: G.RomGraph)
    requires R.Valid(db) && Canonical(db)
    ensures Synced(db, g) && LoadGraphFromDb(db) == AddStoredEdges(g, R.LoadAllEdges(db))
  {
    var rows := R.LoadAllNodes(db);
    G.EmptyGraphValid();
    LoadedRowsDistinct(db);
    AddRowsHolds(G.EmptyGraph, rows);
    AddRowsLive(G.EmptyGraph, rows);
    g := AddRows(G.EmptyGraph, rows);
    forall x | x in db.nodes ensures HasNode(g, R.ReadRow(x)) {
      var k :| 0 <= k < |db.nodes| && db.nodes[k] == x;
      assert HasNode(g, rows[k]);
    }
    forall i | G.Live(g, i) ensures R.GetNodeById(db, G.NodeAt(g, i).dbId).Some? {
      RowIdsAt(rows, G.NodeAt(g, i).dbId);
      var k :| 0 <= k < |rows| && rows[k].id == G.NodeAt(g, i).dbId;
      assert db.nodes[k] in db.nodes;
    }
  }

  /** The stored rows, as read back, differ pairwise in hash and id. */
  lemma LoadedRowsDistinct(db: R.Db)
    requires R.Valid(db) && Canonical(db)
    ensures DistinctRows(R.LoadAllNodes(db))
  {
    var rows := R.LoadAllNodes(db);
    forall a, b | 0 <= a < b < |rows|
      ensures rows[a].sha256 != rows[b].sha256 && rows[a].id != rows[b].id
    {
      StoredRowsDistinct(db, a, b);
    }
  }

  /** In the rebuilt graph an edge row's endpoints resolve exactly when
      both are stored nodes. */
  lemma LoadedLinkable(db: R.Db, f: R.EdgeRow)
    requires R.Valid(db) && Canonical(db)
    ensures Linkable(LoadGraphFromDb(db), f) <==>
              R.GetNodeById(db, f.sourceId).Some? && R.GetNodeById(db, f.targetId).Some?
  {
    LoadSynced(db);
    SyncedId(db, LoadGraphFromDb(db), f.sourceId);
    SyncedId(db, LoadGraphFromDb(db), f.targetId);
  }

  /** The rebuilt graph holds exactly the stored edges whose endpoints
      resolve; with `LoadedLinkable`, those whose endpoints are both stored
      nodes. The others are dropped. */
  lemma LoadedEdges(db: R.Db)
    ensures var g := LoadGraphFromDb(db);
            forall e :: e in g.edges <==> exists f :: f in db.edges && Linkable(g, f) && e == EdgeOf(g, f)
  {
    G.EmptyGraphValid();
    var g1 := AddRows(G.EmptyGraph, R.LoadAllNodes(db));
    AddStoredEdgesMembers(g1, R.LoadAllEdges(db));
    assert LoadGraphFromDb(db).dbIdToNode == g1.dbIdToNode;
  }

  /** `open` on a file whose store is consistent (a fresh one, or one this
      program wrote) yields a storage whose graph agrees with its store. */
  lemma OpenConsistent(existing: Option<DbFile>, diffs: Files)
    requires existing.Some? ==> R.Valid(existing.value.db) && Canonical(existing.value.db)
    ensures Consistent(Open(existing, diffs))
  {
    R.EmptyDbValid();
    LoadSynced(Open(existing, diffs).file.db);
  }

  // ----- Edge mirroring -----

  /** What an edge says wherever it is kept: the endpoints' db ids, the
      patch file name and its size. The edge's own db id is not part of it
      (graph edges added by `link_nodes` carry 0). */
  datatype EdgeSig = EdgeSig(source: int, target: int, diffPath: string, diffSize: int)

  function RowSig(f: R.EdgeRow): EdgeSig {
    EdgeSig(f.sourceId, f.targetId, f.diffPath, f.diffSize)
  }

  function GraphSig(g: G.RomGraph, e: G.Edge): EdgeSig
    requires G.Live(g, e.source) && G.Live(g, e.target)
  {
    EdgeSig(G.NodeAt(g, e.source).dbId, G.NodeAt(g, e.target).dbId, e.weight.diffPath, e.weight.diffSize)
  }

  function StoredSigs(es: seq<R.EdgeRow>): set<EdgeSig> {
    set f | f in es :: RowSig(f)
  }

  function GraphSigs(g: G.RomGraph): set<EdgeSig>
    requires G.Valid(g)
  {
    set e | e in g.edges :: GraphSig(g, e)
  }

  /** The graph's edges say exactly what the stored edge rows say. */
  predicate Mirrored(db: R.Db, g: G.RomGraph) {
    G.Valid(g) && StoredSigs(db.edges) == GraphSigs(g)
  }

  /** Every stored edge row joins two stored nodes, as every edge this
      program writes does. */
  predicate EdgesClosed(db: R.Db) {
    forall f :: f in db.edges ==> R.GetNodeById(db, f.sourceId).Some? && R.GetNodeById(db, f.targetId).Some?
  }

  /** The rebuilt graph of a store whose edges join stored nodes mirrors its
      edges. */
  lemma LoadMirrored(db: R.Db)
    requires R.Valid(db) && Canonical(db) && EdgesClosed(db)
    ensures Mirrored(db, LoadGraphFromDb(db))
  {
    var g := LoadGraphFromDb(db);
    LoadedEdges(db);
    forall f | f in db.edges ensures Linkable(g, f) && GraphSig(g, EdgeOf(g, f)) == RowSig(f) {
      LoadedLinkable(db, f);
    }
    EdgesOfMirror(db.edges, g);
  }

  /** A graph whose edges are exactly those built from some rows, each
      saying what its row says, mirrors the rows. */
  lemma EdgesOfMirror(es: seq<R.EdgeRow>, g: G.RomGraph)
    requires G.Valid(g)
    requires forall f :: f in es ==> Linkable(g, f) && GraphSig(g, EdgeOf(g, f)) == RowSig(f)
    requires forall e :: e in g.edges <==> exists f :: f in es && Linkable(g, f) && e == EdgeOf(g, f)
    ensures StoredSigs(es) == GraphSigs(g)
  {
    forall sig | sig in GraphSigs(g) ensures sig in StoredSigs(es) {
      var e :| e in g.edges && GraphSig(g, e) == sig;
      var f :| f in es && Linkable(g, f) && e == EdgeOf(g, f);
    }
    forall sig | sig in StoredSigs(es) ensures sig in GraphSigs(g) {
      var f :| f in es && RowSig(f) == sig;
      assert EdgeOf(g, f) in g.edges;
    }
  }

  /** `open` on a file whose store is consistent yields a storage whose
      graph mirrors its edges. */
  lemma OpenMirrored(existing: Option<DbFile>, diffs: Files)
    requires existing.Some? ==> R.Valid(existing.value.db) && Canonical(existing.value.db) && EdgesClosed(existing.value.db)
    ensures var s := Open(existing, diffs);
            Mirrored(s.file.db, s.graph)
  {
    R.EmptyDbValid();
    LoadMirrored(Open(existing, diffs).file.db);
  }
}
