/** The relational store of src/db/repository.rs: the `nodes` and `edges`
    tables as sequences of rows in ascending id order, with id counters
    that never go down, as AUTOINCREMENT keeps them. SQL itself is not
    modelled, so no statement fails with a database error. */
module Repository {
  import opened Wrappers
  import opened Hex
  import opened Errors
  import opened RomTypes
  import opened Seqs

  /** The text of the `tags` column: a JSON array of strings, or text that
      does not decode as one. */
  datatype TagsText = TagArray(items: seq<string>) | Unparsable(raw: string)

  /** The user-editable fields of a node. */
  datatype NodeMetadata = NodeMetadata(
    title: string,
    sourceUrl: Option<string>,
    version: Option<string>,
    releaseDate: Option<string>,
    tags: seq<string>,
    description: Option<string>)

  /** `NodeMetadata::default()`. */
  const DefaultMetadata := NodeMetadata("", None, None, None, [], None)

  /** A row of the `nodes` table as stored: every column that may hold NULL
      is an Option, and the hash and ROM type are text. The last field, the
      source file's header, is not a column src/db/repository.rs writes or
      reads; it is carried here because the exchange code reads it from a
      row and the importer fills it in. */
  datatype NodeRecord = NodeRecord(
    id: int,
    sha256: string,
    filename: Option<string>,
    title: Option<string>,
    romType: string,
    prgRomSize: Option<int>,
    chrRomSize: Option<int>,
    hasTrainer: Option<bool>,
    sourceUrl: Option<string>,
    version: Option<string>,
    releaseDate: Option<string>,
    tags: Option<TagsText>,
    description: Option<string>,
    sourceFileHeader: Option<seq<Byte>>)

  /** A node as the repository hands it out (`NodeRow`). */
  datatype NodeRow = NodeRow(
    id: int,
    sha256: Hash,
    filename: Option<string>,
    title: string,
    romType: RomType,
    prgRomSize: Option<nat>,
    chrRomSize: Option<nat>,
    hasTrainer: Option<bool>,
    sourceUrl: Option<string>,
    version: Option<string>,
    releaseDate: Option<string>,
    tags: seq<string>,
    description: Option<string>,
    sourceFileHeader: Option<seq<Byte>>)

  /** A row of the `edges` table (`EdgeRow`). */
  datatype EdgeRow = EdgeRow(id: int, sourceId: int, targetId: int, diffPath: string, diffSize: int)

  /** Both tables, in ascending id order, and the next id each will assign. */
  datatype Db = Db(nodes: seq<NodeRecord>, edges: seq<EdgeRow>, nextNodeId: int, nextEdgeId: int)

  /** A freshly migrated database. */
  const EmptyDb := Db([], [], 1, 1)

  function NodeKey(x: NodeRecord): int { x.id }
  function EdgeKey(e: EdgeRow): int { e.id }
  function RowKey(r: NodeRow): int { r.id }

  /** The store invariant: ids ascend and lie below the counters, content
      hashes are unique, and so is every ordered (source, target) pair. */
  predicate Valid(db: Db) {
    && db.nextNodeId >= 1 && db.nextEdgeId >= 1
    && NodesValid(db.nodes, db.nextNodeId)
    && EdgesValid(db.edges, db.nextEdgeId)
  }

  /** The `nodes` table part of the invariant. */
  predicate NodesValid(nodes: seq<NodeRecord>, next: int) {
    && Ascending(nodes, NodeKey)
    && (forall x :: x in nodes ==> 1 <= x.id < next)
    && (forall x, y :: x in nodes && y in nodes && x.id == y.id ==> x == y)
    && (forall x, y :: x in nodes && y in nodes && x.sha256 == y.sha256 ==> x == y)
  }

  /** The `edges` table part of the invariant. */
  predicate EdgesValid(edges: seq<EdgeRow>, next: int) {
    && Ascending(edges, EdgeKey)
    && (forall e :: e in edges ==> 1 <= e.id < next)
    && (forall e, f ::
          e in edges && f in edges && e.sourceId == f.sourceId && e.targetId == f.targetId ==> e == f)
  }

  lemma EmptyDbValid()
    ensures Valid(EmptyDb)
  {
  }

  /** Appending a row under the next id whose hash is new keeps the store valid. */
  lemma AppendNodeValid(db: Db, x: NodeRecord)
    requires Valid(db) && x.id == db.nextNodeId
    requires forall y :: y in db.nodes ==> y.sha256 != x.sha256
    ensures Valid(db.(nodes := db.nodes + [x], nextNodeId := db.nextNodeId + 1))
  {
    AppendAscending(db.nodes, x, NodeKey, db.nextNodeId);
  }

  /** Appending an edge under the next id whose pair is new keeps the store valid. */
  lemma AppendEdgeValid(db: Db, e: EdgeRow)
    requires Valid(db) && e.id == db.nextEdgeId
    requires forall f :: f in db.edges ==> !(f.sourceId == e.sourceId && f.targetId == e.targetId)
    ensures Valid(db.(edges := db.edges + [e], nextEdgeId := db.nextEdgeId + 1))
  {
    AppendAscending(db.edges, e, EdgeKey, db.nextEdgeId);
  }

  // ----- Column conversions -----

  const Two63 := 0x8000_0000_0000_0000
  const Two64 := 0x1_0000_0000_0000_0000

  /** `usize as i64`: the same 64 bits read as two's complement. */
  function ToI64(n: nat): (v: int)
    ensures -Two63 <= v < Two63
    ensures v % Two64 == n % Two64
  {
    var w := n % Two64;
    if w < Two63 then w else w - Two64
  }

  /** `i64 as usize`: the same 64 bits read as unsigned. */
  function ToUsize(v: int): (n: nat)
    ensures n < Two64
    ensures 0 <= v < Two64 ==> n == v
    ensures -Two64 <= v < 0 ==> n == v + Two64
  {
    v % Two64
  }

  /** A size stored through `as i64` reads back through `as usize` intact. */
  lemma SizeRoundTrip(n: nat)
    requires n < Two64
    ensures ToUsize(ToI64(n)) == n
  {
  }

  /** The `tags` column written for a tag list: NULL when the list is empty,
      its JSON array otherwise. */
  function TagsColumn(tags: seq<string>): (c: Option<TagsText>)
    ensures c.None? <==> |tags| == 0
    ensures c.Some? ==> c.value.TagArray?
  {
    if |tags| == 0 then None else Some(TagArray(tags))
  }

  /** The tag list read from the `tags` column: NULL and text that does
      not decode both read as no tags. */
  function ReadTags(c: Option<TagsText>): (tags: seq<string>)
    ensures c.None? ==> tags == []
    ensures c.Some? && c.value.Unparsable? ==> tags == []
  {
    match c
    case None => []
    case Some(TagArray(items)) => items
    case Some(Unparsable(_)) => []
  }

  /** Tags read back as written, the empty list included. */
  lemma TagsRoundTrip(tags: seq<string>)
    ensures ReadTags(TagsColumn(tags)) == tags
  {
  }

  /** `map_row_to_node_row`: the defaults applied when a column does not
      hold what the row type needs. */
  function ReadRow(x: NodeRecord): (r: NodeRow)
    ensures r.id == x.id
    ensures ParseHash(x.sha256).Some? ==> r.sha256 == ParseHash(x.sha256).value
    ensures ParseHash(x.sha256).None? ==> r.sha256 == ZeroHash
    ensures x.title.Some? ==> r.title == x.title.value
    ensures x.title.None? && x.filename.Some? ==> r.title == x.filename.value
    ensures x.title.None? && x.filename.None? ==> r.title == ""
    ensures r.romType == Nes
    ensures r.tags == ReadTags(x.tags)
  {
    NodeRow(
      x.id,
      ParseHash(x.sha256).GetOr(ZeroHash),
      x.filename,
      x.title.GetOr(x.filename.GetOr("")),
      FromStr(x.romType).GetOr(Nes),
      if x.prgRomSize.Some? then Some(ToUsize(x.prgRomSize.value)) else None,
      if x.chrRomSize.Some? then Some(ToUsize(x.chrRomSize.value)) else None,
      x.hasTrainer,
      x.sourceUrl,
      x.version,
      x.releaseDate,
      ReadTags(x.tags),
      x.description,
      x.sourceFileHeader)
  }

  /** The six user-editable fields of a row. */
  function MetadataOf(r: NodeRow): NodeMetadata {
    NodeMetadata(r.title, r.sourceUrl, r.version, r.releaseDate, r.tags, r.description)
  }

  /** `NodeRow::to_nes_header`: both sizes are required, a missing trainer
      flag means no trainer. */
  function ToNesHeader(r: NodeRow): (h: Option<NesHeader>)
    ensures h.Some? <==> r.prgRomSize.Some? && r.chrRomSize.Some?
    ensures h.Some? ==> && h.value.prgRomSize == r.prgRomSize.value
                        && h.value.chrRomSize == r.chrRomSize.value
                        && (h.value.hasTrainer <==> r.hasTrainer == Some(true))
  {
    if r.prgRomSize.None? || r.chrRomSize.None? then None
    else Some(NesHeader(r.prgRomSize.value, r.chrRomSize.value, r.hasTrainer.GetOr(false)))
  }

  // ----- Queries -----

  function HashIs(text: string): NodeRecord -> bool { (x: NodeRecord) => x.sha256 == text }
  function IdIs(id: int): NodeRecord -> bool { (x: NodeRecord) => x.id == id }
  function PairIs(source: int, target: int): EdgeRow -> bool {
    (e: EdgeRow) => e.sourceId == source && e.targetId == target
  }
  function IdIsNot(id: int): NodeRecord -> bool { (x: NodeRecord) => x.id != id }
  function Avoids(id: int): EdgeRow -> bool { (e: EdgeRow) => e.sourceId != id && e.targetId != id }
  function Touches(id: int): EdgeRow -> bool { (e: EdgeRow) => e.sourceId == id || e.targetId == id }

  /** Whether a node with this content hash is stored. */
  predicate HasHash(db: Db, h: Hash) {
    exists x :: x in db.nodes && x.sha256 == FormatHash(h)
  }

  /** `get_node_by_hash`: the row whose hash column is the hex of `h`. */
  function GetNodeByHash(db: Db, h: Hash): (r: Option<NodeRow>)
    ensures r.Some? <==> HasHash(db, h)
    ensures r.Some? ==> r.value.sha256 == h
    ensures Valid(db) ==> forall x :: x in db.nodes && x.sha256 == FormatHash(h) ==> r == Some(ReadRow(x))
  {
    match Find(db.nodes, HashIs(FormatHash(h)))
    case None => None
    case Some(x) =>
      ParseFormat(h);
      Some(ReadRow(x))
  }

  /** `get_node_by_id`. */
  function GetNodeById(db: Db, id: int): (r: Option<NodeRow>)
    ensures r.Some? <==> exists x :: x in db.nodes && x.id == id
    ensures r.Some? ==> r.value.id == id
    ensures Valid(db) ==> forall x :: x in db.nodes && x.id == id ==> r == Some(ReadRow(x))
  {
    match Find(db.nodes, IdIs(id))
    case None => None
    case Some(x) => Some(ReadRow(x))
  }

  /** `load_all_nodes`: every row, by ascending id. */
  function LoadAllNodes(db: Db): (r: seq<NodeRow>)
    ensures |r| == |db.nodes|
    ensures forall k :: 0 <= k < |r| ==> r[k] == ReadRow(db.nodes[k])
    ensures Valid(db) ==> Ascending(r, RowKey)
  {
    seq(|db.nodes|, k requires 0 <= k < |db.nodes| => ReadRow(db.nodes[k]))
  }

  /** `load_all_edges`: every edge, by ascending id. */
  function LoadAllEdges(db: Db): (r: seq<EdgeRow>)
    ensures forall e :: e in r <==> e in db.edges
    ensures Valid(db) ==> Ascending(r, EdgeKey)
  {
    db.edges
  }

  /** `get_edges_for_node`: the edges with the node at either end. The
      query has no ORDER BY; the model yields them in table order. */
  function GetEdgesForNode(db: Db, id: int): (r: seq<EdgeRow>)
    ensures forall e :: e in r <==> e in db.edges && (e.sourceId == id || e.targetId == id)
  {
    FilterMembers(db.edges, Touches(id));
    Filter(db.edges, Touches(id))
  }

  // ----- Updates -----

  /** The row `insert_node` writes. */
  function NewRecord(id: int, meta: RomMetadata, nm: NodeMetadata): NodeRecord {
    var header := meta.nesHeader;
    NodeRecord(
      id,
      FormatHash(meta.sha256),
      meta.filename,
      Some(nm.title),
      AsStr(meta.romType),
      if header.Some? then Some(ToI64(header.value.prgRomSize)) else None,
      if header.Some? then Some(ToI64(header.value.chrRomSize)) else None,
      if header.Some? then Some(header.value.hasTrainer) else None,
      nm.sourceUrl,
      nm.version,
      nm.releaseDate,
      TagsColumn(nm.tags),
      nm.description,
      meta.sourceFileHeader)
  }

  /** `insert_node`: refuses a hash already stored, otherwise appends a
      row under a fresh id and returns that id. */
  function InsertNode(db: Db, meta: RomMetadata, nm: NodeMetadata): (r: Outcome<(Db, int)>)
    requires Valid(db)
    ensures r.Err? <==> HasHash(db, meta.sha256)
    ensures r.Err? ==> r.error == RomAlreadyExists(FormatHash(meta.sha256))
    ensures r.Ok? ==>
              && Valid(r.value.0)
              && r.value.1 > 0
              && (forall x :: x in db.nodes ==> x.id != r.value.1)
              && r.value.0.nodes == db.nodes + [NewRecord(r.value.1, meta, nm)]
              && r.value.0.edges == db.edges
  {
    if Find(db.nodes, HashIs(FormatHash(meta.sha256))).Some? then
      Err(RomAlreadyExists(FormatHash(meta.sha256)))
    else
      var x := NewRecord(db.nextNodeId, meta, nm);
      AppendNodeValid(db, x);
      Ok((db.(nodes := db.nodes + [x], nextNodeId := db.nextNodeId + 1), db.nextNodeId))
  }

  /** `insert_edge`: refuses an ordered pair already stored. The endpoints
      are not checked against the nodes table. */
  function InsertEdge(db: Db, source: int, target: int, diffPath: string, diffSize: int): (r: Outcome<(Db, int)>)
    requires Valid(db)
    ensures r.Err? <==> exists e :: e in db.edges && e.sourceId == source && e.targetId == target
    ensures r.Err? ==> r.error == DiffAlreadyExists(source, target)
    ensures r.Ok? ==>
              && Valid(r.value.0)
              && r.value.1 > 0
              && (forall e :: e in db.edges ==> e.id != r.value.1)
              && r.value.0.nodes == db.nodes
              && r.value.0.edges == db.edges + [EdgeRow(r.value.1, source, target, diffPath, diffSize)]
  {
    if Find(db.edges, PairIs(source, target)).Some? then
      Err(DiffAlreadyExists(source, target))
    else
      var e := EdgeRow(db.nextEdgeId, source, target, diffPath, diffSize);
      AppendEdgeValid(db, e);
      Ok((db.(edges := db.edges + [e], nextEdgeId := db.nextEdgeId + 1), db.nextEdgeId))
  }

  /** The first statement of `delete_node`: drop every edge touching the node. */
  function DeleteEdgesOf(db: Db, id: int): (r: Db)
    ensures forall e :: e in r.edges <==> e in db.edges && e.sourceId != id && e.targetId != id
    ensures r.nodes == db.nodes
    ensures Valid(db) ==> Valid(r)
  {
    FilterAscending(db.edges, EdgeKey, Avoids(id));
    FilterMembers(db.edges, Avoids(id));
    db.(edges := Filter(db.edges, Avoids(id)))
  }

  /** The second statement of `delete_node`: drop the node's row. */
  function DeleteNodeRow(db: Db, id: int): (r: Db)
    ensures forall x :: x in r.nodes <==> x in db.nodes && x.id != id
    ensures r.edges == db.edges
    ensures Valid(db) ==> Valid(r)
  {
    FilterAscending(db.nodes, NodeKey, IdIsNot(id));
    FilterMembers(db.nodes, IdIsNot(id));
    db.(nodes := Filter(db.nodes, IdIsNot(id)))
  }

  /** `delete_node`: the edges, then the node. The two statements run
      without a transaction; the intermediate `DeleteEdgesOf` state is one
      a failure between them would leave behind. */
  function DeleteNode(db: Db, id: int): (r: Db)
    ensures forall e :: e in r.edges <==> e in db.edges && e.sourceId != id && e.targetId != id
    ensures forall x :: x in r.nodes <==> x in db.nodes && x.id != id
    ensures r.nextNodeId == db.nextNodeId && r.nextEdgeId == db.nextEdgeId
    ensures Valid(db) ==> Valid(r)
  {
    DeleteNodeRow(DeleteEdgesOf(db, id), id)
  }

  /** A row with the six user-editable columns replaced. */
  function WithMetadata(x: NodeRecord, nm: NodeMetadata): NodeRecord {
    x.(title := Some(nm.title), sourceUrl := nm.sourceUrl, version := nm.version,
       releaseDate := nm.releaseDate, tags := TagsColumn(nm.tags), description := nm.description)
  }

  /** The columns `update_node_metadata` leaves alone. */
  predicate SameIdentity(x: NodeRecord, y: NodeRecord) {
    && x.id == y.id && x.sha256 == y.sha256 && x.filename == y.filename && x.romType == y.romType
    && x.prgRomSize == y.prgRomSize && x.chrRomSize == y.chrRomSize && x.hasTrainer == y.hasTrainer
    && x.sourceFileHeader == y.sourceFileHeader
  }

  /** `update_node_metadata`: rewrites the six user-editable columns of the
      row with that id; with no such row nothing changes. */
  function UpdateNodeMetadata(db: Db, id: int, nm: NodeMetadata): (r: Db)
    ensures |r.nodes| == |db.nodes|
    ensures r.edges == db.edges && r.nextNodeId == db.nextNodeId && r.nextEdgeId == db.nextEdgeId
    ensures forall k :: 0 <= k < |db.nodes| ==> SameIdentity(r.nodes[k], db.nodes[k])
    ensures forall k :: 0 <= k < |db.nodes| && db.nodes[k].id != id ==> r.nodes[k] == db.nodes[k]
    ensures forall k :: 0 <= k < |db.nodes| && db.nodes[k].id == id ==> MetadataOf(ReadRow(r.nodes[k])) == nm
    ensures Valid(db) ==> Valid(r)
  {
    var nodes := UpdatedRows(db.nodes, id, nm);
    TagsRoundTrip(nm.tags);
    UpdatedRowsKeepValid(db, id, nm);
    db.(nodes := nodes)
  }

  /** The rows after the update, position by position. */
  function UpdatedRows(nodes: seq<NodeRecord>, id: int, nm: NodeMetadata): (r: seq<NodeRecord>)
    ensures |r| == |nodes|
  {
    seq(|nodes|, k requires 0 <= k < |nodes| =>
          if nodes[k].id == id then WithMetadata(nodes[k], nm) else nodes[k])
  }

  /** Row `k` after the update keeps its identity columns. */
  lemma UpdatedRowIdentity(nodes: seq<NodeRecord>, id: int, nm: NodeMetadata, k: int)
    requires 0 <= k < |nodes|
    ensures SameIdentity(UpdatedRows(nodes, id, nm)[k], nodes[k])
  {
  }

  /** Replacing rows position by position with rows of the same identity
      keeps the `nodes` invariant. */
  lemma SameIdentityNodesValid(nodes: seq<NodeRecord>, nodes': seq<NodeRecord>, next: int)
    requires NodesValid(nodes, next) && |nodes'| == |nodes|
    requires forall k :: 0 <= k < |nodes| ==> SameIdentity(nodes'[k], nodes[k])
    ensures NodesValid(nodes', next)
  {
    assert Ascending(nodes', NodeKey) by {
      forall i, j | 0 <= i < j < |nodes'| ensures NodeKey(nodes'[i]) < NodeKey(nodes'[j]) {
        assert NodeKey(nodes[i]) < NodeKey(nodes[j]);
      }
    }
    forall y | y in nodes' ensures 1 <= y.id < next {
      var k :| 0 <= k < |nodes'| && nodes'[k] == y;
      assert nodes[k] in nodes;
    }
    forall y, z | y in nodes' && z in nodes' && y.id == z.id ensures y == z {
      var i :| 0 <= i < |nodes'| && nodes'[i] == y;
      var j :| 0 <= j < |nodes'| && nodes'[j] == z;
      SameIdIndex(nodes, next, i, j);
    }
    forall y, z | y in nodes' && z in nodes' && y.sha256 == z.sha256 ensures y == z {
      var i :| 0 <= i < |nodes'| && nodes'[i] == y;
      var j :| 0 <= j < |nodes'| && nodes'[j] == z;
      assert nodes[i] in nodes && nodes[j] in nodes;
      SameIdIndex(nodes, next, i, j);
    }
  }

  /** Rows of an ascending table with equal ids sit at the same position. */
  lemma SameIdIndex(nodes: seq<NodeRecord>, next: int, i: int, j: int)
    requires NodesValid(nodes, next)
    requires 0 <= i < |nodes| && 0 <= j < |nodes| && nodes[i].id == nodes[j].id
    ensures i == j
  {
    var ki, kj := NodeKey(nodes[i]), NodeKey(nodes[j]);
  }

  /** Rewriting metadata keeps the store valid. */
  lemma UpdatedRowsKeepValid(db: Db, id: int, nm: NodeMetadata)
    ensures Valid(db) ==> Valid(db.(nodes := UpdatedRows(db.nodes, id, nm)))
  {
    var nodes := UpdatedRows(db.nodes, id, nm);
    if Valid(db) {
      forall k | 0 <= k < |db.nodes| ensures SameIdentity(nodes[k], db.nodes[k]) {
        UpdatedRowIdentity(db.nodes, id, nm, k);
      }
      SameIdentityNodesValid(db.nodes, nodes, db.nextNodeId);
    }
  }

  // ----- Properties relating the operations -----

  /** A row written by `insert_node` reads back, by hash and by the returned
      id, with the given hash, file name, type, user metadata (tags
      included, an empty list too), header and raw header bytes. */
  lemma InsertThenGet(db: Db, meta: RomMetadata, nm: NodeMetadata)
    requires Valid(db) && !HasHash(db, meta.sha256)
    requires meta.nesHeader.Some? ==> meta.nesHeader.value.prgRomSize < Two64
                                      && meta.nesHeader.value.chrRomSize < Two64
    ensures InsertNode(db, meta, nm).Ok?
    ensures var (db', id) := InsertNode(db, meta, nm).value;
            && GetNodeByHash(db', meta.sha256) == GetNodeById(db', id)
            && GetNodeById(db', id).Some?
            && var row := GetNodeById(db', id).value;
               && row.sha256 == meta.sha256
               && row.filename == meta.filename
               && row.romType == meta.romType
               && MetadataOf(row) == nm
               && ToNesHeader(row) == meta.nesHeader
               && row.sourceFileHeader == meta.sourceFileHeader
  {
    var (db', id) := InsertNode(db, meta, nm).value;
    var x := NewRecord(id, meta, nm);
    assert db'.nodes == db.nodes + [x];
    assert x in db'.nodes;
    ParseFormat(meta.sha256);
    TagsRoundTrip(nm.tags);
    if meta.nesHeader.Some? {
      SizeRoundTrip(meta.nesHeader.value.prgRomSize);
      SizeRoundTrip(meta.nesHeader.value.chrRomSize);
    }
  }

  /** Inserting the same content hash twice fails the second time. */
  lemma InsertTwiceFails(db: Db, meta: RomMetadata, nm: NodeMetadata, meta2: RomMetadata, nm2: NodeMetadata)
    requires Valid(db) && InsertNode(db, meta, nm).Ok?
    requires meta2.sha256 == meta.sha256
    ensures InsertNode(InsertNode(db, meta, nm).value.0, meta2, nm2)
            == Err(RomAlreadyExists(FormatHash(meta.sha256)))
  {
    var db' := InsertNode(db, meta, nm).value.0;
    assert NewRecord(db.nextNodeId, meta, nm) in db'.nodes by {
      assert db'.nodes == db.nodes + [NewRecord(db.nextNodeId, meta, nm)];
    }
  }

  /** After `a -> b` is stored, a second `a -> b` is refused while `b -> a`
      is accepted, provided it was not stored before. */
  lemma EdgePairsAreOrdered(db: Db, a: int, b: int, p: string, n: int, q: string, m: int)
    requires Valid(db) && InsertEdge(db, a, b, p, n).Ok?
    requires a != b
    requires forall e :: e in db.edges ==> !(e.sourceId == b && e.targetId == a)
    ensures InsertEdge(InsertEdge(db, a, b, p, n).value.0, a, b, q, m) == Err(DiffAlreadyExists(a, b))
    ensures InsertEdge(InsertEdge(db, a, b, p, n).value.0, b, a, q, m).Ok?
  {
    var (db', id) := InsertEdge(db, a, b, p, n).value;
    assert EdgeRow(id, a, b, p, n) in db'.edges;
  }

  /** After `delete_node(id)` neither the node nor any edge touching it can
      be found. */
  lemma DeleteRemovesAll(db: Db, id: int)
    ensures GetNodeById(DeleteNode(db, id), id).None?
    ensures GetEdgesForNode(DeleteNode(db, id), id) == []
  {
    FilterNoneKept(DeleteNode(db, id).edges, Touches(id));
  }

  /** `delete_node(id)` leaves every other node findable by id as before. */
  lemma DeleteKeepsOtherIds(db: Db, id: int, other: int)
    requires Valid(db) && other != id
    ensures GetNodeById(DeleteNode(db, id), other) == GetNodeById(db, other)
  {
    var r := DeleteNode(db, id);
    if GetNodeById(db, other).Some? {
      var x :| x in db.nodes && x.id == other;
      assert x in r.nodes;
    }
  }

  /** `delete_node(id)` leaves every other node findable by hash as before. */
  lemma DeleteKeepsOtherHashes(db: Db, id: int, h: Hash)
    requires Valid(db)
    requires forall x :: x in db.nodes && x.sha256 == FormatHash(h) ==> x.id != id
    ensures GetNodeByHash(DeleteNode(db, id), h) == GetNodeByHash(db, h)
  {
    var r := DeleteNode(db, id);
    if HasHash(db, h) {
      var x :| x in db.nodes && x.sha256 == FormatHash(h);
      assert x in r.nodes;
    }
  }

  /** `update_node_metadata` on an id no row carries changes nothing. */
  lemma UpdateUnknownId(db: Db, id: int, nm: NodeMetadata)
    requires GetNodeById(db, id).None?
    ensures UpdateNodeMetadata(db, id, nm) == db
  {
    var r := UpdateNodeMetadata(db, id, nm);
    forall k | 0 <= k < |db.nodes| ensures r.nodes[k] == db.nodes[k] {
      assert db.nodes[k] in db.nodes;
    }
  }

  /** `update_node_metadata` on a stored id: the row read back carries the
      new metadata and is otherwise the row it was. */
  lemma UpdateThenGet(db: Db, id: int, nm: NodeMetadata)
    requires Valid(db) && GetNodeById(db, id).Some?
    ensures GetNodeById(UpdateNodeMetadata(db, id, nm), id).Some?
    ensures var before := GetNodeById(db, id).value;
            var after := GetNodeById(UpdateNodeMetadata(db, id, nm), id).value;
            && MetadataOf(after) == nm
            && after.sha256 == before.sha256 && after.filename == before.filename
            && after.romType == before.romType
            && ToNesHeader(after) == ToNesHeader(before)
            && after.sourceFileHeader == before.sourceFileHeader
  {
    var r := UpdateNodeMetadata(db, id, nm);
    var x :| x in db.nodes && x.id == id;
    var k :| 0 <= k < |db.nodes| && db.nodes[k] == x;
    var y := r.nodes[k];
    assert y in r.nodes;
    assert GetNodeById(db, id) == Some(ReadRow(x));
    assert GetNodeById(r, id) == Some(ReadRow(y));
    SameIdentityReads(y, x);
  }

  /** Rows of the same identity read back with the same hash, file name,
      type, header and raw header. */
  lemma SameIdentityReads(y: NodeRecord, x: NodeRecord)
    requires SameIdentity(y, x)
    ensures var a, b := ReadRow(y), ReadRow(x);
            && a.sha256 == b.sha256 && a.filename == b.filename && a.romType == b.romType
            && ToNesHeader(a) == ToNesHeader(b) && a.sourceFileHeader == b.sourceFileHeader
  {
  }
}
