/** src/exchange/import.rs: `analyze_import` reads a manifest and reports
    the files whose stored metadata differs; `execute_import` merges the
    files, then the edges, then copies the patch files under a checksum
    gate. The import folder and the diffs directory are maps from name to
    contents; SHA-256, base64 and the JSON decoder are parameters. */
module ExchangeImport {
  import opened Wrappers
  import opened Hex
  import opened Errors
  import opened RomTypes
  import opened Seqs
  import opened RomHash
  import opened Schema
  import opened StorageManager
  import opened ExchangeFormat
  import MU = ManagerUpdates
  import G = Graph
  import R = Repository

  /** `BASE64.decode`, None when the text is not base64. */
  type Base64Decode = string -> Option<seq<Byte>>

  /** `serde_json::from_str` for a manifest, None when the text does not
      parse as one. */
  type JsonDecode = string -> Option<ExportManifest>

  /** UTF-8 decoding, as `fs::read_to_string` does it: None when the bytes
      are not valid UTF-8. */
  type Utf8Decode = seq<Byte> -> Option<string>

  // ----- Converting a manifest entry -----

  /** `node_metadata_from_export`: the six user-editable fields. */
  function NodeMetadataFromExport(node: ExportNode): (nm: R.NodeMetadata)
    ensures nm.title == node.title && nm.version == node.version && nm.sourceUrl == node.sourceUrl
    ensures nm.releaseDate == node.releaseDate && nm.tags == node.tags && nm.description == node.description
  {
    R.NodeMetadata(node.title, node.sourceUrl, node.version, node.releaseDate, node.tags, node.description)
  }

  /** `rom_metadata_from_export`: the hash must parse and the type must be
      known; a header that is not base64 is dropped; no iNES header is
      carried over. */
  function RomMetadataFromExport(node: ExportNode, b64: Base64Decode): (r: Outcome<RomMetadata>)
    ensures ParseHash(node.sha256).None? ==> r == Err(Import(InvalidHash(node.sha256)))
    ensures ParseHash(node.sha256).Some? && FromStr(node.romType).None? ==> r == Err(Import(UnknownRomType(node.romType)))
    ensures r.Ok? <==> ParseHash(node.sha256).Some? && FromStr(node.romType).Some?
    ensures r.Ok? ==>
              && r.value.sha256 == ParseHash(node.sha256).value && r.value.romType == FromStr(node.romType).value
              && r.value.filename == node.filename && r.value.nesHeader.None?
              && (node.sourceFileHeader.None? ==> r.value.sourceFileHeader.None?)
              && (node.sourceFileHeader.Some? ==> r.value.sourceFileHeader == b64(node.sourceFileHeader.value))
  {
    match ParseHash(node.sha256)
    case None => Err(Import(InvalidHash(node.sha256)))
    case Some(sha256) =>
      match FromStr(node.romType)
      case None => Err(Import(UnknownRomType(node.romType)))
      case Some(romType) =>
        var header := match node.sourceFileHeader
                      case None => None
                      case Some(text) => b64(text);
        Ok(RomMetadata(romType, sha256, node.filename, None, header))
  }

  /** Exporting a row and reading its entry back gives the row's user
      metadata. */
  lemma MetadataRoundTrip(row: R.NodeRow, enc: Base64Encode)
    ensures NodeMetadataFromExport(FromNodeRow(row, enc)) == R.MetadataOf(row)
  {
  }

  /** Exporting a row and reading its entry back gives the row's hash, type,
      file name and raw header, provided base64 decodes what it encoded. */
  lemma RomMetadataRoundTrip(row: R.NodeRow, enc: Base64Encode, dec: Base64Decode)
    requires row.sourceFileHeader.Some? ==> dec(enc(row.sourceFileHeader.value)) == Some(row.sourceFileHeader.value)
    ensures RomMetadataFromExport(FromNodeRow(row, enc), dec)
            == Ok(RomMetadata(row.romType, row.sha256, row.filename, None, row.sourceFileHeader))
  {
  }

  // ----- Comparing metadata -----

  /** A field that differs, with both sides as text. */
  datatype FieldDiff = FieldDiff(field: string, localValue: string, importValue: string)

  /** A stored file whose metadata the import would change. */
  datatype NodeConflict = NodeConflict(sha256: string, title: string, diffs: seq<FieldDiff>)

  /** `as_deref().unwrap_or("")`. */
  function OrEmpty(o: Option<string>): string {
    match o
    case None => ""
    case Some(s) => s
  }

  /** `compare_field`: one diff when the texts differ. */
  function CompareField(field: string, local: string, imported: string): (d: seq<FieldDiff>)
    ensures d == [] <==> local == imported
    ensures d != [] ==> d == [FieldDiff(field, local, imported)]
  {
    if local != imported then [FieldDiff(field, local, imported)] else []
  }

  /** `compare_optional`: a missing value reads as the empty text, so None
      and Some("") never differ. */
  function CompareOptional(field: string, local: Option<string>, imported: Option<string>): (d: seq<FieldDiff>)
    ensures d == [] <==> (local == imported || {local, imported} == {None, Some("")})
    ensures d != [] ==> d == [FieldDiff(field, OrEmpty(local), OrEmpty(imported))]
  {
    CompareField(field, OrEmpty(local), OrEmpty(imported))
  }

  /** The metadata as `analyze_import` compares it: absent texts as empty
      ones, tags by their ", "-joined text. */
  datatype Compared = Compared(title: string, version: string, sourceUrl: string, releaseDate: string,
                               description: string, tags: string)

  function ComparedOf(nm: R.NodeMetadata): Compared {
    Compared(nm.title, OrEmpty(nm.version), OrEmpty(nm.sourceUrl), OrEmpty(nm.releaseDate),
             OrEmpty(nm.description), Join(nm.tags, ", "))
  }

  /** The stored row and the manifest entry compare equal. */
  predicate Agrees(local: R.NodeRow, node: ExportNode) {
    ComparedOf(R.MetadataOf(local)) == ComparedOf(NodeMetadataFromExport(node))
  }

  /** The field comparisons of `analyze_import`, in its order: title,
      version, source URL, release date, description, tags. */
  function FieldDiffs(local: R.NodeRow, node: ExportNode): (d: seq<FieldDiff>)
    ensures d == [] <==> Agrees(local, node)
    ensures |d| <= 6
  {
    var tagsLocal, tagsImport := Join(local.tags, ", "), Join(node.tags, ", ");
    CompareField("title", local.title, node.title)
    + CompareOptional("version", local.version, node.version)
    + CompareOptional("source_url", local.sourceUrl, node.sourceUrl)
    + CompareOptional("release_date", local.releaseDate, node.releaseDate)
    + CompareOptional("description", local.description, node.description)
    + (if tagsLocal != tagsImport then [FieldDiff("tags", tagsLocal, tagsImport)] else [])
  }

  /** Tags are compared by their joined text, so a single tag holding the
      separator agrees with the two tags it joins. */
  lemma JoinedTagsAgree(local: R.NodeRow, node: ExportNode)
    requires local.tags == ["a, b"] && node.tags == ["a", "b"]
    requires R.MetadataOf(local).(tags := []) == NodeMetadataFromExport(node).(tags := [])
    ensures local.tags != node.tags && FieldDiffs(local, node) == []
  {
    assert Join(node.tags, ", ") == "a" + ", " + Join(["b"], ", ");
  }

  /** The manifest entry names a stored file whose metadata differs. */
  predicate Conflicted(db: R.Db, node: ExportNode) {
    && ParseHash(node.sha256).Some?
    && R.GetNodeByHash(db, ParseHash(node.sha256).value).Some?
    && !Agrees(R.GetNodeByHash(db, ParseHash(node.sha256).value).value, node)
  }

  /** The conflict reported for an entry: its hash text, its title and the
      differing fields; an entry that names no stored file has none. */
  function ConflictOf(db: R.Db, node: ExportNode): (c: NodeConflict)
    ensures c.sha256 == node.sha256 && c.title == node.title
    ensures Conflicted(db, node) ==> c.diffs != []
  {
    var diffs := match ParseHash(node.sha256)
                 case None => []
                 case Some(h) =>
                   match R.GetNodeByHash(db, h)
                   case None => []
                   case Some(local) => FieldDiffs(local, node);
    NodeConflict(node.sha256, node.title, diffs)
  }

  function IsConflict(db: R.Db): ExportNode -> bool {
    (n: ExportNode) => Conflicted(db, n)
  }

  function ConflictFor(db: R.Db): ExportNode -> NodeConflict {
    (n: ExportNode) => ConflictOf(db, n)
  }

  /** One turn of the loop of `analyze_import` over the manifest's files:
      a hash that does not parse is an error, an entry naming a stored file
      with different metadata gives a conflict, any other entry nothing. */
  function ConflictStep(db: R.Db): ExportNode -> Outcome<Option<NodeConflict>> {
    (node: ExportNode) =>
      match ParseHash(node.sha256)
      case None => Err(Import(InvalidHash(node.sha256)))
      case Some(h) =>
        match R.GetNodeByHash(db, h)
        case None => Ok(None)
        case Some(local) =>
          var diffs := FieldDiffs(local, node);
          if diffs != [] then Ok(Some(NodeConflict(node.sha256, node.title, diffs))) else Ok(None)
  }

  /** The whole loop: it fails exactly when some hash does not parse. */
  function Conflicts(db: R.Db, files: seq<ExportNode>): (r: Outcome<seq<NodeConflict>>)
    ensures r.Ok? <==> forall k :: 0 <= k < |files| ==> ParseHash(files[k].sha256).Some?
  {
    assert forall k :: 0 <= k < |files| ==> (ConflictStep(db)(files[k]).Ok? <==> ParseHash(files[k].sha256).Some?);
    Collect(files, ConflictStep(db))
  }

  /** The conflicts are those of the conflicted entries, in manifest order. */
  lemma ConflictsExactly(db: R.Db, files: seq<ExportNode>)
    requires Conflicts(db, files).Ok?
    ensures Conflicts(db, files).value == Map(Filter(files, IsConflict(db)), ConflictFor(db))
  {
    CollectKept(files, ConflictStep(db), IsConflict(db), ConflictFor(db));
  }

  /** An error names the first entry whose hash does not parse. */
  lemma ConflictsErrorNamesEntry(db: R.Db, files: seq<ExportNode>) returns (k: nat)
    requires Conflicts(db, files).Err?
    ensures k < |files| && ParseHash(files[k].sha256).None?
    ensures Conflicts(db, files).error == Import(InvalidHash(files[k].sha256))
    ensures forall j :: 0 <= j < k ==> ParseHash(files[j].sha256).Some?
  {
    k := CollectError(files, ConflictStep(db));
  }

  /** `analyze_import`: read `index.json` as text, parse it, check the
      data revision, then look for conflicts. */
  function AnalyzeImport(folder: Files, utf8: Utf8Decode, json: JsonDecode, db: R.Db)
    : (r: Outcome<(ExportManifest, seq<NodeConflict>)>)
    ensures IndexFile !in folder || utf8(folder[IndexFile]).None? ==> r == Err(Import(ReadFailed(IndexFile)))
    ensures r.Ok? ==> && IndexFile in folder && utf8(folder[IndexFile]).Some?
                      && json(utf8(folder[IndexFile]).value) == Some(r.value.0)
    ensures r.Ok? ==> r.value.0.header.dataRevision == DataRevision
    ensures IndexFile in folder && utf8(folder[IndexFile]).Some? ==>
              var text := utf8(folder[IndexFile]).value;
              && (json(text).None? ==> r == Err(Json))
              && (json(text).Some? ==>
                    var m := json(text).value;
                    && (m.header.dataRevision != DataRevision ==>
                          r == Err(Import(RevisionMismatch(m.header.dataRevision, DataRevision))))
                    && (m.header.dataRevision == DataRevision ==>
                          (r.Ok? <==> Conflicts(db, m.files).Ok?)
                          && (r.Ok? ==> r.value.1 == Conflicts(db, m.files).value)))
  {
    if IndexFile !in folder then Err(Import(ReadFailed(IndexFile)))
    else
      match utf8(folder[IndexFile])
      case None => Err(Import(ReadFailed(IndexFile)))
      case Some(text) =>
        match json(text)
        case None => Err(Json)
        case Some(m) =>
          if m.header.dataRevision != DataRevision then
            Err(Import(RevisionMismatch(m.header.dataRevision, DataRevision)))
          else
            var conflicts :- Conflicts(db, m.files);
            Ok((m, conflicts))
  }

  // ----- Merging -----

  /** The counters `execute_import` reports. */
  datatype ImportResult = ImportResult(nodesAdded: nat, nodesSkipped: nat, nodesOverwritten: nat,
                                       edgesAdded: nat, edgesSkipped: nat, diffsCopied: nat)

  const NoCounts := ImportResult(0, 0, 0, 0, 0, 0)

  function NodeCount(c: ImportResult): nat {
    c.nodesAdded + c.nodesSkipped + c.nodesOverwritten
  }

  /** The state the merge loops carry: the store, the graph, the ids found
      or assigned for each manifest hash text, and the counters. */
  datatype Merge = Merge(db: R.Db, graph: G.RomGraph, ids: map<string, int>, counts: ImportResult)

  /** The store and graph are well formed, and every text in the id map
      is a hash (the edge loop unwraps its parse). */
  predicate MergeValid(m: Merge) {
    && R.Valid(m.db) && G.Valid(m.graph)
    && forall t :: t in m.ids ==> ParseHash(t).Some?
  }

  /** Every text in the id map names a stored row. */
  predicate IdsStored(m: Merge)
    requires MergeValid(m)
  {
    forall t :: t in m.ids ==> R.HasHash(m.db, ParseHash(t).value)
  }

  /** `b` keeps the rows of `a` in place, with their hashes, and may add
      rows after them. */
  predicate HashesKept(a: R.Db, b: R.Db) {
    |a.nodes| <= |b.nodes| && forall k :: 0 <= k < |a.nodes| ==> b.nodes[k].sha256 == a.nodes[k].sha256
  }

  /** A hash stored before is stored after. */
  lemma KeptHashStored(a: R.Db, b: R.Db, h: Hash)
    requires HashesKept(a, b) && R.HasHash(a, h)
    ensures R.HasHash(b, h)
  {
    var x :| x in a.nodes && x.sha256 == FormatHash(h);
    var k :| 0 <= k < |a.nodes| && a.nodes[k] == x;
    assert b.nodes[k] in b.nodes;
  }

  /** One manifest file: a stored hash is overwritten or skipped, a new one
      is inserted into the store and the graph. A failure writes nothing. */
  function ImportNode(m: Merge, node: ExportNode, overwrite: bool, b64: Base64Decode): (r: Outcome<Merge>)
    requires MergeValid(m)
    ensures ParseHash(node.sha256).None? ==> r == Err(Import(InvalidHash(node.sha256)))
    ensures r.Ok? ==>
              && MergeValid(r.value)
              && ParseHash(node.sha256).Some?
              && var h := ParseHash(node.sha256).value;
                 && R.HasHash(r.value.db, h)
                 && r.value.ids == m.ids[node.sha256 := R.GetNodeByHash(r.value.db, h).value.id]
                 && NodeCount(r.value.counts) == NodeCount(m.counts) + 1
                 && r.value.counts.(nodesAdded := 0, nodesSkipped := 0, nodesOverwritten := 0)
                    == m.counts.(nodesAdded := 0, nodesSkipped := 0, nodesOverwritten := 0)
                 && r.value.db.edges == m.db.edges && r.value.graph.edges == m.graph.edges
                 && HashesKept(m.db, r.value.db)
    ensures ParseHash(node.sha256).Some? && R.HasHash(m.db, ParseHash(node.sha256).value) ==>
              && r.Ok?
              && (!overwrite ==> r.value.db == m.db && r.value.graph == m.graph
                                 && r.value.counts.nodesSkipped == m.counts.nodesSkipped + 1)
              && (overwrite ==> r.value.counts.nodesOverwritten == m.counts.nodesOverwritten + 1
                                && R.MetadataOf(R.GetNodeByHash(r.value.db, ParseHash(node.sha256).value).value)
                                   == NodeMetadataFromExport(node))
    ensures ParseHash(node.sha256).Some? && !R.HasHash(m.db, ParseHash(node.sha256).value) ==>
              && (r.Ok? <==> RomMetadataFromExport(node, b64).Ok?)
              && (r.Err? ==> r == Err(RomMetadataFromExport(node, b64).error))
              && (r.Ok? ==> r.value.counts.nodesAdded == m.counts.nodesAdded + 1
                            && r.value.db.nodes[..|m.db.nodes|] == m.db.nodes)
  {
    match ParseHash(node.sha256)
    case None => Err(Import(InvalidHash(node.sha256)))
    case Some(h) =>
      match R.GetNodeByHash(m.db, h)
      case Some(existing) =>
        ImportExisting(m, node, h, existing, overwrite)
      case None =>
        match RomMetadataFromExport(node, b64)
        case Err(e) => Err(e)
        case Ok(meta) => Ok(ImportNew(m, node, h, meta))
  }

  /** A manifest file whose hash is stored: its metadata replaces the
      stored one when overwriting, and the graph node's title and version
      follow. */
  function ImportExisting(m: Merge, node: ExportNode, h: Hash, existing: R.NodeRow, overwrite: bool): (r: Outcome<Merge>)
    requires MergeValid(m) && ParseHash(node.sha256) == Some(h) && R.GetNodeByHash(m.db, h) == Some(existing)
    ensures r.Ok? && MergeValid(r.value)
    ensures R.HasHash(r.value.db, h) && R.GetNodeByHash(r.value.db, h).value.id == existing.id
    ensures r.value.ids == m.ids[node.sha256 := existing.id]
    ensures r.value.db.edges == m.db.edges && r.value.graph.edges == m.graph.edges
    ensures HashesKept(m.db, r.value.db)
    ensures !overwrite ==> r.value == m.(ids := r.value.ids, counts := m.counts.(nodesSkipped := m.counts.nodesSkipped + 1))
    ensures overwrite ==>
              && r.value.counts == m.counts.(nodesOverwritten := m.counts.nodesOverwritten + 1)
              && R.MetadataOf(R.GetNodeByHash(r.value.db, h).value) == NodeMetadataFromExport(node)
  {
    var ids := m.ids[node.sha256 := existing.id];
    if !overwrite then
      Ok(m.(ids := ids, counts := m.counts.(nodesSkipped := m.counts.nodesSkipped + 1)))
    else
      var nm := NodeMetadataFromExport(node);
      var db := R.UpdateNodeMetadata(m.db, existing.id, nm);
      UpdateKeepsHash(m.db, h, existing.id, nm);
      var g := match G.GetNodeByHash(m.graph, h)
               case None => m.graph
               case Some(i) => G.SetTitleVersion(m.graph, i, nm.title, nm.version);
      Ok(Merge(db, g, ids, m.counts.(nodesOverwritten := m.counts.nodesOverwritten + 1)))
  }

  /** Overwriting the metadata of a stored row keeps its hash and id, and
      the row read back by hash carries the new metadata. */
  lemma UpdateKeepsHash(db: R.Db, h: Hash, id: int, nm: R.NodeMetadata)
    requires R.Valid(db) && R.GetNodeByHash(db, h).Some? && R.GetNodeByHash(db, h).value.id == id
    ensures var db' := R.UpdateNodeMetadata(db, id, nm);
            && R.HasHash(db', h)
            && R.GetNodeByHash(db', h).value.id == id
            && R.MetadataOf(R.GetNodeByHash(db', h).value) == nm
  {
    var db' := R.UpdateNodeMetadata(db, id, nm);
    var x :| x in db.nodes && x.sha256 == FormatHash(h);
    var k :| 0 <= k < |db.nodes| && db.nodes[k] == x;
    var y := db'.nodes[k];
    assert y in db'.nodes && y.sha256 == x.sha256 && y.id == x.id;
    assert R.GetNodeByHash(db, h) == Some(R.ReadRow(x));
    assert R.GetNodeByHash(db', h) == Some(R.ReadRow(y));
  }

  /** A manifest file with a new hash: a row is inserted and a graph node
      added with the row's id. */
  function ImportNew(m: Merge, node: ExportNode, h: Hash, meta: RomMetadata): (r: Merge)
    requires MergeValid(m) && ParseHash(node.sha256) == Some(h) && !R.HasHash(m.db, h)
    requires meta.sha256 == h
    ensures MergeValid(r)
    ensures R.HasHash(r.db, h)
    ensures r.ids == m.ids[node.sha256 := R.GetNodeByHash(r.db, h).value.id]
    ensures r.counts == m.counts.(nodesAdded := m.counts.nodesAdded + 1)
    ensures r.db.edges == m.db.edges && r.graph.edges == m.graph.edges
    ensures |r.db.nodes| == |m.db.nodes| + 1 && r.db.nodes[..|m.db.nodes|] == m.db.nodes
    ensures HashesKept(m.db, r.db)
  {
    var nm := NodeMetadataFromExport(node);
    var (db, id) := R.InsertNode(m.db, meta, nm).value;
    var x := R.NewRecord(id, meta, nm);
    assert db.nodes == m.db.nodes + [x] && x in db.nodes;
    assert db.nodes[..|m.db.nodes|] == m.db.nodes;
    var g := G.AddNode(m.graph, G.RomNode(id, h, node.filename, nm.title, nm.version, meta.romType)).0;
    assert R.GetNodeByHash(db, h) == Some(R.ReadRow(x));
    Merge(db, g, m.ids[node.sha256 := id], m.counts.(nodesAdded := m.counts.nodesAdded + 1))
  }

  /** The file loop: it stops at the first error, keeping what the earlier
      files wrote. */
  function ImportNodes(m: Merge, files: seq<ExportNode>, overwrite: bool, b64: Base64Decode): (r: (Merge, Option<DromosError>))
    requires MergeValid(m)
    ensures MergeValid(r.0) && HashesKept(m.db, r.0.db)
    ensures r.0.db.edges == m.db.edges && r.0.graph.edges == m.graph.edges
    decreases |files|
  {
    if |files| == 0 then (m, None)
    else
      match ImportNode(m, files[0], overwrite, b64)
      case Err(err) => (m, Some(err))
      case Ok(m') => ImportNodes(m', files[1..], overwrite, b64)
  }

  /** A successful file loop counts each file once, as added, skipped or
      overwritten, records an id for each, and moves no other counter. */
  lemma {:induction false} ImportNodesCount(m: Merge, files: seq<ExportNode>, overwrite: bool, b64: Base64Decode)
    requires MergeValid(m)
    ensures var r := ImportNodes(m, files, overwrite, b64);
            && r.0.counts.(nodesAdded := 0, nodesSkipped := 0, nodesOverwritten := 0)
               == m.counts.(nodesAdded := 0, nodesSkipped := 0, nodesOverwritten := 0)
            && (r.1.None? ==> NodeCount(r.0.counts) == NodeCount(m.counts) + |files|)
            && (r.1.None? ==> forall k :: 0 <= k < |files| ==> files[k].sha256 in r.0.ids)
    decreases |files|
  {
    if |files| > 0 {
      var step := ImportNode(m, files[0], overwrite, b64);
      if step.Ok? {
        var m' := step.value;
        assert ImportNodes(m, files, overwrite, b64) == ImportNodes(m', files[1..], overwrite, b64);
        ImportNodesCount(m', files[1..], overwrite, b64);
        ImportNodesKeepIds(m', files[1..], overwrite, b64);
        var r := ImportNodes(m, files, overwrite, b64);
        if r.1.None? {
          forall k | 0 <= k < |files| ensures files[k].sha256 in r.0.ids {
            if k > 0 { assert files[k] == files[1..][k - 1]; }
          }
        }
      }
    }
  }

  /** The file loop never forgets an id it recorded. */
  lemma {:induction false} ImportNodesKeepIds(m: Merge, files: seq<ExportNode>, overwrite: bool, b64: Base64Decode)
    requires MergeValid(m)
    ensures m.ids.Keys <= ImportNodes(m, files, overwrite, b64).0.ids.Keys
    decreases |files|
  {
    if |files| > 0 && ImportNode(m, files[0], overwrite, b64).Ok? {
      var m' := ImportNode(m, files[0], overwrite, b64).value;
      assert ImportNodes(m, files, overwrite, b64) == ImportNodes(m', files[1..], overwrite, b64);
      ImportNodesKeepIds(m', files[1..], overwrite, b64);
    }
  }

  /** Every recorded id text names a stored row, before and after the file
      loop. */
  lemma {:induction false} ImportNodesIdsStored(m: Merge, files: seq<ExportNode>, overwrite: bool, b64: Base64Decode)
    requires MergeValid(m) && IdsStored(m)
    ensures IdsStored(ImportNodes(m, files, overwrite, b64).0)
    decreases |files|
  {
    if |files| > 0 && ImportNode(m, files[0], overwrite, b64).Ok? {
      var m' := ImportNode(m, files[0], overwrite, b64).value;
      forall t | t in m'.ids ensures R.HasHash(m'.db, ParseHash(t).value) {
        if t != files[0].sha256 {
          KeptHashStored(m.db, m'.db, ParseHash(t).value);
        }
      }
      assert ImportNodes(m, files, overwrite, b64) == ImportNodes(m', files[1..], overwrite, b64);
      ImportNodesIdsStored(m', files[1..], overwrite, b64);
    }
  }

  /** `b` keeps every row of `a` as it was, in place, and may add rows
      after them. */
  predicate RowsKept(a: R.Db, b: R.Db) {
    |a.nodes| <= |b.nodes| && forall k :: 0 <= k < |a.nodes| ==> b.nodes[k] == a.nodes[k]
  }

  /** Without overwriting, the rows stored before the file loop are still
      there, metadata and all, ahead of the new ones. */
  lemma {:induction false} ImportNodesKeepRows(m: Merge, files: seq<ExportNode>, b64: Base64Decode)
    requires MergeValid(m)
    ensures RowsKept(m.db, ImportNodes(m, files, false, b64).0.db)
    decreases |files|
  {
    if |files| > 0 && ImportNode(m, files[0], false, b64).Ok? {
      var m' := ImportNode(m, files[0], false, b64).value;
      assert ImportNodes(m, files, false, b64) == ImportNodes(m', files[1..], false, b64);
      ImportNodesKeepRows(m', files[1..], b64);
      assert RowsKept(m.db, m'.db) by {
        if m'.db != m.db {
          forall k | 0 <= k < |m.db.nodes| ensures m'.db.nodes[k] == m.db.nodes[k] {
            assert m'.db.nodes[..|m.db.nodes|][k] == m'.db.nodes[k];
          }
        }
      }
    }
  }

  // ----- Edges -----

  /** A manifest hash text names a ROM: one of the imported files, or a
      stored one. */
  predicate Resolved(m: Merge, text: string) {
    text in m.ids || (ParseHash(text).Some? && R.HasHash(m.db, ParseHash(text).value))
  }

  /** Both endpoints of a manifest edge name ROMs. */
  function Resolves(m: Merge): ExportEdge -> bool {
    (e: ExportEdge) => Resolved(m, e.sourceSha256) && Resolved(m, e.targetSha256)
  }

  /** An endpoint's db id: the id recorded for an imported file, else the
      stored row's; None when neither knows the hash, an error when the
      text is not a hash. */
  function ResolveId(m: Merge, text: string): (r: Outcome<Option<int>>)
    requires MergeValid(m)
    ensures r.Err? <==> text !in m.ids && ParseHash(text).None?
    ensures r.Err? ==> r.error == Import(InvalidHash(text))
    ensures r.Ok? ==> (r.value.Some? <==> Resolved(m, text))
    ensures r.Ok? && r.value.Some? ==> ParseHash(text).Some?
    ensures text in m.ids ==> r == Ok(Some(m.ids[text]))
    ensures r.Ok? && r.value.Some? && text !in m.ids ==>
              R.GetNodeByHash(m.db, ParseHash(text).value).value.id == r.value.value
  {
    if text in m.ids then Ok(Some(m.ids[text]))
    else
      match ParseHash(text)
      case None => Err(Import(InvalidHash(text)))
      case Some(h) =>
        match R.GetNodeByHash(m.db, h)
        case None => Ok(None)
        case Some(row) => Ok(Some(row.id))
  }

  /** One manifest edge: unresolved endpoints skip it uncounted (the
      target is looked at only once the source resolves); a stored pair
      counts as skipped; otherwise a row is inserted, and a graph edge too
      when the graph holds both ends. */
  function ImportEdge(m: Merge, e: ExportEdge): (r: Outcome<Merge>)
    requires MergeValid(m)
    ensures r.Err? ==> (r.error == Import(InvalidHash(e.sourceSha256)) && ParseHash(e.sourceSha256).None?)
                       || (r.error == Import(InvalidHash(e.targetSha256)) && ParseHash(e.targetSha256).None?)
    ensures r.Ok? ==>
              && MergeValid(r.value) && r.value.ids == m.ids && r.value.db.nodes == m.db.nodes
              && r.value.graph.slots == m.graph.slots && r.value.graph.hashToNode == m.graph.hashToNode
              && r.value.graph.dbIdToNode == m.graph.dbIdToNode
              && r.value.counts.(edgesAdded := 0, edgesSkipped := 0) == m.counts.(edgesAdded := 0, edgesSkipped := 0)
    ensures r.Ok? ==> r.value.counts.edgesAdded + r.value.counts.edgesSkipped
                      == m.counts.edgesAdded + m.counts.edgesSkipped + (if Resolves(m)(e) then 1 else 0)
  {
    match ResolveId(m, e.sourceSha256)
    case Err(err) => Err(err)
    case Ok(None) => Ok(m)
    case Ok(Some(src)) =>
      match ResolveId(m, e.targetSha256)
      case Err(err) => Err(err)
      case Ok(None) => Ok(m)
      case Ok(Some(tgt)) =>
        match R.InsertEdge(m.db, src, tgt, e.diffPath, e.diffSize)
        case Err(_) => Ok(m.(counts := m.counts.(edgesSkipped := m.counts.edgesSkipped + 1)))
        case Ok((db, edgeId)) =>
          var g := GraphEdge(m.graph, ParseHash(e.sourceSha256).value, ParseHash(e.targetSha256).value,
                             G.DiffEdge(edgeId, e.diffPath, e.diffSize));
          Ok(Merge(db, g, m.ids, m.counts.(edgesAdded := m.counts.edgesAdded + 1)))
  }

  /** An edge fails exactly when its source text is neither an imported
      text nor a hash, or its source resolves and its target text is
      neither. */
  lemma ImportEdgeFails(m: Merge, e: ExportEdge)
    requires MergeValid(m)
    ensures ImportEdge(m, e).Err? <==>
              (e.sourceSha256 !in m.ids && ParseHash(e.sourceSha256).None?)
              || (Resolved(m, e.sourceSha256) && e.targetSha256 !in m.ids && ParseHash(e.targetSha256).None?)
  {
  }

  /** An edge with an unresolved endpoint changes nothing. */
  lemma ImportEdgeUnresolved(m: Merge, e: ExportEdge)
    requires MergeValid(m) && ImportEdge(m, e).Ok? && !Resolves(m)(e)
    ensures ImportEdge(m, e).value == m
  {
  }

  /** A resolved edge whose pair is stored counts as skipped and writes
      nothing; a new pair is stored and counted as added. */
  lemma ImportEdgeResolved(m: Merge, e: ExportEdge, src: int, tgt: int)
    requires MergeValid(m)
    requires ResolveId(m, e.sourceSha256) == Ok(Some(src)) && ResolveId(m, e.targetSha256) == Ok(Some(tgt))
    ensures var ins := R.InsertEdge(m.db, src, tgt, e.diffPath, e.diffSize);
            && (ins.Err? ==> ImportEdge(m, e) == Ok(m.(counts := m.counts.(edgesSkipped := m.counts.edgesSkipped + 1))))
            && (ins.Ok? ==> ImportEdge(m, e).Ok? && ImportEdge(m, e).value.db == ins.value.0
                            && ImportEdge(m, e).value.counts == m.counts.(edgesAdded := m.counts.edgesAdded + 1))
  {
    var ins := R.InsertEdge(m.db, src, tgt, e.diffPath, e.diffSize);
    if ins.Ok? {
      var g := GraphEdge(m.graph, ParseHash(e.sourceSha256).value, ParseHash(e.targetSha256).value,
                         G.DiffEdge(ins.value.1, e.diffPath, e.diffSize));
      assert ImportEdge(m, e) == Ok(Merge(ins.value.0, g, m.ids, m.counts.(edgesAdded := m.counts.edgesAdded + 1)));
    }
  }

  /** The graph edge an inserted row gets: added only when both hashes
      have graph nodes. */
  function GraphEdge(g: G.RomGraph, source: Hash, target: Hash, w: G.DiffEdge): (r: G.RomGraph)
    requires G.Valid(g)
    ensures G.Valid(r) && r.slots == g.slots && r.hashToNode == g.hashToNode && r.dbIdToNode == g.dbIdToNode
    ensures G.GetNodeByHash(g, source).Some? && G.GetNodeByHash(g, target).Some? ==>
              r.edges == g.edges + [G.Edge(G.GetNodeByHash(g, source).value, G.GetNodeByHash(g, target).value, w)]
    ensures G.GetNodeByHash(g, source).None? || G.GetNodeByHash(g, target).None? ==> r == g
  {
    match (G.GetNodeByHash(g, source), G.GetNodeByHash(g, target))
    case (Some(a), Some(b)) => G.AddEdge(g, a, b, w)
    case _ => g
  }

  /** Whether an endpoint resolves depends only on the id map and the
      stored rows. */
  lemma ResolvesStable(m: Merge, m': Merge, es: seq<ExportEdge>)
    requires m'.ids == m.ids && m'.db.nodes == m.db.nodes
    ensures Filter(es, Resolves(m')) == Filter(es, Resolves(m))
  {
    forall h: Hash ensures R.HasHash(m'.db, h) == R.HasHash(m.db, h) {
    }
    FilterSame(es, Resolves(m'), Resolves(m));
  }

  /** The error of a text that does not parse as a hash. */
  predicate BadHashText(err: DromosError) {
    err.Import? && err.reason.InvalidHash? && ParseHash(err.reason.text).None?
  }

  /** The edge loop: it stops at the first error, keeping what the earlier
      edges wrote. Stored rows and the id map stay as they are. */
  function ImportEdges(m: Merge, es: seq<ExportEdge>): (r: (Merge, Option<DromosError>))
    requires MergeValid(m)
    ensures MergeValid(r.0) && r.0.ids == m.ids && r.0.db.nodes == m.db.nodes
    ensures r.1.Some? ==> BadHashText(r.1.value)
    decreases |es|
  {
    if |es| == 0 then (m, None)
    else
      match ImportEdge(m, es[0])
      case Err(err) => (m, Some(err))
      case Ok(m') => ImportEdges(m', es[1..])
  }

  /** Every edge whose endpoints resolve is counted once, as added or as
      skipped; the other counters do not move. */
  lemma {:induction false} ImportEdgesCount(m: Merge, es: seq<ExportEdge>)
    requires MergeValid(m)
    ensures var r := ImportEdges(m, es);
            && r.0.counts.(edgesAdded := 0, edgesSkipped := 0) == m.counts.(edgesAdded := 0, edgesSkipped := 0)
            && (r.1.None? ==>
                  r.0.counts.edgesAdded + r.0.counts.edgesSkipped
                  == m.counts.edgesAdded + m.counts.edgesSkipped + |Filter(es, Resolves(m))|)
    decreases |es|
  {
    if |es| > 0 {
      var step := ImportEdge(m, es[0]);
      if step.Ok? {
        var m' := step.value;
        assert ImportEdges(m, es) == ImportEdges(m', es[1..]);
        ImportEdgesCount(m', es[1..]);
        ResolvesStable(m, m', es[1..]);
        assert Filter(es, Resolves(m)) == (if Resolves(m)(es[0]) then [es[0]] else []) + Filter(es[1..], Resolves(m));
      }
    }
  }

  // ----- Patch files -----

  /** The lowercase hex digest of a file, as the checksum gate computes it. */
  function Computed(sha: Digest, bytes: seq<Byte>): string {
    FormatHash(sha(bytes))
  }

  /** The checksum gate: an empty checksum is not checked. */
  predicate ChecksumOk(sha: Digest, e: ExportEdge, bytes: seq<Byte>) {
    e.sha256 == "" || Computed(sha, bytes) == e.sha256
  }

  /** One manifest edge's patch file: left alone when the diffs directory
      has it or the folder lacks it, otherwise copied once it passes the
      checksum gate. The flag says whether it was copied. */
  function CopyDiff(local: Files, folder: Files, sha: Digest, e: ExportEdge): (r: Outcome<(Files, bool)>)
    ensures e.diffPath in local || DiffDest(e.diffPath) !in folder ==> r == Ok((local, false))
    ensures e.diffPath !in local && DiffDest(e.diffPath) in folder ==>
              var bytes := folder[DiffDest(e.diffPath)];
              && (r.Err? <==> !ChecksumOk(sha, e, bytes))
              && (r.Err? ==> r.error == Import(ChecksumMismatch(e.diffPath, e.sha256, Computed(sha, bytes))))
              && (r.Ok? ==> r.value == (local[e.diffPath := bytes], true))
  {
    if e.diffPath in local then Ok((local, false))
    else if DiffDest(e.diffPath) !in folder then Ok((local, false))
    else
      var bytes := folder[DiffDest(e.diffPath)];
      if e.sha256 != "" && Computed(sha, bytes) != e.sha256 then
        Err(Import(ChecksumMismatch(e.diffPath, e.sha256, Computed(sha, bytes))))
      else
        Ok((local[e.diffPath := bytes], true))
  }

  /** A checksum error whose expected text is present and differs from the
      computed one. */
  predicate BadChecksum(err: DromosError) {
    err.Import? && err.reason.ChecksumMismatch? && err.reason.expected != ""
    && err.reason.expected != err.reason.computed
  }

  /** The copy loop over every manifest edge, resolved or not: the files
      it ends with, how many it copied, and the error it stopped at. */
  function CopyDiffs(local: Files, folder: Files, sha: Digest, es: seq<ExportEdge>): (r: (Files, nat, Option<DromosError>))
    ensures forall p :: p in local ==> p in r.0 && r.0[p] == local[p]
    ensures |r.0.Keys| == |local.Keys| + r.1
    ensures r.2.Some? ==> BadChecksum(r.2.value)
    decreases |es|
  {
    if |es| == 0 then (local, 0, None)
    else
      match CopyDiff(local, folder, sha, es[0])
      case Err(err) => (local, 0, Some(err))
      case Ok((next, copied)) =>
        assert copied ==> next.Keys == local.Keys + {es[0].diffPath} && es[0].diffPath !in local.Keys;
        var rest := CopyDiffs(next, folder, sha, es[1..]);
        (rest.0, rest.1 + (if copied then 1 else 0), rest.2)
  }

  /** Every file the loop adds is some manifest edge's patch file, taken
      from the folder's `diffs/`, and passed that edge's checksum gate. */
  lemma {:induction false} CopyDiffsSound(local: Files, folder: Files, sha: Digest, es: seq<ExportEdge>, p: string)
    returns (k: nat)
    requires p in CopyDiffs(local, folder, sha, es).0 && p !in local
    ensures k < |es| && es[k].diffPath == p
    ensures DiffDest(p) in folder && CopyDiffs(local, folder, sha, es).0[p] == folder[DiffDest(p)]
    ensures ChecksumOk(sha, es[k], folder[DiffDest(p)])
    decreases |es|
  {
    var step := CopyDiff(local, folder, sha, es[0]);
    var next := step.value.0;
    assert CopyDiffs(local, folder, sha, es).0 == CopyDiffs(next, folder, sha, es[1..]).0;
    if p in next {
      k := 0;
    } else {
      var j := CopyDiffsSound(next, folder, sha, es[1..], p);
      k := j + 1;
      assert es[k] == es[1..][j];
    }
  }

  /** A loop that finishes has copied every patch file the folder holds
      for a manifest edge, unless the diffs directory already had it. */
  lemma {:induction false} CopyDiffsComplete(local: Files, folder: Files, sha: Digest, es: seq<ExportEdge>, k: nat)
    requires CopyDiffs(local, folder, sha, es).2.None?
    requires k < |es| && DiffDest(es[k].diffPath) in folder
    ensures es[k].diffPath in CopyDiffs(local, folder, sha, es).0
    decreases |es|
  {
    var next := CopyDiff(local, folder, sha, es[0]).value.0;
    assert CopyDiffs(local, folder, sha, es) == CopyDiffs(next, folder, sha, es[1..])
                                                .(1 := CopyDiffs(local, folder, sha, es).1);
    if k > 0 {
      assert es[k] == es[1..][k - 1];
      CopyDiffsComplete(next, folder, sha, es[1..], k - 1);
    }
  }

  // ----- The import -----

  /** The storage holding a merge's store and graph and the given diffs. */
  function Stored(s: Storage, m: Merge, diffs: Files): Storage {
    Storage(s.file.(db := m.db), m.graph, diffs)
  }

  /** `execute_import`: files, then edges, then patch files. An error stops
      the import but keeps what the earlier steps wrote: the store runs no
      transaction around it. */
  function ExecuteImport(s: Storage, folder: Files, manifest: ExportManifest, overwrite: bool, sha: Digest,
                         b64: Base64Decode): (r: (Storage, Outcome<ImportResult>))
    requires R.Valid(s.file.db) && G.Valid(s.graph)
    ensures R.Valid(r.0.file.db) && G.Valid(r.0.graph)
    ensures r.0.file.tables == s.file.tables && r.0.file.meta == s.file.meta
    ensures forall p :: p in s.diffs ==> p in r.0.diffs && r.0.diffs[p] == s.diffs[p]
    ensures r.1.Ok? ==> r.1.value.diffsCopied == |r.0.diffs.Keys| - |s.diffs.Keys|
  {
    var m0 := Merge(s.file.db, s.graph, map[], NoCounts);
    var (m1, e1) := ImportNodes(m0, manifest.files, overwrite, b64);
    if e1.Some? then (Stored(s, m1, s.diffs), Err(e1.value))
    else
      var (m2, e2) := ImportEdges(m1, manifest.diffs);
      if e2.Some? then (Stored(s, m2, s.diffs), Err(e2.value))
      else
        var (diffs, copied, e3) := CopyDiffs(s.diffs, folder, sha, manifest.diffs);
        (Stored(s, m2, diffs), if e3.Some? then Err(e3.value) else Ok(m2.counts.(diffsCopied := copied)))
  }

  /** The text is a hash the store holds. */
  predicate StoredText(db: R.Db, text: string) {
    ParseHash(text).Some? && R.HasHash(db, ParseHash(text).value)
  }

  /** Both endpoints of a manifest edge are stored. */
  function EndsStored(db: R.Db): ExportEdge -> bool {
    (e: ExportEdge) => StoredText(db, e.sourceSha256) && StoredText(db, e.targetSha256)
  }

  /** After the file loop, an endpoint resolves exactly when its text is a
      stored hash. */
  lemma ResolvedIsStored(m: Merge, t: string)
    requires MergeValid(m) && IdsStored(m)
    ensures Resolved(m, t) <==> StoredText(m.db, t)
  {
  }

  /** Stored rows decide which texts are stored. */
  lemma SameRowsSameTexts(a: R.Db, b: R.Db)
    requires a.nodes == b.nodes
    ensures forall t :: StoredText(a, t) == StoredText(b, t)
  {
    assert forall h: Hash :: R.HasHash(a, h) == R.HasHash(b, h);
  }

  /** A successful file loop from an empty id map counts and stores every
      file. */
  lemma FilesStored(m: Merge, files: seq<ExportNode>, overwrite: bool, b64: Base64Decode)
    requires MergeValid(m) && IdsStored(m) && ImportNodes(m, files, overwrite, b64).1.None?
    ensures var m' := ImportNodes(m, files, overwrite, b64).0;
            && MergeValid(m') && IdsStored(m')
            && NodeCount(m'.counts) == NodeCount(m.counts) + |files|
            && forall k :: 0 <= k < |files| ==> StoredText(m'.db, files[k].sha256)
  {
    ImportNodesCount(m, files, overwrite, b64);
    ImportNodesIdsStored(m, files, overwrite, b64);
  }

  /** A successful edge loop after the file loop counts exactly the edges
      whose endpoints are stored. */
  lemma EdgesCounted(m: Merge, es: seq<ExportEdge>)
    requires MergeValid(m) && IdsStored(m) && ImportEdges(m, es).1.None?
    ensures var m' := ImportEdges(m, es).0;
            m'.counts.edgesAdded + m'.counts.edgesSkipped
            == m.counts.edgesAdded + m.counts.edgesSkipped + |Filter(es, EndsStored(m'.db))|
  {
    var m' := ImportEdges(m, es).0;
    ImportEdgesCount(m, es);
    SameRowsSameTexts(m.db, m'.db);
    forall e | e in es ensures Resolves(m)(e) == EndsStored(m'.db)(e) {
      ResolvedIsStored(m, e.sourceSha256);
      ResolvedIsStored(m, e.targetSha256);
    }
    FilterSame(es, Resolves(m), EndsStored(m'.db));
  }

  /** A successful import counts every manifest file once; stores every
      one of them; and counts, as added or skipped, exactly the edges
      whose two endpoints end up stored. */
  lemma ExecuteImportCounts(s: Storage, folder: Files, manifest: ExportManifest, overwrite: bool, sha: Digest,
                            b64: Base64Decode)
    requires R.Valid(s.file.db) && G.Valid(s.graph)
    requires ExecuteImport(s, folder, manifest, overwrite, sha, b64).1.Ok?
    ensures var (s', r) := ExecuteImport(s, folder, manifest, overwrite, sha, b64);
            && NodeCount(r.value) == |manifest.files|
            && (forall k :: 0 <= k < |manifest.files| ==> StoredText(s'.file.db, manifest.files[k].sha256))
            && r.value.edgesAdded + r.value.edgesSkipped == |Filter(manifest.diffs, EndsStored(s'.file.db))|
  {
    var out := ExecuteImport(s, folder, manifest, overwrite, sha, b64);
    var m1, m2 := ExecuteImportOk(s, folder, manifest, overwrite, sha, b64);
    LoopsCount(Merge(s.file.db, s.graph, map[], NoCounts), manifest.files, overwrite, b64, manifest.diffs);
    SameCounts(out.1.value, m2.counts);
  }

  /** Counters that differ at most in the copy count agree on the file
      and edge counts. */
  lemma SameCounts(r: ImportResult, c: ImportResult)
    requires r == c.(diffsCopied := r.diffsCopied)
    ensures NodeCount(r) == NodeCount(c)
    ensures r.edgesAdded + r.edgesSkipped == c.edgesAdded + c.edgesSkipped
  {
  }

  /** The two loops, run from zero counters without error, count every
      file, store every file, and count the edges whose ends are stored. */
  lemma LoopsCount(m0: Merge, files: seq<ExportNode>, overwrite: bool, b64: Base64Decode, diffs: seq<ExportEdge>)
    requires MergeValid(m0) && IdsStored(m0) && m0.counts == NoCounts
    requires ImportNodes(m0, files, overwrite, b64).1.None?
    requires ImportEdges(ImportNodes(m0, files, overwrite, b64).0, diffs).1.None?
    ensures var m2 := ImportEdges(ImportNodes(m0, files, overwrite, b64).0, diffs).0;
            && NodeCount(m2.counts) == |files|
            && (forall k :: 0 <= k < |files| ==> StoredText(m2.db, files[k].sha256))
            && m2.counts.edgesAdded + m2.counts.edgesSkipped == |Filter(diffs, EndsStored(m2.db))|
  {
    var m1 := ImportNodes(m0, files, overwrite, b64).0;
    var m2 := ImportEdges(m1, diffs).0;
    FilesStored(m0, files, overwrite, b64);
    EdgesCounted(m1, diffs);
    SameRowsSameTexts(m1.db, m2.db);
    ImportEdgesCount(m1, diffs);
    ImportNodesCount(m0, files, overwrite, b64);
    forall k | 0 <= k < |files| ensures StoredText(m2.db, files[k].sha256) {
      assert StoredText(m1.db, files[k].sha256);
    }
  }

  /** A successful import ran both loops without error and stores the
      merge the edge loop left, with its counters. */
  lemma ExecuteImportOk(s: Storage, folder: Files, manifest: ExportManifest, overwrite: bool, sha: Digest,
                        b64: Base64Decode) returns (m1: Merge, m2: Merge)
    requires R.Valid(s.file.db) && G.Valid(s.graph)
    requires ExecuteImport(s, folder, manifest, overwrite, sha, b64).1.Ok?
    ensures ImportNodes(Merge(s.file.db, s.graph, map[], NoCounts), manifest.files, overwrite, b64) == (m1, None)
    ensures MergeValid(m1) && ImportEdges(m1, manifest.diffs) == (m2, None)
    ensures var (s', r) := ExecuteImport(s, folder, manifest, overwrite, sha, b64);
            s'.file.db == m2.db && r.value == m2.counts.(diffsCopied := r.value.diffsCopied)
  {
    m1 := ImportNodes(Merge(s.file.db, s.graph, map[], NoCounts), manifest.files, overwrite, b64).0;
    m2 := ImportEdges(m1, manifest.diffs).0;
  }

  /** Without overwriting, every row stored before the import is still
      there unchanged, whatever the outcome. */
  lemma ExecuteImportKeepsRows(s: Storage, folder: Files, manifest: ExportManifest, sha: Digest, b64: Base64Decode)
    requires R.Valid(s.file.db) && G.Valid(s.graph)
    ensures RowsKept(s.file.db, ExecuteImport(s, folder, manifest, false, sha, b64).0.file.db)
  {
    var m0 := Merge(s.file.db, s.graph, map[], NoCounts);
    var (m1, e1) := ImportNodes(m0, manifest.files, false, b64);
    ImportNodesKeepRows(m0, manifest.files, b64);
    if e1.None? {
      var m2 := ImportEdges(m1, manifest.diffs).0;
      assert m2.db.nodes == m1.db.nodes;
      assert ExecuteImport(s, folder, manifest, false, sha, b64).0.file.db == m2.db;
    }
  }

  /** A failing file loop leaves the stored edges and the diffs directory
      as they were. */
  lemma ExecuteImportNodeFailure(s: Storage, folder: Files, manifest: ExportManifest, overwrite: bool, sha: Digest,
                                 b64: Base64Decode)
    requires R.Valid(s.file.db) && G.Valid(s.graph)
    requires ImportNodes(Merge(s.file.db, s.graph, map[], NoCounts), manifest.files, overwrite, b64).1.Some?
    ensures var (s', r) := ExecuteImport(s, folder, manifest, overwrite, sha, b64);
            && r.Err? && s'.file.db.edges == s.file.db.edges && s'.diffs == s.diffs
  {
  }

  // ----- Store and graph in step -----

  /** The id recorded for each text is the id of the stored row of its
      hash. */
  predicate IdsAgree(m: Merge)
    requires MergeValid(m)
  {
    forall t :: t in m.ids ==>
      && R.GetNodeByHash(m.db, ParseHash(t).value).Some?
      && R.GetNodeByHash(m.db, ParseHash(t).value).value.id == m.ids[t]
  }

  /** The merge's store and graph hold the same nodes and the same edges,
      and its id map agrees with the store. */
  ghost predicate MergeSynced(m: Merge) {
    MergeValid(m) && Synced(m.db, m.graph) && Mirrored(m.db, m.graph) && IdsAgree(m)
  }

  /** Rewriting one row's metadata leaves every hash on the row it was on. */
  lemma UpdateKeepsRowOf(db: R.Db, id: int, nm: R.NodeMetadata, h: Hash)
    requires R.Valid(db) && R.HasHash(db, h)
    ensures var db' := R.UpdateNodeMetadata(db, id, nm);
            R.GetNodeByHash(db', h).Some? && R.GetNodeByHash(db', h).value.id == R.GetNodeByHash(db, h).value.id
  {
    var db' := R.UpdateNodeMetadata(db, id, nm);
    var x :| x in db.nodes && x.sha256 == FormatHash(h);
    var k :| 0 <= k < |db.nodes| && db.nodes[k] == x;
    var y := db'.nodes[k];
    assert y in db'.nodes && y.sha256 == x.sha256 && y.id == x.id;
    assert R.GetNodeByHash(db, h) == Some(R.ReadRow(x));
    assert R.GetNodeByHash(db', h) == Some(R.ReadRow(y));
  }

  /** Appending a row leaves every hash stored before on its row. */
  lemma AppendKeepsRowOf(db: R.Db, db': R.Db, x: R.NodeRecord, h: Hash)
    requires R.Valid(db) && R.Valid(db') && db'.nodes == db.nodes + [x] && R.HasHash(db, h)
    ensures R.GetNodeByHash(db', h) == R.GetNodeByHash(db, h)
  {
    var y :| y in db.nodes && y.sha256 == FormatHash(h);
    assert y in db'.nodes;
  }

  /** Rewriting a stored row's metadata and its graph node's title and
      version keeps the store and the graph in step, and the graph finds
      that node by the row's hash. */
  lemma OverwriteInStep(db: R.Db, g: G.RomGraph, h: Hash, x: R.NodeRecord, nm: R.NodeMetadata)
    requires Synced(db, g) && Mirrored(db, g) && x in db.nodes && x.sha256 == FormatHash(h)
    ensures G.GetNodeByHash(g, h) == Some(g.dbIdToNode[x.id])
    ensures var db', g' := R.UpdateNodeMetadata(db, x.id, nm), G.SetTitleVersion(g, g.dbIdToNode[x.id], nm.title, nm.version);
            Synced(db', g') && Mirrored(db', g')
  {
    assert R.GetNodeByHash(db, h) == Some(R.ReadRow(x));
    SyncedHash(db, g, h);
    assert HasNode(g, R.ReadRow(x));
    MU.UpdateSynced(db, g, x, nm);
    MU.SameEndpointsMirrored(db, g, R.UpdateNodeMetadata(db, x.id, nm),
                             G.SetTitleVersion(g, g.dbIdToNode[x.id], nm.title, nm.version));
  }

  /** Rewriting a row's metadata keeps the id map in agreement. */
  lemma UpdatedIdsAgree(m: Merge, id: int, nm: R.NodeMetadata)
    requires MergeValid(m) && IdsAgree(m)
    ensures MergeValid(m.(db := R.UpdateNodeMetadata(m.db, id, nm)))
    ensures IdsAgree(m.(db := R.UpdateNodeMetadata(m.db, id, nm)))
  {
    forall t | t in m.ids
      ensures R.GetNodeByHash(R.UpdateNodeMetadata(m.db, id, nm), ParseHash(t).value).Some?
              && R.GetNodeByHash(R.UpdateNodeMetadata(m.db, id, nm), ParseHash(t).value).value.id == m.ids[t]
    {
      UpdateKeepsRowOf(m.db, id, nm, ParseHash(t).value);
    }
  }

  /** A stored file that is overwritten rewrites its row and its graph
      node together; one that is skipped writes neither. */
  lemma ImportExistingSynced(m: Merge, node: ExportNode, h: Hash, existing: R.NodeRow, overwrite: bool)
    requires MergeSynced(m) && ParseHash(node.sha256) == Some(h) && R.GetNodeByHash(m.db, h) == Some(existing)
    ensures MergeSynced(ImportExisting(m, node, h, existing, overwrite).value)
  {
    var r := ImportExisting(m, node, h, existing, overwrite).value;
    if overwrite {
      var nm := NodeMetadataFromExport(node);
      var x :| x in m.db.nodes && x.sha256 == FormatHash(h);
      assert existing.id == x.id;
      OverwriteInStep(m.db, m.graph, h, x, nm);
      UpdatedIdsAgree(m, x.id, nm);
      assert r.db == R.UpdateNodeMetadata(m.db, x.id, nm);
      assert r.graph == G.SetTitleVersion(m.graph, m.graph.dbIdToNode[x.id], nm.title, nm.version);
      IdsAgreeAdd(m.(db := r.db), node.sha256, x.id);
    } else {
      IdsAgreeAdd(m, node.sha256, existing.id);
    }
  }

  /** Recording the id of a stored hash's row keeps the id map in
      agreement. */
  lemma IdsAgreeAdd(m: Merge, t: string, d: int)
    requires MergeValid(m) && IdsAgree(m) && ParseHash(t).Some?
    requires R.GetNodeByHash(m.db, ParseHash(t).value).Some? && R.GetNodeByHash(m.db, ParseHash(t).value).value.id == d
    ensures MergeValid(m.(ids := m.ids[t := d])) && IdsAgree(m.(ids := m.ids[t := d]))
  {
  }

  /** Adding a new row and its graph node keeps the store and the graph in
      step. */
  lemma InsertInStep(db: R.Db, g: G.RomGraph, meta: RomMetadata, nm: R.NodeMetadata)
    requires Synced(db, g) && Mirrored(db, g) && !R.HasHash(db, meta.sha256)
    ensures var (db', id) := R.InsertNode(db, meta, nm).value;
            var g' := G.AddNode(g, G.RomNode(id, meta.sha256, meta.filename, nm.title, nm.version, meta.romType)).0;
            Synced(db', g') && Mirrored(db', g')
  {
    var (db', id) := R.InsertNode(db, meta, nm).value;
    MU.InsertSynced(db, g, meta, nm);
    MU.SameEndpointsMirrored(db, g, db',
                             G.AddNode(g, G.RomNode(id, meta.sha256, meta.filename, nm.title, nm.version, meta.romType)).0);
  }

  /** Appending a row keeps the id map in agreement. */
  lemma AppendedIdsAgree(m: Merge, db': R.Db, x: R.NodeRecord)
    requires MergeValid(m) && IdsAgree(m) && R.Valid(db') && db'.nodes == m.db.nodes + [x]
    ensures MergeValid(m.(db := db')) && IdsAgree(m.(db := db'))
  {
    forall t | t in m.ids
      ensures R.GetNodeByHash(db', ParseHash(t).value) == R.GetNodeByHash(m.db, ParseHash(t).value)
    {
      AppendKeepsRowOf(m.db, db', x, ParseHash(t).value);
    }
  }

  /** A new file's row and graph node are added together. */
  lemma ImportNewSynced(m: Merge, node: ExportNode, h: Hash, meta: RomMetadata)
    requires MergeSynced(m) && ParseHash(node.sha256) == Some(h) && !R.HasHash(m.db, h)
    requires meta.sha256 == h && meta.filename == node.filename
    ensures MergeSynced(ImportNew(m, node, h, meta))
  {
    var nm := NodeMetadataFromExport(node);
    var ins := R.InsertNode(m.db, meta, nm).value;
    var r := ImportNew(m, node, h, meta);
    InsertInStep(m.db, m.graph, meta, nm);
    AppendedIdsAgree(m, ins.0, R.NewRecord(ins.1, meta, nm));
    assert r.db == ins.0;
    assert r.graph == G.AddNode(m.graph, G.RomNode(ins.1, meta.sha256, meta.filename, nm.title, nm.version, meta.romType)).0;
    IdsAgreeAdd(m.(db := r.db), node.sha256, ins.1);
  }

  /** One manifest file keeps the store and the graph in step. */
  lemma ImportNodeSynced(m: Merge, node: ExportNode, overwrite: bool, b64: Base64Decode)
    requires MergeSynced(m)
    ensures ImportNode(m, node, overwrite, b64).Ok? ==> MergeSynced(ImportNode(m, node, overwrite, b64).value)
  {
    match ParseHash(node.sha256)
    case None =>
    case Some(h) =>
      match R.GetNodeByHash(m.db, h)
      case Some(existing) =>
        ImportExistingSynced(m, node, h, existing, overwrite);
      case None =>
        if RomMetadataFromExport(node, b64).Ok? {
          ImportNewSynced(m, node, h, RomMetadataFromExport(node, b64).value);
        }
  }

  /** The file loop keeps the store and the graph in step, also when it
      stops at an error. */
  lemma {:induction false} ImportNodesSynced(m: Merge, files: seq<ExportNode>, overwrite: bool, b64: Base64Decode)
    requires MergeSynced(m)
    ensures MergeSynced(ImportNodes(m, files, overwrite, b64).0)
    decreases |files|
  {
    if |files| > 0 && ImportNode(m, files[0], overwrite, b64).Ok? {
      var m' := ImportNode(m, files[0], overwrite, b64).value;
      ImportNodeSynced(m, files[0], overwrite, b64);
      assert ImportNodes(m, files, overwrite, b64) == ImportNodes(m', files[1..], overwrite, b64);
      ImportNodesSynced(m', files[1..], overwrite, b64);
    }
  }

  /** An endpoint that resolves names the stored row of its hash. */
  lemma ResolvedRow(m: Merge, text: string, d: int)
    requires MergeValid(m) && IdsAgree(m) && ResolveId(m, text) == Ok(Some(d))
    ensures R.GetNodeByHash(m.db, ParseHash(text).value).Some?
    ensures R.GetNodeByHash(m.db, ParseHash(text).value).value.id == d
  {
  }

  /** Appending one edge row adds its signature. */
  lemma StoredSigsAppendOne(es: seq<R.EdgeRow>, f: R.EdgeRow)
    ensures StoredSigs(es + [f]) == StoredSigs(es) + {RowSig(f)}
  {
    assert forall g :: g in es + [f] <==> g in es || g == f;
  }

  /** Adding an edge row and the graph edge between the graph nodes of the
      rows it joins keeps the store and the graph in step. */
  lemma EdgeInStep(db: R.Db, g: G.RomGraph, db': R.Db, hs: Hash, ht: Hash, f: R.EdgeRow)
    requires Synced(db, g) && Mirrored(db, g) && R.Valid(db')
    requires db'.nodes == db.nodes && db'.edges == db.edges + [f]
    requires R.GetNodeByHash(db, hs).Some? && R.GetNodeByHash(db, hs).value.id == f.sourceId
    requires R.GetNodeByHash(db, ht).Some? && R.GetNodeByHash(db, ht).value.id == f.targetId
    ensures G.GetNodeByHash(g, hs).Some? && G.GetNodeByHash(g, ht).Some?
    ensures var g' := G.AddEdge(g, G.GetNodeByHash(g, hs).value, G.GetNodeByHash(g, ht).value,
                                G.DiffEdge(f.id, f.diffPath, f.diffSize));
            Synced(db', g') && Mirrored(db', g')
  {
    SyncedHash(db, g, hs);
    SyncedHash(db, g, ht);
    var a, b := G.GetNodeByHash(g, hs).value, G.GetNodeByHash(g, ht).value;
    var w := G.DiffEdge(f.id, f.diffPath, f.diffSize);
    SameNodesSynced(db, g, db', G.AddEdge(g, a, b, w));
    MU.GraphSigsAddEdge(g, a, b, w);
    StoredSigsAppendOne(db.edges, f);
  }

  /** An inserted edge row gets its graph edge, between the graph nodes of
      the two rows it joins. */
  lemma ImportEdgeSynced(m: Merge, e: ExportEdge)
    requires MergeSynced(m)
    ensures ImportEdge(m, e).Ok? ==> MergeSynced(ImportEdge(m, e).value)
  {
    var rs, rt := ResolveId(m, e.sourceSha256), ResolveId(m, e.targetSha256);
    if rs.Ok? && rs.value.Some? && rt.Ok? && rt.value.Some? {
      var src, tgt := rs.value.value, rt.value.value;
      var ins := R.InsertEdge(m.db, src, tgt, e.diffPath, e.diffSize);
      if ins.Ok? {
        var hs, ht := ParseHash(e.sourceSha256).value, ParseHash(e.targetSha256).value;
        var f := R.EdgeRow(ins.value.1, src, tgt, e.diffPath, e.diffSize);
        ResolvedRow(m, e.sourceSha256, src);
        ResolvedRow(m, e.targetSha256, tgt);
        EdgeInStep(m.db, m.graph, ins.value.0, hs, ht, f);
        SameRowsIdsAgree(m, ins.value.0);
        var g' := G.AddEdge(m.graph, G.GetNodeByHash(m.graph, hs).value, G.GetNodeByHash(m.graph, ht).value,
                            G.DiffEdge(f.id, f.diffPath, f.diffSize));
        assert ImportEdge(m, e).value.db == ins.value.0;
        assert ImportEdge(m, e).value.graph == g';
      }
    }
  }

  /** The same rows keep the id map in agreement. */
  lemma SameRowsIdsAgree(m: Merge, db': R.Db)
    requires MergeValid(m) && IdsAgree(m) && R.Valid(db') && db'.nodes == m.db.nodes
    ensures MergeValid(m.(db := db')) && IdsAgree(m.(db := db'))
  {
    assert forall h: Hash :: R.GetNodeByHash(db', h) == R.GetNodeByHash(m.db, h);
  }

  /** The edge loop keeps the store and the graph in step, also when it
      stops at an error. */
  lemma {:induction false} ImportEdgesSynced(m: Merge, es: seq<ExportEdge>)
    requires MergeSynced(m)
    ensures MergeSynced(ImportEdges(m, es).0)
    decreases |es|
  {
    if |es| > 0 && ImportEdge(m, es[0]).Ok? {
      var m' := ImportEdge(m, es[0]).value;
      ImportEdgeSynced(m, es[0]);
      assert ImportEdges(m, es) == ImportEdges(m', es[1..]);
      ImportEdgesSynced(m', es[1..]);
    }
  }

  /** `execute_import` writes each stored row together with its graph node
      or edge, so the store and the graph stay in step whatever the
      outcome, errors included. */
  lemma ExecuteImportKeepsSync(s: Storage, folder: Files, manifest: ExportManifest, overwrite: bool, sha: Digest,
                               b64: Base64Decode)
    requires Consistent(s) && Mirrored(s.file.db, s.graph)
    ensures var s' := ExecuteImport(s, folder, manifest, overwrite, sha, b64).0;
            Consistent(s') && Mirrored(s'.file.db, s'.graph)
  {
    var m0 := Merge(s.file.db, s.graph, map[], NoCounts);
    ImportNodesSynced(m0, manifest.files, overwrite, b64);
    var m1 := ImportNodes(m0, manifest.files, overwrite, b64).0;
    ImportEdgesSynced(m1, manifest.diffs);
  }
}
