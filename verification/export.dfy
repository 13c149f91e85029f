/** `write_folder` of src/exchange/export.rs: choose the nodes (one
    connected component or the whole graph), the stored rows and the edges
    among them, checksum the patch files, then write `index.json` and the
    patch files into the output folder, asking the caller what to do with
    each file that already exists. The output folder and the diffs
    directory are maps from name to contents; SHA-256, base64, the JSON
    encoder, the clock and the conflict callback are parameters. */
module ExchangeExport {
  import opened Wrappers
  import opened Hex
  import opened Errors
  import opened Seqs
  import opened RomHash
  import opened Schema
  import opened StorageManager
  import opened ExchangeFormat
  import G = Graph
  import GS = GraphSearch
  import R = Repository

  /** What the caller answers for a file that already exists. */
  datatype OverwriteAction = Overwrite | Skip | Abort

  datatype WriteResult = Written | Skipped | Aborted

  /** The conflict callback: asked with the path of an existing file. */
  type Ask = string -> Outcome<OverwriteAction>

  /** `serde_json::to_string_pretty` of the manifest, as bytes. */
  type JsonEncode = ExportManifest -> seq<Byte>

  /** The manifest format version `write_folder` writes. */
  const ManifestVersion: nat := 1

  const StartNotFound := "Starting node not found in graph"

  /** `write_with_conflict_check`: a new path is written; for an existing
      one the callback decides between overwriting, leaving the file alone
      and aborting, and its error is passed on. */
  function WriteWithConflictCheck(out: Files, path: string, bytes: seq<Byte>, ask: Ask): (r: Outcome<(Files, WriteResult)>)
    ensures path !in out ==> r == Ok((out[path := bytes], Written))
    ensures path in out && ask(path).Err? ==> r == Err(ask(path).error)
    ensures path in out && ask(path).Ok? ==> r.Ok?
    ensures r.Ok? && r.value.1 == Written ==> r.value.0 == out[path := bytes]
    ensures r.Ok? && r.value.1 != Written ==> r.value.0 == out
    ensures r.Ok? && path in out ==>
              && (r.value.1 == Written <==> ask(path) == Ok(Overwrite))
              && (r.value.1 == Skipped <==> ask(path) == Ok(Skip))
              && (r.value.1 == Aborted <==> ask(path) == Ok(Abort))
  {
    if path in out then
      var action :- ask(path);
      match action
      case Overwrite => Ok((out[path := bytes], Written))
      case Skip => Ok((out, Skipped))
      case Abort => Ok((out, Aborted))
    else
      Ok((out[path := bytes], Written))
  }

  // ----- Selection -----

  /** The hashes of the live nodes among `nodes`. */
  function HashesOf(g: G.RomGraph, nodes: set<nat>): (r: set<Hash>)
    ensures forall h :: h in r <==> exists i :: i in nodes && G.Live(g, i) && G.NodeAt(g, i).sha256 == h
  {
    set i | i in nodes && G.Live(g, i) :: G.NodeAt(g, i).sha256
  }

  /** Every live node of the graph. */
  function AllNodes(g: G.RomGraph): (r: set<nat>)
    ensures forall i :: i in r <==> G.Live(g, i)
  {
    set i | i in G.NodeOrder(g)
  }

  /** The node hashes `write_folder` exports: the hashes of the nodes
      connected to the start node when one is given, of every node
      otherwise; an unknown start node is an error. */
  ghost function Selection(g: G.RomGraph, component: Option<Hash>): Outcome<set<Hash>> {
    match component
    case None => Ok(HashesOf(g, AllNodes(g)))
    case Some(h) =>
      match G.GetNodeByHash(g, h)
      case None => Err(Export(StartNotFound))
      case Some(start) => Ok(HashesOf(g, set i | i in AllNodes(g) && GS.Connected(g, start, i)))
  }

  /** The selection as `write_folder` computes it, with the breadth-first
      component search. */
  method SelectHashes(g: G.RomGraph, component: Option<Hash>) returns (r: Outcome<set<Hash>>)
    requires G.Valid(g)
    ensures r == Selection(g, component)
    ensures component.Some? && G.GetNodeByHash(g, component.value).Some? ==> component.value in r.value
  {
    if component.None? {
      return Ok(HashesOf(g, AllNodes(g)));
    }
    var start := G.GetNodeByHash(g, component.value);
    if start.None? {
      return Err(Export(StartNotFound));
    }
    var comp := GS.ConnectedComponent(g, start.value);
    r := Ok(HashesOf(g, comp));
    assert HashesOf(g, comp) == HashesOf(g, set i | i in AllNodes(g) && GS.Connected(g, start.value, i));
  }

  // ----- The manifest -----

  /** The stored rows whose hash was selected, by ascending id. */
  function SelectedRows(db: R.Db, hashes: set<Hash>): (rows: seq<R.NodeRow>)
    ensures forall x :: x in rows <==> x in R.LoadAllNodes(db) && x.sha256 in hashes
  {
    FilterMembers(R.LoadAllNodes(db), (x: R.NodeRow) => x.sha256 in hashes);
    Filter(R.LoadAllNodes(db), (x: R.NodeRow) => x.sha256 in hashes)
  }

  function RowIdSet(rows: seq<R.NodeRow>): set<int> {
    set x | x in rows :: x.id
  }

  /** The id-to-hash map built from the selected rows; a later row with
      the same id replaces an earlier one, as `collect` into a `HashMap`
      does. */
  function IdToHash(rows: seq<R.NodeRow>): (m: map<int, string>)
    ensures m.Keys == RowIdSet(rows)
    ensures forall d :: d in m ==> exists x :: x in rows && x.id == d && m[d] == FormatHash(x.sha256)
  {
    if |rows| == 0 then map[]
    else
      var last := rows[|rows| - 1];
      var m := IdToHash(rows[..|rows| - 1]);
      assert rows == rows[..|rows| - 1] + [last];
      m[last.id := FormatHash(last.sha256)]
  }

  /** The stored edges with both endpoints among `ids`. */
  function SelectedEdges(db: R.Db, ids: set<int>): (es: seq<R.EdgeRow>)
    ensures forall e :: e in es <==> e in db.edges && e.sourceId in ids && e.targetId in ids
  {
    FilterMembers(db.edges, (e: R.EdgeRow) => e.sourceId in ids && e.targetId in ids);
    Filter(db.edges, (e: R.EdgeRow) => e.sourceId in ids && e.targetId in ids)
  }

  /** The checksum of a patch file: the hex SHA-256 of its bytes, or the
      empty text when the diffs directory lacks it. */
  function Checksum(sha: Digest, diffs: Files, path: string): (c: string)
    ensures c == "" <==> path !in diffs
    ensures path in diffs ==> |c| == 64 && c == FormatHash(sha(diffs[path]))
  {
    if path in diffs then Encode(sha(diffs[path])) else ""
  }

  /** The manifest entries of the selected edges, in table order. */
  function ExportEdges(es: seq<R.EdgeRow>, idHash: map<int, string>, sha: Digest, diffs: Files): (xs: seq<ExportEdge>)
    requires forall e :: e in es ==> e.sourceId in idHash && e.targetId in idHash
    ensures |xs| == |es|
    ensures forall k :: 0 <= k < |es| ==>
              xs[k] == FromEdgeRow(es[k], idHash[es[k].sourceId], idHash[es[k].targetId],
                                   Checksum(sha, diffs, es[k].diffPath))
  {
    seq(|es|, k requires 0 <= k < |es| =>
      FromEdgeRow(es[k], idHash[es[k].sourceId], idHash[es[k].targetId], Checksum(sha, diffs, es[k].diffPath)))
  }

  /** The patch files to copy: name and bytes of every selected edge whose
      file exists, in table order. */
  function DiffData(es: seq<R.EdgeRow>, diffs: Files): (data: seq<(string, seq<Byte>)>)
    ensures |data| <= |es|
    ensures forall d :: d in data ==> d.0 in diffs && d.1 == diffs[d.0]
    ensures forall e :: e in es && e.diffPath in diffs ==> (e.diffPath, diffs[e.diffPath]) in data
  {
    if |es| == 0 then []
    else
      var rest := DiffData(es[1..], diffs);
      assert forall e :: e in es[1..] ==> e in es;
      if es[0].diffPath in diffs then [(es[0].diffPath, diffs[es[0].diffPath])] + rest else rest
  }

  /** Everything `write_folder` computes before it writes: the manifest and
      the patch files to copy. */
  function BuildManifest(db: R.Db, hashes: set<Hash>, diffs: Files, sha: Digest, b64: Base64Encode,
                         exportedAt: string): (r: (ExportManifest, seq<(string, seq<Byte>)>))
    ensures r.0.header == ExportHeader(ManifestVersion, DataRevision, exportedAt)
    ensures |r.0.files| == |SelectedRows(db, hashes)|
    ensures forall k :: 0 <= k < |r.0.files| ==> r.0.files[k] == FromNodeRow(SelectedRows(db, hashes)[k], b64)
    ensures |r.0.diffs| == |SelectedEdges(db, RowIdSet(SelectedRows(db, hashes)))|
    ensures r.1 == DiffData(SelectedEdges(db, RowIdSet(SelectedRows(db, hashes))), diffs)
  {
    var rows := SelectedRows(db, hashes);
    var idHash := IdToHash(rows);
    var es := SelectedEdges(db, RowIdSet(rows));
    var files := seq(|rows|, k requires 0 <= k < |rows| => FromNodeRow(rows[k], b64));
    var manifest := ExportManifest(ExportHeader(ManifestVersion, DataRevision, exportedAt), files,
                                   ExportEdges(es, idHash, sha, diffs));
    (manifest, DiffData(es, diffs))
  }

  /** Every exported edge joins two exported ROMs: its endpoint hashes are
      those of selected rows with the edge's endpoint ids, and its checksum
      is empty exactly when the patch file is missing. */
  lemma ManifestEdges(db: R.Db, hashes: set<Hash>, diffs: Files, sha: Digest, b64: Base64Encode, exportedAt: string)
    ensures var m := BuildManifest(db, hashes, diffs, sha, b64, exportedAt).0;
            var rows := SelectedRows(db, hashes);
            var es := SelectedEdges(db, RowIdSet(rows));
            forall k :: 0 <= k < |m.diffs| ==>
              && m.diffs[k].diffPath == es[k].diffPath && m.diffs[k].diffSize == es[k].diffSize
              && (exists x :: x in rows && x.id == es[k].sourceId && m.diffs[k].sourceSha256 == FormatHash(x.sha256))
              && (exists x :: x in rows && x.id == es[k].targetId && m.diffs[k].targetSha256 == FormatHash(x.sha256))
              && (m.diffs[k].sha256 == "" <==> es[k].diffPath !in diffs)
  {
    var rows := SelectedRows(db, hashes);
    var es := SelectedEdges(db, RowIdSet(rows));
    var idHash := IdToHash(rows);
    forall k | 0 <= k < |es| ensures es[k] in es { }
  }

  // ----- Writing -----

  /** The copy loop of `write_folder`: each patch file in turn, stopping
      at the first abort (`Ok(true)`) or callback error. */
  function WriteDiffs(out: Files, data: seq<(string, seq<Byte>)>, ask: Ask): (r: (Files, Outcome<bool>))
    ensures forall p :: (forall d :: d in data ==> p != DiffDest(d.0)) ==>
              (p in r.0 <==> p in out) && (p in out ==> r.0[p] == out[p])
    ensures r.1 == Ok(false) ==> forall d :: d in data ==> DiffDest(d.0) in r.0
    decreases |data|
  {
    if |data| == 0 then (out, Ok(false))
    else
      assert forall d :: d in data[1..] ==> d in data;
      match WriteWithConflictCheck(out, DiffDest(data[0].0), data[0].1, ask)
      case Err(e) => (out, Err(e))
      case Ok((out1, Aborted)) => (out1, Ok(true))
      case Ok((out1, _)) => WriteDiffs(out1, data[1..], ask)
  }

  /** An abort stops the copying: the folder is what the files before
      the aborted one, the `k`-th, left, and the aborted file already
      existed and was not touched. */
  lemma {:induction false} WriteDiffsAbortStops(out: Files, data: seq<(string, seq<Byte>)>, ask: Ask)
    returns (k: nat)
    requires WriteDiffs(out, data, ask).1 == Ok(true)
    ensures k < |data|
    ensures WriteDiffs(out, data[..k], ask) == (WriteDiffs(out, data, ask).0, Ok(false))
    ensures DiffDest(data[k].0) in WriteDiffs(out, data, ask).0
    ensures ask(DiffDest(data[k].0)) == Ok(Abort)
    decreases |data|
  {
    var w := WriteWithConflictCheck(out, DiffDest(data[0].0), data[0].1, ask);
    if w.value.1 == Aborted {
      assert data[..0] == [];
      return 0;
    }
    var out1 := w.value.0;
    assert WriteDiffs(out, data, ask) == WriteDiffs(out1, data[1..], ask);
    var j := WriteDiffsAbortStops(out1, data[1..], ask);
    k := j + 1;
    WriteDiffsPrefix(out, data, ask, j);
    assert data[k] == data[1..][j];
  }

  /** Writing the first `j + 1` files is writing the first one, then the
      next `j`. */
  lemma WriteDiffsPrefix(out: Files, data: seq<(string, seq<Byte>)>, ask: Ask, j: nat)
    requires j < |data|
    requires WriteWithConflictCheck(out, DiffDest(data[0].0), data[0].1, ask).Ok?
    requires WriteWithConflictCheck(out, DiffDest(data[0].0), data[0].1, ask).value.1 != Aborted
    ensures WriteDiffs(out, data[..j + 1], ask)
            == WriteDiffs(WriteWithConflictCheck(out, DiffDest(data[0].0), data[0].1, ask).value.0, data[1..][..j], ask)
  {
    var p := data[..j + 1];
    assert p[0] == data[0] && p[1..] == data[1..][..j];
  }

  /** The counts and the abort flag `write_folder` reports. */
  datatype ExportStats = ExportStats(nodes: nat, edges: nat, aborted: bool)

  /** The writes of `write_folder`: `index.json` first, then the patch
      files; an abort of the index write copies nothing. */
  function WriteOutput(out: Files, json: seq<Byte>, data: seq<(string, seq<Byte>)>, ask: Ask): (r: (Files, Outcome<bool>))
    ensures IndexFile in out && ask(IndexFile) == Ok(Abort) ==> r == (out, Ok(true))
    ensures r.1 == Ok(false) ==> IndexFile in r.0 && forall d :: d in data ==> DiffDest(d.0) in r.0
  {
    match WriteWithConflictCheck(out, IndexFile, json, ask)
    case Err(e) => (out, Err(e))
    case Ok((out1, Aborted)) => (out1, Ok(true))
    case Ok((out1, _)) =>
      var r := WriteDiffs(out1, data, ask);
      assert forall d :: d in data ==> IndexFile != DiffDest(d.0) by {
        forall d | d in data ensures IndexFile != DiffDest(d.0) {
          assert IndexFile[0] != DiffDest(d.0)[0];
        }
      }
      r
  }

  /** `write_folder`: select, build the manifest, write. The counts are
      the manifest's whether or not the writing was aborted. */
  method WriteFolder(out: Files, db: R.Db, g: G.RomGraph, diffs: Files, component: Option<Hash>, sha: Digest,
                     b64: Base64Encode, json: JsonEncode, exportedAt: string, ask: Ask)
    returns (out': Files, r: Outcome<ExportStats>)
    requires G.Valid(g)
    ensures Selection(g, component).Err? ==> out' == out && r == Err(Selection(g, component).error)
    ensures Selection(g, component).Ok? ==>
              var md := BuildManifest(db, Selection(g, component).value, diffs, sha, b64, exportedAt);
              var w := WriteOutput(out, json(md.0), md.1, ask);
              && out' == w.0
              && (w.1.Err? ==> r == Err(w.1.error))
              && (w.1.Ok? ==> r == Ok(ExportStats(|md.0.files|, |md.0.diffs|, w.1.value)))
  {
    var selected := SelectHashes(g, component);
    if selected.Err? {
      return out, Err(selected.error);
    }
    var md := BuildManifest(db, selected.value, diffs, sha, b64, exportedAt);
    var written := WriteOutput(out, json(md.0), md.1, ask);
    out' := written.0;
    if written.1.Err? {
      return out', Err(written.1.error);
    }
    r := Ok(ExportStats(|md.0.files|, |md.0.diffs|, written.1.value));
  }

  /** With no component given, the exported rows are the stored rows whose
      hash the graph knows. */
  lemma ExportAllSelectsStored(db: R.Db, g: G.RomGraph)
    requires G.Valid(g) && G.Indexed(g)
    ensures SelectedRows(db, Selection(g, None).value)
            == Filter(R.LoadAllNodes(db), (x: R.NodeRow) => G.GetNodeByHash(g, x.sha256).Some?)
  {
    var hashes := Selection(g, None).value;
    var p := (x: R.NodeRow) => x.sha256 in hashes;
    var q := (x: R.NodeRow) => G.GetNodeByHash(g, x.sha256).Some?;
    forall x | x in R.LoadAllNodes(db) ensures p(x) == q(x) {
      if q(x) {
        var i := G.GetNodeByHash(g, x.sha256).value;
        assert i in AllNodes(g) && G.NodeAt(g, i).sha256 == x.sha256;
      }
    }
    FilterSame(R.LoadAllNodes(db), p, q);
  }
}
