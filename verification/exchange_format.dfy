/** The export manifest of src/exchange/format.rs and the two row
    conversions that fill it. Base64 is a parameter. */
module ExchangeFormat {
  import opened Wrappers
  import opened Hex
  import opened RomTypes
  import R = Repository

  /** `BASE64.encode`. */
  type Base64Encode = seq<Byte> -> string

  /** The `dromos_export` header of `index.json`. */
  datatype ExportHeader = ExportHeader(version: nat, dataRevision: nat, exportedAt: string)

  /** One entry of the manifest's `files` list. */
  datatype ExportNode = ExportNode(
    sha256: string,
    filename: Option<string>,
    title: string,
    romType: string,
    version: Option<string>,
    sourceUrl: Option<string>,
    releaseDate: Option<string>,
    tags: seq<string>,
    description: Option<string>,
    sourceFileHeader: Option<string>)

  /** One entry of the manifest's `diffs` list; `sha256` is the checksum of
      the patch file, empty when the exporter had no file. */
  datatype ExportEdge = ExportEdge(
    sourceSha256: string,
    targetSha256: string,
    diffPath: string,
    diffSize: int,
    sha256: string)

  /** The manifest's name inside an export folder. */
  const IndexFile := "index.json"

  /** Where a patch file sits inside an export folder. */
  function DiffDest(name: string): string {
    "diffs/" + name
  }

  datatype ExportManifest = ExportManifest(header: ExportHeader, files: seq<ExportNode>, diffs: seq<ExportEdge>)

  /** `ExportNode::from_node_row`: the hash as 64 lowercase hex digits, the
      ROM type by name, the header in base64, every other field as is. */
  function FromNodeRow(row: R.NodeRow, b64: Base64Encode): (n: ExportNode)
    ensures ParseHash(n.sha256) == Some(row.sha256)
    ensures FromStr(n.romType) == Some(row.romType)
    ensures n.sourceFileHeader.Some? <==> row.sourceFileHeader.Some?
    ensures n.filename == row.filename && n.title == row.title && n.version == row.version
    ensures n.sourceUrl == row.sourceUrl && n.releaseDate == row.releaseDate
    ensures n.tags == row.tags && n.description == row.description
  {
    ParseFormat(row.sha256);
    FromStrAsStr(row.romType);
    ExportNode(
      FormatHash(row.sha256),
      row.filename,
      row.title,
      AsStr(row.romType),
      row.version,
      row.sourceUrl,
      row.releaseDate,
      row.tags,
      row.description,
      match row.sourceFileHeader
      case None => None
      case Some(h) => Some(b64(h)))
  }

  /** `ExportEdge::from_edge_row`: the endpoint hashes and the checksum are
      the caller's text; path and size come from the row. */
  function FromEdgeRow(edge: R.EdgeRow, sourceHash: string, targetHash: string, checksum: string): (x: ExportEdge)
    ensures x.sourceSha256 == sourceHash && x.targetSha256 == targetHash && x.sha256 == checksum
    ensures x.diffPath == edge.diffPath && x.diffSize == edge.diffSize
  {
    ExportEdge(sourceHash, targetHash, edge.diffPath, edge.diffSize, checksum)
  }

  /** Distinct rows with distinct hashes export distinct hash texts, so the
      manifest names every ROM unambiguously. */
  lemma ExportedHashesDistinct(a: R.NodeRow, b: R.NodeRow, b64: Base64Encode)
    requires a.sha256 != b.sha256
    ensures FromNodeRow(a, b64).sha256 != FromNodeRow(b, b64).sha256
  {
    if FromNodeRow(a, b64).sha256 == FromNodeRow(b, b64).sha256 {
      FormatHashInjective(a.sha256, b.sha256);
    }
  }
}
