# dromos in Dafny

This project models the core of dromos. dromos keeps a collection of ROM images as a few reference files plus a graph of binary diffs between related files, and rebuilds any member on demand by applying diffs along a path. The model covers these parts:

- **Traversal graph** (`Graph`, `GraphSearch`). This is the in-memory `RomGraph`: an arena of node slots with a free list, edges in insertion order, and two lookup maps (content hash → index, database id → index). It provides add, remove and lookups. `find_path` is a breadth-first search that reconstructs the path it finds. `connected_component` is an undirected search.
- **Durable store** (`Repository`, `Schema`). The SQL tables become an ascending sequence of node rows, an ascending sequence of edge rows, and fresh-id counters. Text columns are stored as they are written: the hash as hex, tags as a JSON array or NULL, sizes as `i64`. Every read goes through the code's own row mapping, with its defaults. The `dromos_meta` key/value table holds the data revision.
- **Storage manager** (`StorageManager`, `ManagerUpdates`, `ManagerQueries`). This composes the store, the graph and a map of diff files. It models:
  - the wipe decision and the graph rebuild in `open`;
  - add, link, remove and metadata update;
  - prefix lookup, path search, `build_rom` and `link_count`.

  The chief invariant is `Consistent`: every stored row has a graph node with the same hash, id, title and version, and every graph node is stored. `Mirrored` adds that graph edges and stored edge rows carry the same (source id, target id, path, size).
- **Content identity** (`Nes`, `RomHash`, `RomTypes`, `Hex`, `HashTool`). This covers iNES header decoding, the choice of hashed byte region (header and optional trainer dropped), hex formatting and parsing of digests, and the ROM-type names. `HashTool` is the older stand-alone hasher of `src/main.rs`.
- **Exchange** (`ExchangeFormat`, `ExchangeExport`, `ExchangeImport`). This covers the export manifest, selecting nodes and edges for export, the overwrite/skip/abort write policy, and conflict analysis on import. It also covers the import merge with its counters, and the checksum gate on copied diff files. Folders are maps from path to bytes.
- **Command-line helpers** (`Commands`, `Completer`, `Multiline`). These are `RootRef::parse`, tab completion, and the key-by-key state machine of the multi-line editor.

Collaborators whose code is not here are parameters of the functions that call them:

- SHA-256 (`Digest`);
- bsdiff creation (`DiffMaker`) and application (`Patcher`);
- base64 (`Base64Encode`/`Base64Decode`);
- the JSON encoder and decoder of the manifest;
- the user's answer to a write conflict (`Ask`);
- the export timestamp.

The file system is the bytes of the one file being read, or a map from file name to bytes. Bytes are integers 0..255 and a digest is 32 of them. Text is a sequence of characters.

## Model

| member | source | states |
|---|---|---|
| Graph.EmptyGraphValid | src/graph/store.rs:40-46 | A new graph satisfies the arena invariant and the index invariant. |
| Graph.AddNode | src/graph/store.rs:48-55 | The node goes into a slot that was vacant, and both lookups (by hash, by db id) lead to it. Other nodes, other lookups and all edges are unchanged. |
| Graph.AddNodeKeepsIndexed | src/graph/store.rs:48-55 | Adding a node whose hash and db id are new keeps every live node reachable through both maps. |
| Graph.AddDuplicateHashShadows | src/graph/store.rs:52-53 | Adding a second node with a stored hash leaves the first node in place, but the hash lookup no longer finds it. |
| Graph.AddEdge | src/graph/store.rs:57-59 | The edge is appended after all existing edges. Nodes and lookups are unchanged. |
| Graph.GetNodeByHash | src/graph/store.rs:61-63 | A found index holds a live node with that hash. When the maps are complete, any live node with the hash is the one found. |
| Graph.GetNodeByDbId | src/graph/store.rs:65-67 | The same holds for database ids. |
| Graph.GetNode | src/graph/store.rs:69-71 | A node is returned exactly for occupied slots. |
| Graph.OutgoingEdgeCount | src/graph/store.rs:100-102 | The count is positive exactly when some edge leaves the node. Incoming edges do not count. |
| Graph.OutgoingCountOfAddEdge | src/graph/store.rs:100-102 | Adding an edge raises the count of its source by one and leaves every other node's count alone. |
| Graph.Neighbors | src/graph/store.rs:105-115 | One entry per outgoing edge, pairing the target node with the edge weight. No entry comes from an incoming edge. |
| Graph.RemoveNode | src/graph/store.rs:118-123 | The node, its two map entries and every edge touching it are gone. The removed node is returned. Other nodes keep their index and data, and other lookups are unchanged. An empty slot gives None and no change. |
| Graph.RemoveNodeKeepsIndexed | src/graph/store.rs:118-123 | Removal keeps every remaining live node reachable through both maps. |
| Graph.SetTitleVersion | src/storage/manager.rs:311-317 | Only the chosen node's title and version change. Slots, edges and maps stay as they are. |
| Graph.SetTitleVersionKeepsIndexed | src/storage/manager.rs:311-317 | Changing a title and version keeps every live node reachable through both maps. |
| Graph.NodeOrder | src/graph/store.rs:85-89 | The live indices, each once, in ascending order. |
| GraphSearch.FindPath | src/graph/store.rs:127-154 | Same node gives the single step with no edge. Otherwise a returned path is a chain of edges from source to target. It has no more steps than any other such path. None is returned exactly when the target cannot be reached along outgoing edges. |
| GraphSearch.ReconstructPath | src/graph/store.rs:183-206 | Following the parent links from the target gives a path from the source, as long as the BFS distance of the target plus one. |
| GraphSearch.ScanEdges | src/graph/store.rs:140-152 | One node's outgoing edges are scanned. Every newly reached node gets a parent one level deeper. Finding the target means it lies exactly one level below the current node. |
| GraphSearch.ConnectedComponent | src/graph/store.rs:158-181 | The set contains the start and is closed under edges in both directions. It holds exactly the nodes connected to the start when direction is ignored. |
| GraphSearch.VisitAcross | src/graph/store.rs:165-177 | Every endpoint across the given edges ends up visited. Newly visited nodes are queued and lie one undirected step further out. |
| Repository.SizeRoundTrip | src/db/repository.rs:44-45 | A size stored as `i64` and read back as `usize` is unchanged below 2^64. |
| Repository.TagsColumn | src/db/repository.rs:152-156 | An empty tag list is stored as NULL. Any other list is stored as a JSON array. |
| Repository.ReadTags | src/db/repository.rs:33-36 | NULL and unparsable text read back as no tags. |
| Repository.TagsRoundTrip | src/db/repository.rs:152-156 | Every tag list, empty or not, reads back equal to what was stored. |
| Repository.ReadRow | src/db/repository.rs:21-60 | Unreadable hex reads as the zero hash. A missing title falls back to the file name, then to "". The ROM type defaults to NES. Tags read as stored. |
| Repository.ToNesHeader | src/db/repository.rs:88-99 | A header exists exactly when both sizes are stored. It carries them, and the trainer is set only by a stored true. |
| Repository.GetNodeByHash | src/db/repository.rs:215-229 | A row is found exactly when one is stored under that hash text, and it carries that hash. |
| Repository.GetNodeById | src/db/repository.rs:231-243 | A row is found exactly when one is stored under that id. |
| Repository.LoadAllNodes | src/db/repository.rs:245-258 | Every stored row is returned once, in ascending id order. |
| Repository.LoadAllEdges | src/db/repository.rs:260-281 | Every stored edge is returned, in ascending id order. |
| Repository.GetEdgesForNode | src/db/repository.rs:284-305 | Exactly the edges with that node as source or target. |
| Repository.InsertNode | src/db/repository.rs:120-183 | A stored hash fails with RomAlreadyExists. Otherwise the row is appended under a fresh positive id and the store stays valid. |
| Repository.InsertEdge | src/db/repository.rs:185-213 | Fails with DiffAlreadyExists exactly when the ordered pair is stored. It does not check that the endpoints exist. Otherwise a fresh row is appended. |
| Repository.DeleteNode | src/db/repository.rs:308-320 | The node and every edge touching it are gone. Nothing else changes. |
| Repository.UpdateNodeMetadata | src/db/repository.rs:323-345 | Only the row with that id changes, and only in title, source URL, version, release date, tags and description. It then reads back as the given metadata. |
| Repository.InsertThenGet | src/db/repository.rs:120-183 | After an insert, lookup by hash and by the returned id find the same row. That row carries the given hash, file name, type, header and metadata. |
| Repository.InsertTwiceFails | src/db/repository.rs:124-126 | A second insert with the same hash fails, whatever its metadata. |
| Repository.EdgePairsAreOrdered | src/db/repository.rs:193-204 | After inserting a→b, inserting a→b again fails, while b→a is accepted. |
| Repository.DeleteRemovesAll | src/db/repository.rs:308-320 | After deletion the id finds no row and no edge. |
| Repository.DeleteKeepsOtherIds | src/db/repository.rs:308-320 | Every other id reads as before. |
| Repository.DeleteKeepsOtherHashes | src/db/repository.rs:308-320 | Every other hash reads as before. |
| Repository.UpdateUnknownId | src/db/repository.rs:323-345 | Updating an id that is not stored changes nothing. |
| Repository.UpdateThenGet | src/db/repository.rs:323-345 | After an update the row reads back with the new metadata, and hash, file name, type and header are as before. |
| Schema.ToDecimal | src/db/schema.rs:35-41 | The revision text is non-empty decimal digits without a leading zero. |
| Schema.ParseU32 | src/db/schema.rs:21-32 | Succeeds exactly on an optional '+' followed by digits whose value fits in 32 bits. A minus sign never parses. |
| Schema.ParseToDecimal | src/db/schema.rs:21-41 | Any 32-bit revision written as decimal parses back to itself. |
| Schema.GetStoredDataRevision | src/db/schema.rs:21-32 | A missing table or key gives None. Otherwise the value is the stored text parsed as `u32`. |
| Schema.SetDataRevision | src/db/schema.rs:35-41 | Without the table it fails. Otherwise the key holds the decimal revision and every other key is untouched. |
| Schema.SetThenGet | src/db/schema.rs:21-41 | Reading after writing a revision gives that revision back. |
| Schema.SetReplaces | src/db/schema.rs:35-41 | A second write replaces the first: the table is as if only the second happened. |
| Schema.HasExistingData | src/db/schema.rs:45-53 | True exactly when a table named `nodes` exists. A failed catalog query gives false. |
| StorageManager.NeedsWipe | src/storage/manager.rs:49-52 | A stored revision wipes exactly when it is below the current one. No revision wipes exactly when data already exists. |
| StorageManager.Migrate | src/storage/manager.rs:77-81 | Every table is present afterwards, and stored rows are kept. |
| StorageManager.Open | src/storage/manager.rs:37-92 | Afterwards the stored revision is the current one. A wipe empties the store and the diff files; otherwise both are kept. The graph is rebuilt from the store. |
| StorageManager.ReopenKeeps | src/storage/manager.rs:49-81 | Opening a file just opened never wipes it, and keeps its rows. |
| StorageManager.LegacyFileWiped | src/storage/manager.rs:49-75 | A file with a `nodes` table but no revision table is wiped. |
| StorageManager.AddRows | src/storage/manager.rs:98-108 | Adding stored rows keeps the graph valid and adds no edge. |
| StorageManager.AddStoredEdges | src/storage/manager.rs:111-127 | Adding stored edges keeps the graph valid and changes no node or lookup. |
| StorageManager.AddStoredEdgesMembers | src/storage/manager.rs:111-127 | The graph gains exactly one edge per stored edge whose two endpoints resolve. Other edges are dropped. |
| StorageManager.LoadGraphFromDb | src/storage/manager.rs:94-130 | The rebuilt graph satisfies the arena invariant. |
| StorageManager.LoadSynced | src/storage/manager.rs:94-130 | The rebuilt graph holds a node for every stored row, with the same hash, id, name, title, version and type. It holds nothing else. |
| StorageManager.LoadedLinkable | src/storage/manager.rs:111-127 | A stored edge enters the graph exactly when both of its endpoint ids are stored. |
| StorageManager.LoadedEdges | src/storage/manager.rs:111-127 | The graph's edges are exactly the stored edges whose endpoints resolve. |
| StorageManager.OpenConsistent | src/storage/manager.rs:37-92 | After opening, store and graph agree. |
| StorageManager.LoadMirrored | src/storage/manager.rs:94-130 | When every stored edge names stored nodes, the graph edges carry exactly the stored edge rows. |
| StorageManager.OpenMirrored | src/storage/manager.rs:37-92 | After opening, edges are mirrored too. |
| StorageManager.SyncedHash | src/storage/manager.rs:152-161 | With store and graph in agreement, a hash is stored exactly when the graph finds it. The graph node found is the one built from the stored row. |
| StorageManager.SyncedId | src/storage/manager.rs:205-212 | Likewise, a db id is in the graph's map exactly when the store has that row. |
| ManagerUpdates.AddNode | src/storage/manager.rs:132-149 | A hashing error is returned as is. An error leaves store and graph unchanged. Otherwise the effect is that of adding the hashed metadata. |
| ManagerUpdates.AddHashed | src/storage/manager.rs:136-148 | A stored hash fails with RomAlreadyExists and changes nothing. Otherwise the hash is stored and the graph finds a node with the given title. Edges and diff files are untouched. |
| ManagerUpdates.AddNodeConsistent | src/storage/manager.rs:132-149 | Adding a node, successfully or not, keeps store and graph in agreement, and keeps edges mirrored. |
| ManagerUpdates.AddHashedConsistent | src/storage/manager.rs:136-148 | The same holds for adding already hashed metadata. |
| ManagerUpdates.DiffName | src/storage/manager.rs:183-198 | The file name is the first 16 hex digits of each hash joined by '_' and ending in ".bsdiff". |
| ManagerUpdates.DiffNameDirections | src/storage/manager.rs:183-198 | The two directions share a name exactly when the hashes share their first 16 hex digits. |
| ManagerUpdates.DiffNameByPrefix | src/storage/manager.rs:183-198 | Hashes with equal 16-digit prefixes give the same name. |
| ManagerUpdates.ReadLinkInputs | src/storage/manager.rs:166-180 | Both files hash, and the bytes read are the ones their hashes cover. |
| ManagerUpdates.PatchFiles | src/storage/manager.rs:183-198 | Both patch files are written under their names, with the reverse patch winning a name clash. No other file changes. |
| ManagerUpdates.LinkGraph | src/storage/manager.rs:205-227 | When both ids resolve, the graph gains a→b then b→a and nothing else. Otherwise it is unchanged. |
| ManagerUpdates.LinkNodesAsWritten | src/storage/manager.rs:165-230 | The link as the code performs it: read and hash both files, write both patches, insert a→b then b→a, then update the graph. |
| ManagerUpdates.LinkRows | src/storage/manager.rs:201-202 | A stored a→b fails with nothing written. If b→a is stored, or a = b, the first row is written and then the second insert fails. Success means exactly two new rows. |
| ManagerUpdates.LinkNodes | src/storage/manager.rs:165-230 | Corrected link: every error leaves the state unchanged. The errors are those of the code: DiffAlreadyExists for a stored a→b, for a stored b→a, or for a = b. Success is the code's own outcome. |
| ManagerUpdates.LinkKeepsSync | src/storage/manager.rs:165-230 | The corrected link keeps store and graph in agreement and edges mirrored. |
| ManagerUpdates.LinkPartialWrite | src/storage/manager.rs:201-202 | With b→a already stored, or a = b, the code keeps one new row that the graph lacks, so edges are no longer mirrored. |
| ManagerUpdates.SelfLinkDesyncs | src/storage/manager.rs:165-230 | Linking a file to itself fails in the code after writing one row, so stored edges and graph edges no longer match. The corrected link leaves everything unchanged. |
| ManagerUpdates.DeleteDiffFiles | src/storage/manager.rs:438-451 | Exactly the files named by the given edges are removed. The count is the number of files that existed. |
| ManagerUpdates.RemoveNode | src/storage/manager.rs:424-466 | The report gives the title, the number of touching edges and the number of files deleted. Node and edges are gone from the store, and the graph no longer finds the hash. |
| ManagerUpdates.RemoveKeepsSync | src/storage/manager.rs:424-466 | Removal keeps store and graph in agreement and edges mirrored. |
| ManagerUpdates.UpdateNodeMetadata | src/storage/manager.rs:294-320 | An unknown hash fails with RomNotFound and changes nothing. Otherwise it succeeds, and edges and diff files are untouched. |
| ManagerUpdates.UpdateThenRead | src/storage/manager.rs:294-320 | The stored row reads back with the new metadata under the same hash. The graph node takes the new title and version and nothing else. |
| ManagerUpdates.UpdateKeepsSync | src/storage/manager.rs:294-320 | A metadata update keeps store and graph in agreement and edges mirrored. |
| ManagerQueries.FindPrefixIndex | src/storage/manager.rs:279-285 | The first live index, in node order, whose hex hash starts with the lower-cased prefix. None only when no node matches. Several matches are not an error. |
| ManagerQueries.FindNodeByHashPrefix | src/storage/manager.rs:279-285 | The node at that first matching index. |
| ManagerQueries.PrefixCaseInsensitive | src/storage/manager.rs:279-285 | Upper- and lower-case prefixes find the same node. |
| ManagerQueries.NonHexPrefixFindsNothing | src/storage/manager.rs:279-285 | A prefix holding a character that is not a hex digit once lowercased, for example any non-ASCII character, finds no node. |
| ManagerQueries.FullHashFindsNode | src/storage/manager.rs:279-285 | The full hex hash of a stored node finds that node. |
| ManagerQueries.FindPath | src/storage/manager.rs:323-331 | An unknown hash gives None. Otherwise the result is a shortest path, None exactly when the target is unreachable. |
| ManagerQueries.ApplyStep | src/storage/manager.rs:355-360 | A step with no edge keeps the bytes. A missing patch file is an I/O error. Otherwise the patch is applied, and a failure is a diff error. |
| ManagerQueries.ApplyChainAppend | src/storage/manager.rs:355-360 | Applying two runs of steps in turn equals applying them joined. |
| ManagerQueries.ApplyChainNoEdges | src/storage/manager.rs:355-360 | Steps without edges leave the bytes unchanged. |
| ManagerQueries.ApplyPath | src/storage/manager.rs:355-361 | The loop applies the patches in path order. |
| ManagerQueries.BuildRom | src/storage/manager.rs:334-375 | A hashing error is passed on. A source not in the graph gives RomNotFound, and an unreachable target gives NoPath. Otherwise the bytes are the source's payload with every patch on a shortest path applied in order, and a patch error is passed on. A target missing from the store gives RomNotFound. The step count is the path length minus one. The result is not checked against the target hash. |
| ManagerQueries.BuildToSelf | src/storage/manager.rs:334-375 | Building a stored ROM into itself returns its own payload. |
| ManagerQueries.LinkCount | src/storage/manager.rs:259-264 | An unknown hash gives 0. Otherwise the count is positive exactly when some edge leaves the node. |
| ManagerQueries.LinkCountAfterLink | src/storage/manager.rs:259-264 | A successful link raises the count of each of its two ROMs by one. |
| Nes.ParseNesHeader | src/rom/nes.rs:7-25 | Fewer than 16 bytes is an I/O error. No magic `NES\x1a` gives None. Otherwise PRG is byte 4 × 16384, CHR is byte 5 × 8192, and the trainer is bit 2 of byte 6. |
| Nes.TrainerFlagIsBit2 | src/rom/nes.rs:18 | Masking with 0x04 tests bit 2 of the flag byte. |
| Nes.SkipTrainer | src/rom/nes.rs:27-32 | The read position moves 512 bytes on exactly when the header has a trainer. |
| RomHash.DetectRomType | src/rom/hash.rs:10-15 | NES exactly for the extension "nes" in any letter case. Anything else, or no extension, gives None. |
| RomHash.DetectAgreesWithFromStr | src/rom/hash.rs:10-15 | Extension detection agrees with the type-name parser on every extension except "nes" in any case with a long s (U+017F) as its last letter, which the parser accepts and detection rejects. |
| RomHash.LongSExtension | src/rom/hash.rs:10-15 | The extension "neſ" names the NES type for the parser but is not detected as a ROM extension. |
| RomHash.HashRomFile | src/rom/hash.rs:32-68 | A missing file is not found. A wrong extension is UnsupportedRomType, naming it or "none". A short file is an I/O error. A `.nes` file without magic is InvalidNesFile. A success records the type, name and header and hashes the payload. |
| RomHash.ReadRomBytes | src/rom/hash.rs:82-106 | A wrong extension gives the whole file. A `.nes` file fails as in hashing, or gives a suffix of the file after the header. |
| RomHash.HashCoversReadBytes | src/rom/hash.rs:38-104 | Whenever hashing succeeds, the hash is the digest of exactly the bytes `read_rom_bytes` returns. |
| RomHash.ReadBytesSkipHeaderAndTrainer | src/rom/hash.rs:87-92 | The payload starts at byte 528 when the trainer bit is set, and at byte 16 otherwise. |
| RomTypes.AsStr | src/rom/types.rs:17-21 | The name is three upper-case letters. |
| RomTypes.FromStr | src/rom/types.rs:23-28 | Exactly the three-letter texts that uppercase to "NES" give NES: "nes" in any case, and "ne" in any case followed by the long s (U+017F). Everything else gives None. |
| RomTypes.DisplayIsAsStr | src/rom/types.rs:8-21 | Display prints the same text as `as_str`. |
| RomTypes.FromStrAsStr | src/rom/types.rs:17-28 | Parsing a type's name gives the type back. |
| Hex.DigitValue | src/rom/hash.rs:70-80 | A nibble written as a hex digit reads back as itself. |
| Hex.EncodeDigits | src/rom/hash.rs:70-72 | Hex encoding produces only lower-case hex digits. |
| Hex.FormatHash | src/rom/hash.rs:70-72 | A digest is written as 64 lower-case hex digits. |
| Hex.ParseHash | src/rom/hash.rs:74-80 | Succeeds exactly on 64 hex digits in any case. |
| Hex.ByteDigits | src/rom/hash.rs:70-72 | The two digits of a byte are its high nibble, then its low nibble. |
| Hex.DecodeEncode | src/rom/hash.rs:70-80 | Decoding the hex text of any bytes gives them back. |
| Hex.EncodeDecode | src/rom/hash.rs:74-80 | Re-encoding decoded hex gives the input in lower case. |
| Hex.ParseFormat | src/rom/hash.rs:70-80 | `parse_hash(format_hash(h)) == Some(h)`. |
| Hex.FormatParse | src/rom/hash.rs:70-80 | Formatting a parsed hash gives the lower-cased text back. |
| Hex.FormatHashInjective | src/rom/hash.rs:70-72 | Distinct digests have distinct hex texts. |
| HashTool.HashedRegion | src/main.rs:69-102 | A missing file is not found. A wrong extension, or a `.nes` file without magic, hashes the whole file. A short `.nes` file is an I/O error, and every error is an I/O error. |
| HashTool.HashedFromHeaderEnd | src/main.rs:76-84 | With the magic, hashing starts at byte 16, or at byte 528 when the trainer bit is set. |
| HashTool.AgreesWithLibrary | src/main.rs:69-102 | Where the library hashes a file, the stand-alone tool hashes the same bytes. Where the library rejects a `.nes` file without magic, the tool hashes the whole file. |
| ExchangeFormat.FromNodeRow | src/exchange/format.rs:45-58 | The hash text parses back to the row's hash, and the type name parses back to its type. User fields are copied. A file header is present exactly when the row has one. |
| ExchangeFormat.FromEdgeRow | src/exchange/format.rs:63-76 | The endpoint hashes and checksum are the given texts. Path and size come from the row. |
| ExchangeFormat.ExportedHashesDistinct | src/exchange/format.rs:45-50 | Rows with different hashes export different hash texts. |
| ExchangeExport.WriteWithConflictCheck | src/exchange/export.rs:32-50 | An absent path is written. On an existing path, Overwrite writes, while Skip and Abort leave the files untouched. The answer's error is passed on. |
| ExchangeExport.SelectHashes | src/exchange/export.rs:68-80 | Without a start, every graph node is selected. With a start, the hashes of its undirected component are selected, and an unknown start is an Export error. |
| ExchangeExport.SelectedRows | src/exchange/export.rs:83-87 | Exactly the stored rows whose hash is selected. |
| ExchangeExport.IdToHash | src/exchange/export.rs:93-96 | Every selected id maps to the hex hash of a selected row with that id. |
| ExchangeExport.SelectedEdges | src/exchange/export.rs:99-103 | Exactly the stored edges with both endpoints selected. |
| ExchangeExport.Checksum | src/exchange/export.rs:112-133 | Empty exactly when the diff file is missing. Otherwise it is the hex SHA-256 of the file. |
| ExchangeExport.ExportEdges | src/exchange/export.rs:112-133 | One manifest entry per selected edge, in order, with the endpoint hashes and the file checksum. |
| ExchangeExport.DiffData | src/exchange/export.rs:112-133 | Every selected edge whose diff file exists has that file queued with its bytes. Every queued item is an existing file with its own bytes. |
| ExchangeExport.BuildManifest | src/exchange/export.rs:83-146 | The header records manifest version 1, the current data revision and the timestamp. One entry per selected row and one per selected edge. |
| ExchangeExport.ManifestEdges | src/exchange/export.rs:99-133 | Each manifest edge names the hex hashes of its stored endpoints. Its checksum is empty exactly when the file is missing. |
| ExchangeExport.WriteDiffs | src/exchange/export.rs:175-187 | Paths outside the queue are untouched. A run that is not aborted leaves every queued file present. |
| ExchangeExport.WriteDiffsAbortStops | src/exchange/export.rs:175-187 | An aborted run ends at a file whose conflict answer was Abort. Everything after it is unwritten, as if the queue stopped there. |
| ExchangeExport.WriteOutput | src/exchange/export.rs:161-187 | Aborting the index write writes nothing at all. Success leaves the index and every queued file present. |
| ExchangeExport.WriteFolder | src/exchange/export.rs:59-194 | An unknown start writes nothing. Otherwise the counts are the manifest list lengths, whether or not the export aborted, and the files are those the writes leave. |
| ExchangeExport.ExportAllSelectsStored | src/exchange/export.rs:79-87 | Without a start, every stored row that the graph holds is exported. |
| ExchangeImport.NodeMetadataFromExport | src/exchange/import.rs:313-322 | The six user-editable fields are copied from the manifest entry. |
| ExchangeImport.RomMetadataFromExport | src/exchange/import.rs:324-345 | A bad hash or an unknown type is an Import error. Otherwise hash, type and name come from the entry, with no NES header and the file header base64-decoded. |
| ExchangeImport.MetadataRoundTrip | src/exchange/import.rs:313-322 | Exporting a row and reading its metadata back preserves the six user fields. |
| ExchangeImport.RomMetadataRoundTrip | src/exchange/import.rs:324-345 | Exporting a row and reading its identity back gives its hash, type, name and file header, provided base64 round-trips. |
| ExchangeImport.CompareField | src/exchange/import.rs:286-294 | A difference is reported exactly when the values differ. |
| ExchangeImport.CompareOptional | src/exchange/import.rs:296-311 | None and Some("") count as equal. Any other difference is reported with "" for None. |
| ExchangeImport.FieldDiffs | src/exchange/import.rs:70-104 | No differences exactly when title, version, URL, date, description and ", "-joined tags agree. |
| ExchangeImport.JoinedTagsAgree | src/exchange/import.rs:96-104 | Different tag lists with the same joined text raise no conflict. |
| ExchangeImport.ConflictOf | src/exchange/import.rs:106-112 | A conflict names the entry's hash text and title, and has differences whenever the entry conflicts. |
| ExchangeImport.Conflicts | src/exchange/import.rs:62-114 | The analysis succeeds exactly when every hash text parses. |
| ExchangeImport.ConflictsExactly | src/exchange/import.rs:62-114 | The conflicts are exactly the entries that name a stored file with different metadata, in manifest order. New files never conflict. |
| ExchangeImport.ConflictsErrorNamesEntry | src/exchange/import.rs:63-65 | A failed analysis names the first entry whose hash does not parse. |
| ExchangeImport.AnalyzeImport | src/exchange/import.rs:41-117 | A missing index, or one that is not valid UTF-8, is a read error. Text that is not a manifest is a JSON error. A different data revision is an Import error before any comparison. Otherwise the manifest and its conflicts are returned. |
| ExchangeImport.ImportNode | src/exchange/import.rs:141-183 | A bad hash is an Import error. A stored hash is skipped unchanged, or its metadata is overwritten. A new hash is inserted. Exactly one counter rises and the hash text maps to the stored id. |
| ExchangeImport.ImportExisting | src/exchange/import.rs:145-163 | Without overwrite, only the skip counter and id map change. With overwrite, the row takes the entry's metadata. |
| ExchangeImport.ImportNew | src/exchange/import.rs:164-182 | The entry is appended to the stored rows and counted as added. |
| ExchangeImport.ImportNodes | src/exchange/import.rs:141-183 | The node loop keeps every stored hash and leaves edges alone. |
| ExchangeImport.ImportNodesCount | src/exchange/import.rs:141-183 | A complete loop counts every entry once and maps every hash text. |
| ExchangeImport.ImportNodesKeepRows | src/exchange/import.rs:141-183 | Without overwrite, every stored row stays as it was, metadata included. |
| ExchangeImport.ResolveId | src/exchange/import.rs:187-212 | The id map is consulted first, then the store. An unknown hash gives None, and unparsable text outside the map is an error. |
| ExchangeImport.ImportEdge | src/exchange/import.rs:186-247 | Only unparsable hash text fails. Nodes and the id map stay, and the edge counters rise by at most one. |
| ExchangeImport.ImportEdgeFails | src/exchange/import.rs:186-212 | An edge fails exactly when its source text, or (with a resolved source) its target text, is neither mapped nor a hash. |
| ExchangeImport.ImportEdgeUnresolved | src/exchange/import.rs:196-209 | An edge with an endpoint unknown to both the import and the store is skipped uncounted. |
| ExchangeImport.ImportEdgeResolved | src/exchange/import.rs:214-247 | A duplicate pair raises the skip counter and changes nothing else. A new pair is stored and counted as added. |
| ExchangeImport.GraphEdge | src/exchange/import.rs:223-239 | The graph gains the edge only when both hashes are found there. |
| ExchangeImport.ImportEdges | src/exchange/import.rs:186-248 | The edge loop keeps nodes and id map, and stops only on unparsable hash text. |
| ExchangeImport.ImportEdgesCount | src/exchange/import.rs:186-248 | A complete loop counts exactly the edges whose endpoints both resolve. |
| ExchangeImport.CopyDiff | src/exchange/import.rs:252-280 | A file present locally, or absent from the folder, is not copied. Otherwise a non-empty checksum that does not match is an error. Else the file is copied. |
| ExchangeImport.CopyDiffs | src/exchange/import.rs:251-281 | Local files are never overwritten, the count is the number of new files, and any error is a real checksum mismatch. |
| ExchangeImport.CopyDiffsSound | src/exchange/import.rs:251-281 | Every new local file comes from the folder under a manifest edge's name and passed the checksum gate. |
| ExchangeImport.CopyDiffsComplete | src/exchange/import.rs:251-281 | A run without error leaves every folder diff named by the manifest present locally. |
| ExchangeImport.ExecuteImport | src/exchange/import.rs:120-284 | Existing diff files are kept. The reported copy count is the number of files added. |
| ExchangeImport.ExecuteImportCounts | src/exchange/import.rs:141-248 | On success, added + skipped + overwritten nodes equals the number of manifest entries, and every entry's hash is stored. Added + skipped edges equals the number of manifest edges whose endpoints are both stored. |
| ExchangeImport.ExecuteImportKeepsRows | src/exchange/import.rs:141-183 | Without overwrite, every row stored before is still stored unchanged. |
| ExchangeImport.ExecuteImportKeepsSync | src/exchange/import.rs:120-284 | If store and graph hold the same nodes and the same edges before an import, they still do afterwards. This holds on success and after an error at any step. |
| ExchangeImport.ImportNodesSynced | src/exchange/import.rs:141-183 | The file loop keeps store, graph and id map in step, also when it stops at an error. |
| ExchangeImport.ImportExistingSynced | src/exchange/import.rs:145-163 | Overwriting a stored file rewrites its row and its graph node together. Skipping it writes neither. |
| ExchangeImport.ImportNewSynced | src/exchange/import.rs:164-182 | A new file's row and graph node are added together. |
| ExchangeImport.ImportEdgesSynced | src/exchange/import.rs:186-248 | The edge loop keeps store and graph in step, also when it stops at an error. |
| ExchangeImport.ImportEdgeSynced | src/exchange/import.rs:186-248 | An inserted edge row gets its graph edge, between the graph nodes of the two rows it joins. |
| ExchangeImport.ExecuteImportNodeFailure | src/exchange/import.rs:141-183 | A failure in the node loop makes the import return an error, with stored edges and diff files untouched. |
| Commands.ParseRootRef | src/cli/commands.rs:47-55 | 64 hex digits in any case name the decoded digest. Any other text is a path, kept as written. |
| Commands.ParseFormattedHash | src/cli/commands.rs:47-52 | `parse(format_hash(h))` names `h`. |
| Commands.ParseIgnoresCase | src/cli/commands.rs:49-52 | Upper- and lower-case spellings of a hash name the same digest. |
| Commands.NotAHashIsAPath | src/cli/commands.rs:49-54 | Text containing a non-hex character is a path. |
| Completer.CompletionsIn | src/cli/completer.rs:77-86 | Exactly the listed names starting with the prefix, each shown and inserted as itself. |
| Completer.CommandCompletions | src/cli/completer.rs:77-86 | Exactly the commands starting with the prefix. |
| Completer.CompletionsInListOrder | src/cli/completer.rs:77-86 | The candidates appear in the order of the command list, none missing. |
| Completer.EmptyPrefixOffersAll | src/cli/completer.rs:38-40 | The empty prefix offers all nine commands in list order. |
| Completer.EmptyPrefixKeepsAll | src/cli/completer.rs:77-86 | Filtering any command list by the empty prefix keeps every entry, in order. |
| Completer.Words | src/cli/completer.rs:52 | Splitting at Unicode White_Space yields non-empty words without whitespace, and none exactly when the text is all whitespace. |
| Completer.WordsLayout | src/cli/completer.rs:52 | Every text is its words with whitespace between each two of them and whitespace or nothing at either end, so the words are the maximal runs of non-whitespace. |
| Completer.WordsOfLayout | src/cli/completer.rs:52 | Splitting words laid out with whitespace gives back exactly those words, whatever whitespace surrounds them. |
| Completer.WordsSkipBlank | src/cli/completer.rs:52 | Leading whitespace adds no word. |
| Completer.WordsTakeWord | src/cli/completer.rs:52 | A word followed by whitespace or by nothing is the first word, and the rest is split as before. |
| Completer.WordsKeepText | src/cli/completer.rs:52 | The words, joined, are the text with its whitespace removed. |
| Completer.Complete | src/cli/completer.rs:45-73 | Only the words before the cursor count. With none, all commands from column 0. With one word and no trailing space, the commands it begins once lowercased, from column 0. Otherwise file-name completion exactly when the lowercased first word is add, link or hash, and nothing at the cursor for any other command. |
| Completer.CompleteByLayout | src/cli/completer.rs:45-73 | For any line whose text before the cursor is words laid out with whitespace: no word gives every command; a lone word with no space after it gives the commands it begins; otherwise add, link and hash hand over to file names and any other command gets nothing. |
| Completer.CompleteLoneWord | src/cli/completer.rs:59-64 | A lone word with no space after it is completed as a command name from column 0. |
| Completer.CompleteAfterWords | src/cli/completer.rs:59-72 | Past the first word, only the lowercased command decides between file names and nothing. |
| Completer.LoneWordCompletes | src/cli/completer.rs:52-64 | A word followed by whitespace that does not end in a space, such as a no-break space, is still the first word being typed. |
| Completer.NoBreakSpaceSeparates | src/cli/completer.rs:52-64 | "add" followed by U+00A0 completes as the first word "add" and offers "add". |
| Completer.KelvinCompletes | src/cli/completer.rs:59-64 | "lin" followed by the Kelvin sign U+212A lowercases to "link" and is offered "link". |
| Completer.CommandLower | src/cli/completer.rs:59 | Lowercasing keeps the length, maps ASCII capitals to small letters and the Kelvin sign to 'k', and keeps every other character. |
| Completer.CompleteFirstWord | src/cli/completer.rs:59-64 | While the first word is typed, the commands starting with it lowercased are offered from column 0. |
| Completer.CompleteAfterCommand | src/cli/completer.rs:66-72 | After add, link or hash and a space, file names are completed. After any other command nothing is offered at the cursor. |
| Multiline.Lines | src/cli/multiline.rs:37 | A text splits into at least one line exactly when it is non-empty. |
| Multiline.Initial | src/cli/multiline.rs:34-44 | There is always a line, empty input gives one empty line, and the cursor sits at the end of the last line (a character column, which is the code's byte column on ASCII text). |
| Multiline.LinesJoin | src/cli/multiline.rs:37 | A text without carriage returns or a final line feed is split into lines that join back to it. |
| Multiline.SaveInitial | src/cli/multiline.rs:34-57 | Saving straight away returns such a text unchanged. |
| Multiline.Step | src/cli/multiline.rs:54-135 | Ctrl+D alone saves the lines joined by line feeds. Esc alone cancels. Every other key keeps the cursor on a line and within it. |
| Multiline.Edit | src/cli/multiline.rs:63-134 | Every editing key keeps the cursor on a line and within it, counting the column in characters. On ASCII text this is the code's byte column. |
| Multiline.Run | src/cli/multiline.rs:49-139 | A run still editing keeps the cursor within the text and has seen no Esc. |
| Multiline.EnterSplits | src/cli/multiline.rs:64-69 | Enter splits the line at the cursor: one more line, the same text, the cursor at the start of the new line. |
| Multiline.BackspaceAtStart | src/cli/multiline.rs:71-82 | Backspace at the start of the text does nothing. |
| Multiline.BackspaceJoins | src/cli/multiline.rs:75-81 | Backspace at the start of a later line joins it to the previous one, the cursor at the old end of that line. |
| Multiline.TypeThenBackspace | src/cli/multiline.rs:71-133 | Typing a character and then Backspace restores lines and cursor. |
| Multiline.EnterThenBackspace | src/cli/multiline.rs:64-82 | Enter followed by Backspace restores lines and cursor. |
| Multiline.DeleteAtEnd | src/cli/multiline.rs:84-92 | Delete at the end of the last line does nothing. |
| Multiline.DeleteJoins | src/cli/multiline.rs:87-91 | Delete at the end of another line joins the next line to it, with the cursor unmoved. |
| Multiline.UpDownClamp | src/cli/multiline.rs:110-121 | Up and Down keep the lines, do nothing on the first or last line, and clamp the column to the target line. |
| Multiline.ModifiedCharIgnored | src/cli/multiline.rs:130-134 | A character typed with Control or Alt held, other than Ctrl+D, changes nothing. |
| Multiline.EscCancels | src/cli/multiline.rs:60-61 | Any run of keys without Ctrl+D or Esc, followed by Esc, cancels. |
| Multiline.TypeAsWritten | src/cli/multiline.rs:130-133 | Typing inserts the character and moves the byte column on by one. |
| Multiline.TypedCursorOffBoundary | src/cli/multiline.rs:130-133 | Typing 'é' on an empty line leaves the byte column inside the character. |
| Multiline.Type | src/cli/multiline.rs:130-133 | Corrected typing inserts the same character. |
| Multiline.TypedCursorOnBoundary | src/cli/multiline.rs:130-133 | With the corrected step the byte column lands right after the typed character. It agrees with the code exactly for one-byte characters. |
| Multiline.EditTypes | src/cli/multiline.rs:130-133 | The editor's typing step is the corrected one: the cursor is after the new character. |

## Left out

- Creating and applying binary diffs (src/diff/bsdiff.rs) are the parameters `DiffMaker` and `Patcher`. No round-trip law is assumed about them.
- SHA-256, base64 and the JSON encoding of the manifest and the tags column are parameters or taken as exact. serde's array text is an opaque value that reads back as the list written.
- SQL itself is not modelled: rusqlite errors, the migration script and foreign-key behaviour. A query is assumed to succeed. The migration is reduced to "all tables exist afterwards".
- File-system failures, directory creation, and deleting files during a wipe are left out. The wipe empties the diff map. The warnings printed for missing diff files are also left out.
- src/config.rs, src/cli/repl.rs, src/cli/theme.rs and the message texts of src/error.rs are left out: they are path discovery, interactive prompts and printing. Error payloads are simplified to the fields the model compares.
- Terminal raw mode and drawing (`edit_multiline`, `render_editor`) are left out. So is the delegated file-name completer, which is an opaque outcome.
- The extended iNES fields (mapper, mirroring, battery, NES 2.0, submapper) that src/db/repository.rs reads are left out. src/rom/types.rs does not define them. The header has the three fields that file does define.
- Multiline.Run: its contract states only that a run still editing is valid and saw no Esc. The effect of each key is stated per key by the lemmas.
- ManagerUpdates.LinkNodesAsWritten and ManagerUpdates.RemoveNode: where the code panics with `expect`, the model makes the input a precondition instead. That is when a file being linked, or the node being removed, is not stored.
- ExchangeImport.ImportEdge: an `insert_edge` error other than DiffAlreadyExists cannot arise in the model, since the store's only edge check is the pair check.
- Repository.InsertThenGet and Repository.UpdateThenGet: their conjuncts about the source-file-header field describe the model's row, not src/db/repository.rs. That file has no such column and never writes or reads it. The field is in the row because src/exchange/format.rs:56 reads it from a row and src/exchange/import.rs:333-343 fills it in.
- Multiline.Initial and Multiline.Edit: the column counts characters. The code keeps a byte index: `len()` at src/cli/multiline.rs:44, and `cursor_col - 1`, `remove` and `insert` in the key arms. The two agree on ASCII text. On other text the code's column can fall inside a character, and the next `remove` or `insert` panics. For example, start from "é" (column 2) and press Backspace: `remove(1)` is not on a character boundary. The model removes the character instead. Only typing is modelled at the byte level, by Multiline.TypeAsWritten and Multiline.Type.
- RomTypes.FromStr and RomHash.DetectAgreesWithFromStr: Rust's Unicode case mapping is modelled only as far as it can make a text equal "NES" or "nes". That covers ASCII letters and the long s U+017F, which uppercases to 'S' and lowercases to itself. So `from_str("neſ")` is NES while detection rejects the extension "neſ", as RomHash.LongSExtension states. No other character uppercases to 'N', 'E' or 'S'.
- Ascii.ToLower and Ascii.ToUpper map only ASCII letters, where Rust's `to_lowercase` and `to_uppercase` are Unicode-wide. The model applies them to arbitrary text in two places, and the difference cannot show there. ManagerQueries.PrefixMatch lowercases a user prefix (src/storage/manager.rs:280) and compares it with lowercase hex. RomHash.DetectRomType lowercases a file extension (src/rom/hash.rs:11) and compares it with "nes". No non-ASCII character lowercases to a text that starts with a hex digit or with 'n', 'e' or 's'. The Kelvin sign U+212A gives 'k', and U+0130 gives 'i' followed by U+0307. Every other non-ASCII character lowercases to non-ASCII text. So a prefix or an extension holding a non-ASCII character matches nothing in the code, and matches nothing in the model either (ManagerQueries.NonHexPrefixFindsNothing). Elsewhere the model applies them only to text known to be hex digits. Where the code case-maps arbitrary text and compares it with an ASCII name that a non-ASCII character can reach, the model adds that mapping: the long s in RomTypes.NameUpper and the Kelvin sign in Completer.CommandLower.
- ManagerQueries.PrefixCaseInsensitive: the upper-casing in its statement is ASCII, that is, a prefix typed with capital letters. Under Rust's full `to_uppercase` the claim would not hold: the ligature U+FB00 (ﬀ) uppercases to "FF", which finds a hash starting "ff", while "ﬀ" itself finds nothing.
- RomTypes.FromStr: src/exchange/import.rs:330 and src/db/repository.rs:29 call `.parse()` for a `RomType`. src/rom/types.rs:23-28 defines only an inherent `from_str` and no `FromStr` implementation. The model assumes that `.parse()` behaves like that inherent function.
- Completer.Complete: the cursor position counts characters. The line editor passes a byte offset, and `&line[..pos]` (src/cli/completer.rs:51) slices bytes. The two agree because the editor only passes offsets on character boundaries.
- Repository.InsertNode and Repository.InsertEdge: fresh ids come from counters that never go down, as SQLite's AUTOINCREMENT keeps them. The migration that creates the tables is not part of this model. Without AUTOINCREMENT, SQLite takes the largest id plus one. So after the node with the highest id is deleted, the next insert would reuse that id, where the model gives a new one.
- Completer.CommandLower: it is `to_lowercase` only as far as a comparison with the ASCII command names can see. Characters that lowercase to something other than an ASCII letter are kept as they are; the result still matches no command, as in the code.
- ExchangeImport.CopyDiff, ExchangeImport.CopyDiffs and ExchangeExport.WriteDiffs: the model treats a diff path as a plain file name, a key of the diffs map. ExchangeExport.DiffData and ExchangeFormat.DiffDest do the same. The code joins the path onto a directory (src/exchange/import.rs:253-254 and 278, src/exchange/export.rs:115 and 176), so "./a.bsdiff" and "a.bsdiff" name the same file there but different keys here. A path with ".." or an absolute path also reaches outside the diffs directory in the code; for example, export's `join("../index.json")` writes the index file. For the names the program itself makes (ManagerUpdates.DiffName: two hash prefixes joined by "_" and ".bsdiff"), the two agree.
- Multiline key modifiers are reduced to Shift, Control and Alt. Other crossterm modifiers are left out.
- `connected_component_count`, `get_neighbors`, `get_node_row_by_hash` and `node_exists` of the manager are one-line compositions of modelled lookups and have no members of their own.

## Behaviour worth knowing

The model follows the code in each of these cases:

- Prefix lookup returns the first match in node order. It raises no ambiguity error.
- Nothing runs in a transaction. `delete_node`, `link_nodes` and `execute_import` can leave earlier writes behind.
- `build_rom` does not check the rebuilt bytes against the target hash.
- The wipe happens only when the stored revision is lower than the current one, not on any mismatch.
- `link_nodes` requires both ROMs to be stored already. It does not add them.
- Diff files end in ".bsdiff".
- A magic-bearing header whose sizes exceed the file is not rejected.

## Findings

| source | as written | input that shows it | evidently intended | confidence | as-written member | corrected member |
|---|---|---|---|---|---|---|
| src/storage/manager.rs:198-227 | `link_nodes` writes both patch files, then inserts a→b and b→a with `?` between them, and only then updates the graph. | Link a and b when b→a is already stored, or link a file to itself. The first insert succeeds and the second fails, so a row stays in the store that the graph never gets. | Check both pairs before writing anything, so that a failed link changes nothing and store and graph stay mirrored. | medium; not executed | ManagerUpdates.LinkPartialWrite | ManagerUpdates.LinkKeepsSync |
| src/cli/multiline.rs:130-133 | After `insert(cursor_col, c)` the byte column moves on by 1. | Type 'é' on an empty line: the line is two bytes long and the column is 1, inside the character. The next insertion there panics. | Move the column on by `c.len_utf8()`. | high; not executed | Multiline.TypedCursorOffBoundary | Multiline.TypedCursorOnBoundary |
