# MDAL mesh drivers: 2DM text format and ESRI TIN

This project models two format drivers of MDAL, the Mesh Data Abstraction
Library, and proves properties of them in Dafny.

- **2DM (`Driver2dm`, `Mesh2dm`).** `Driver2dm::load` and
  `Driver2dm::save`, plus the two queries `Mesh2dm` answers: `vertexIndex`
  and `maximumVertexId`. The load reads a text mesh in three passes:
  - The counting pass classifies every line by its card (`E4Q`, `E3T`,
    `ND`, `E2L`, and the unsupported `E3L`/`E6T`/`E8Q`/`E9Q`).
  - The parsing pass fills containers of the counted sizes. It builds the
    sparse node-ID-to-vertex-index map with `_parse_vertex_id_gaps` and
    collects the optional cell elevations.
  - The resolution pass rewrites face entries through that map, and warns
    about an unmapped entry with `vertices.size() < nodeID`, as line 268
    writes it. Beside that warning the model reports the corrected test
    `vertices.size() <= nodeID`, whether some entry is no vertex index
    (see "## Findings").

  The save writes a header, then `ND`, `E3T`/`E4Q` and `E2L` lines. Node
  and face lines carry their 1-based position as ID, vertex references
  are written 1-based, and edge IDs carry on after the face IDs
  (`facesCount + i + 1`).
- **ESRI TIN (`DriverEsriTin`).** `load`, and the helpers `getTinName`,
  `getCrsWkt` and `readSuperpoints`. The load works on the decoded contents
  of the TIN's sibling files (tdenv.adf, tnod.adf, tmsk.adf, tnxy.adf,
  tnz.adf) and runs four rounds:
  1. Decode the faces, three indices at a time. Faces whose mask bit is set
     are dropped. The raw indices of the kept faces are marked as wanted.
     The source marks with `1`; the model marks with `0`, the value that
     is always below the "not wanted" sentinel (see "## Findings"). The
     two agree whenever the raw index count is at least 2
     (`AsWrittenAgreesFromTwo`).
  2. Compact the wanted raw indices into dense indices, in raw order.
  3. Read the vertex records and scatter the wanted ones to their dense
     slots.
  4. Rewrite the kept faces through the compaction.

Files:
- `wrappers.dfy`: `Option` and `Result`.
- `mesh_model.dfy`: the generic mesh (vertices, edges, faces), the coarse
  error kinds, and `size_t` decrement with wrap-around.
- `mdal_2dm.dfy`: the 2DM reader and `Mesh2dm`.
- `mdal_2dm_save.dfy`: the 2DM writer and the load-of-save round trip.
- `mdal_esri_tin.dfy`: the ESRI TIN load.
- `esri_tin_files.dfy`: the ESRI TIN helpers.

Each load is a method with loops, proved equal to a specification function.
- `Mdal2dm.LoadSpec` specifies the 2DM load.
- `EsriTin.TinSpec` specifies the TIN load.
- `Mdal2dmSave.SaveSpec` specifies the save.

The lemmas state what those functions deliver: the ID map's first-writer
semantics, the ordering check, the round trip, the density and identity of
the TIN's remapped faces, and so on. The TIN's index table is an `array`
updated in place, as the source's `std::vector` is.

## Model

| member | source | states |
|---|---|---|
| MeshModel.SizeDec | mdal/frmts/mdal_2dm.cpp:196 | definition: `toSizeT(chunk) - 1` in `size_t`, where 0 wraps to SIZE_MAX |
| Mdal2dm.StartsWith | mdal/frmts/mdal_2dm.cpp:119 | definition: `startsWith`, the line begins with the prefix |
| Mdal2dm.KindOf | mdal/frmts/mdal_2dm.cpp:130-153 | definition: the card classification both passes share: `E4Q` and `E3T` are faces of 4 and 3 vertices, then `ND`, `E2L`, and the unsupported `E3L`/`E6T`/`E8Q`/`E9Q`; anything else is skipped. No line starts with two of the cards, so the parsing pass testing `E2L` before `ND` (lines 214-227) classifies alike |
| Mdal2dm.HeaderOk | mdal/frmts/mdal_2dm.cpp:119-123 | definition: the first line exists and begins with `MESH2D` |
| Mdal2dm.HasUnsupported | mdal/frmts/mdal_2dm.cpp:144-152 | definition: some line carries an unsupported card |
| Mdal2dm.WellFormedLine | mdal/frmts/mdal_2dm.cpp:180-251 | definition: the chunks the parser reads: more than n + 1 on a face of n vertices (line 193), more than 4 on an edge (line 219), 5 on a node (`chunks[4]`, line 251) |
| Mdal2dm.ReadLinesWellFormed | mdal/frmts/mdal_2dm.cpp:174-254 | definition: every line the parsing pass reaches past its ordering check has those chunks |
| Mdal2dm.LoadReadable | mdal/frmts/mdal_2dm.cpp:111-254 | definition: chunks are needed only once the header check and the counting pass have passed |
| Mdal2dm.Select | mdal/frmts/mdal_2dm.cpp:130-153 | definition: the lines of one kind, in file order; their number is the count the first pass takes |
| Mdal2dm.NodeKey | mdal/frmts/mdal_2dm.cpp:230 | definition: `toSizeT(chunks[1])` of a node line, 0 for every other line |
| Mdal2dm.NodeVertex | mdal/frmts/mdal_2dm.cpp:248-251 | definition: the vertex of a node line, x, y and z from chunks 2 to 4 |
| Mdal2dm.NodeId | mdal/frmts/mdal_2dm.cpp:244 | definition: the node ID minus 1 in `size_t` |
| Mdal2dm.FaceElevation | mdal/frmts/mdal_2dm.cpp:199-210 | definition: the chunk after the material ID when a face of n vertices has exactly n + 4 chunks, none otherwise |
| Mdal2dm.LineEdge | mdal/frmts/mdal_2dm.cpp:220-224 | definition: both node IDs of an edge line minus 1 in `size_t` |
| Mdal2dm.Vertices | mdal/frmts/mdal_2dm.cpp:248-252 | definition: the vertex of each node line, in order |
| Mdal2dm.NodeIds | mdal/frmts/mdal_2dm.cpp:244-246 | definition: the 0-based ID of each node line, in order |
| Mdal2dm.RawFaces | mdal/frmts/mdal_2dm.cpp:186-196 | definition: the raw face of each face line, in order |
| Mdal2dm.Elevations | mdal/frmts/mdal_2dm.cpp:199-210 | definition: the optional elevation of each face line, in order |
| Mdal2dm.Edges | mdal/frmts/mdal_2dm.cpp:220-225 | definition: the edge of each edge line, in order |
| Mdal2dm.NodesOrdered | mdal/frmts/mdal_2dm.cpp:232-242 | definition: the non-zero node IDs of the whole file strictly increase |
| Mdal2dm.OrderedFirst | mdal/frmts/mdal_2dm.cpp:232-242 | definition: the same over the first n lines, compared pairwise |
| Mdal2dm.LastKey | mdal/frmts/mdal_2dm.cpp:172-242 | definition: `lastVertexID` after n lines, the last non-zero node ID, 0 before any |
| Mdal2dm.CheckedFirst | mdal/frmts/mdal_2dm.cpp:236-242 | definition: the pass's own test, line by line: each non-zero ID exceeds the `lastVertexID` before it, unless that is 0 |
| Mdal2dm.CardsArePrefixes | mdal/frmts/mdal_2dm.cpp:132-148 | the character tests of the classifier are exactly `startsWith` of the two- and three-letter cards |
| Mdal2dm.HeaderIsOther | mdal/frmts/mdal_2dm.cpp:119 | a line that passes the `MESH2D` header check is of no element kind, so neither pass reads it |
| Mdal2dm.SelectFirst | mdal/frmts/mdal_2dm.cpp:130-153 | the lines of one kind among the first n are at most n, and in a well-formed file each has the chunks the parser reads |
| Mdal2dm.SelectFirstSkips | mdal/frmts/mdal_2dm.cpp:130-153 | a line of another kind changes no count or container of this kind |
| Mdal2dm.SelectFirstGrows | mdal/frmts/mdal_2dm.cpp:130-153 | reading more lines never shrinks a count |
| Mdal2dm.SelectFirstTakes | mdal/frmts/mdal_2dm.cpp:174-254 | a line of kind p is appended and stays within the whole file's count, so the pre-sized container always has the slot the parser writes |
| Mdal2dm.SelectFirstOfPrefix | mdal/frmts/mdal_2dm.cpp:130-153 | what the first n lines select does not depend on the lines after them |
| Mdal2dm.SelectFirstOfConcat | mdal/frmts/mdal_2dm.cpp:130-153 | selecting from two runs of lines, one after the other, selects from each in turn |
| Mdal2dm.SelectOfConcat | mdal/frmts/mdal_2dm.cpp:130-153 | the selection of a concatenation is the concatenation of the selections |
| Mdal2dm.SelectOfAll | mdal/frmts/mdal_2dm.cpp:130-153 | lines that are all of one kind are all selected, in order |
| Mdal2dm.SelectOfNone | mdal/frmts/mdal_2dm.cpp:130-153 | lines that are none of a kind select nothing |
| Mdal2dm.CountStep | mdal/frmts/mdal_2dm.cpp:132-144 | one more line adds one to the count of its own kind and leaves the other two counts alone |
| Mdal2dm.CountingPass | mdal/frmts/mdal_2dm.cpp:125-153 | fails with `Err_UnsupportedElement` exactly when some line is an unsupported element; otherwise returns the number of node, face and edge lines |
| Mdal2dm.RawFace | mdal/frmts/mdal_2dm.cpp:183-196 | a face has as many vertex IDs as the digit of its card says (3 for `E3T`, 4 for `E4Q`) |
| Mdal2dm.LastKeyIsMaximum | mdal/frmts/mdal_2dm.cpp:232-243 | in an ordered prefix, `lastVertexID` is the largest non-zero node ID seen, and some node carries it |
| Mdal2dm.CheckedIsOrdered | mdal/frmts/mdal_2dm.cpp:232-243 | comparing each non-zero ID only with the last non-zero one accepts exactly the files whose non-zero IDs strictly increase; zero IDs are exempt (both directions) |
| Mdal2dm.UncheckedPrefix | mdal/frmts/mdal_2dm.cpp:236-241 | a prefix that fails the check makes the whole file unordered, so aborting at once is right |
| Mdal2dm.IdMapState | mdal/frmts/mdal_2dm.cpp:171-246 | definition: the ID map and the duplicate warning after `_parse_vertex_id_gaps` is applied to each 0-based node ID in turn, the i-th with vertex index i |
| Mdal2dm.ParseVertexIdGaps | mdal/frmts/mdal_2dm.cpp:45-59 | no entry changes; a key is added only when the ID differs from the slot and is new, and it maps to the slot; the duplicate warning fires exactly when the ID differs from the slot and is already a key |
| Mdal2dm.IdMapKeys | mdal/frmts/mdal_2dm.cpp:244-246 | after the pass, an ID is a key exactly when some node carries it in a slot other than its own |
| Mdal2dm.IdMapFirstWriter | mdal/frmts/mdal_2dm.cpp:50-57 | every key maps to the first slot that carries it (not counting its own slot): later duplicates never overwrite |
| Mdal2dm.IdMapDuplicate | mdal/frmts/mdal_2dm.cpp:51-54 | the duplicate-node warning is raised exactly when two slots carry the same ID and neither slot is that ID (both directions) |
| Mdal2dm.IdMapIntoSlots | mdal/frmts/mdal_2dm.cpp:244-246 | every mapped index is a vertex slot that carries its key, and distinct keys map to distinct slots |
| Mdal2dm.IdMapOfSequentialIds | mdal/frmts/mdal_2dm.cpp:45-59 | a file numbered exactly 1..N leaves the map empty and raises no warning |
| Mdal2dm.ResolveId | mdal/frmts/mdal_2dm.cpp:61-69 | definition: the mapped index when the ID is a key, the ID itself otherwise; shared by `vertexIndex` and the resolution pass (lines 263-267) |
| Mdal2dm.ResolveFace | mdal/frmts/mdal_2dm.cpp:259-267 | definition: `ResolveId` applied to each corner of a face |
| Mdal2dm.ResolveFaces | mdal/frmts/mdal_2dm.cpp:256-275 | definition: `ResolveFace` applied to each face |
| Mdal2dm.InvalidNodeAsWritten | mdal/frmts/mdal_2dm.cpp:268 | definition: the warning test as written: an unmapped ID strictly greater than the vertex count |
| Mdal2dm.HasInvalidNodeAsWritten | mdal/frmts/mdal_2dm.cpp:256-272 | definition: some corner of some face meets the test as written |
| Mdal2dm.InvalidNode | mdal/frmts/mdal_2dm.cpp:268 | definition: the corrected test, behind the load's dangling-corner flag: an unmapped ID at or above the vertex count (see "## Findings") |
| Mdal2dm.HasInvalidNode | mdal/frmts/mdal_2dm.cpp:256-272 | definition: some corner of some face meets the corrected test |
| Mdal2dm.InvalidNodeIffDangling | mdal/frmts/mdal_2dm.cpp:256-272 | when every mapped index is a vertex index, the corrected test fires exactly when some resolved corner is not a vertex index, both directions |
| Mdal2dm.AsWrittenIffBeyond | mdal/frmts/mdal_2dm.cpp:256-272 | when every mapped index is a vertex index, the test as written fires exactly when some resolved corner exceeds the vertex count, both directions |
| Mdal2dm.AsWrittenMissesOnePastEnd | mdal/frmts/mdal_2dm.cpp:268 | with the map empty, a corner at index n (ID n + 1) of a mesh of n vertices resolves to n; the test as written raises no warning, the corrected one does |
| Mdal2dm.ResolveRecoversSlot | mdal/frmts/mdal_2dm.cpp:263-267 | with distinct node IDs, resolving a node's own ID gives back the slot it was read into |
| Mdal2dm.Mesh2dm.LastIndex | mdal/frmts/mdal_2dm.cpp:73 | `verticesCount() - 1` in `size_t`: the last index, or SIZE_MAX for an empty mesh |
| Mdal2dm.Mesh2dm.VertexIndex | mdal/frmts/mdal_2dm.cpp:61-69 | the mapped index for a key of the map, the ID itself otherwise |
| Mdal2dm.Mesh2dm.MaximumVertexId | mdal/frmts/mdal_2dm.cpp:71-82 | at least the last index and every key of the map, and equal to one of them |
| Mdal2dm.MaxKey | mdal/frmts/mdal_2dm.cpp:79 | `rbegin()->first` of a non-empty `std::map` is a key that no key exceeds |
| Mdal2dm.ElevationTable | mdal/frmts/mdal_2dm.cpp:199-210 | definition: the cell elevations: empty until some face carries one, then one entry per face, `None` standing for the NaN of a face without one |
| Mdal2dm.ElevationTableStep | mdal/frmts/mdal_2dm.cpp:199-210 | a face without an elevation changes nothing; one with an elevation allocates the all-NaN table on first use and sets its own entry |
| Mdal2dm.NodesKept | mdal/frmts/mdal_2dm.cpp:174-254 | a non-node line leaves the vertices, the ID map, the warning and `lastVertexID` as they were |
| Mdal2dm.FacesKept | mdal/frmts/mdal_2dm.cpp:174-254 | a non-face line leaves the faces and the elevation table as they were |
| Mdal2dm.EdgesKept | mdal/frmts/mdal_2dm.cpp:174-254 | a non-edge line leaves the edges as they were |
| Mdal2dm.VerticesHeldStep | mdal/frmts/mdal_2dm.cpp:248-252 | writing the node into the next vertex slot extends what the container holds |
| Mdal2dm.FacesHeldStep | mdal/frmts/mdal_2dm.cpp:186-212 | writing the face into the next face slot extends what the container holds, and its elevation is appended |
| Mdal2dm.EdgesHeldStep | mdal/frmts/mdal_2dm.cpp:220-225 | writing the edge into the next edge slot extends what the container holds |
| Mdal2dm.IdMapStateStep | mdal/frmts/mdal_2dm.cpp:244-246 | the map after one more node is the previous map with that node's `_parse_vertex_id_gaps` applied |
| Mdal2dm.OtherLineKeepsState | mdal/frmts/mdal_2dm.cpp:174-254 | a line of no kind the parser reads keeps the pass invariant |
| Mdal2dm.ReadFaceIds | mdal/frmts/mdal_2dm.cpp:195-196 | each vertex ID of a face is its chunk decremented in `size_t` (0 wraps to SIZE_MAX) |
| Mdal2dm.ReadFace | mdal/frmts/mdal_2dm.cpp:176-213 | the face branch keeps the pass invariant: the face's raw IDs go into the next slot and its elevation into the table |
| Mdal2dm.ReadEdge | mdal/frmts/mdal_2dm.cpp:214-226 | the edge branch keeps the pass invariant, with both endpoints made 0-based |
| Mdal2dm.ReadNode | mdal/frmts/mdal_2dm.cpp:227-253 | the node branch succeeds exactly when the ordering check holds up to this line, and then keeps the pass invariant |
| Mdal2dm.ParseLine | mdal/frmts/mdal_2dm.cpp:176-253 | one turn of the loop tests faces, then edges, then nodes; it fails exactly when the ordering check fails here |
| Mdal2dm.PassStarts | mdal/frmts/mdal_2dm.cpp:155-172 | containers of the counted sizes, with nothing read, satisfy the pass invariant at line 0 |
| Mdal2dm.ParseLines | mdal/frmts/mdal_2dm.cpp:174-254 | the loop succeeds exactly when the nodes are ordered, and then holds the invariant after the last line |
| Mdal2dm.PassComplete | mdal/frmts/mdal_2dm.cpp:174-254 | once every line is read, each container holds exactly what its lines say, the ID map and warning are those of the node IDs, and the elevations are those of the faces |
| Mdal2dm.ParsingPass | mdal/frmts/mdal_2dm.cpp:155-254 | asking chunks only of the lines read past the ordering check, fails with `Err_InvalidData` exactly when the nodes are not ordered; otherwise returns the vertices, edges and raw faces of the file in order, the ID map and its duplicate warning, and the elevation table |
| Mdal2dm.ResolutionPass | mdal/frmts/mdal_2dm.cpp:256-275 | every face entry that is a key is replaced by its index and the others are kept; the invalid-node warning fires exactly when some unmapped entry meets line 268's test as written (`<`), and the dangling flag exactly when some unmapped entry meets the corrected test of "## Findings" (`<=`) |
| Mdal2dm.LoadSpec | mdal/frmts/mdal_2dm.cpp:111-297 | definition: `Err_UnknownFormat` without the header, `Err_UnsupportedElement` on an unsupported card, `Err_InvalidData` when the node IDs are not ordered; otherwise the vertices and edges of the file, its faces resolved through the ID map, the map, the cell elevations, the duplicate-node warning, the invalid-node warning with line 268's test as written, and the dangling-corner flag with the corrected test of "## Findings" |
| Mdal2dm.LoadWarnsOnDanglingCorner | mdal/frmts/mdal_2dm.cpp:256-272 | on a successful load, the dangling-corner flag is raised exactly when some face corner of the loaded mesh is not a vertex index |
| Mdal2dm.LoadWarningAsWritten | mdal/frmts/mdal_2dm.cpp:256-272 | on a successful load, the invalid-node warning is raised exactly when some loaded face corner exceeds the vertex count; it implies the dangling-corner flag, and where the flag is raised without the warning some corner equals the vertex count |
| Mdal2dm.OnePastEndParses | mdal/frmts/mdal_2dm.cpp:111-254 | the one-node file of "## Findings" passes the three checks, holds one node with ID 1 and one triangle with raw corners [0, 0, 1] |
| Mdal2dm.OneNodeLoad | mdal/frmts/mdal_2dm.cpp:111-297 | a file with one node, ID 1, and one triangle [0, 0, 1] loads as one vertex and the face [0, 0, 1]; the load raises no invalid-node warning, and its dangling-corner flag is set |
| Mdal2dm.OnePastEndFile | mdal/frmts/mdal_2dm.cpp:256-272 | the one-node file of "## Findings" loads with its face one past the only vertex; the load raises no invalid-node warning, and its dangling-corner flag is set |
| Mdal2dm.Load | mdal/frmts/mdal_2dm.cpp:111-297 | on any file that has chunks where the source reads them, equals `LoadSpec`: `Err_UnknownFormat` without the header, `Err_UnsupportedElement`, then `Err_InvalidData`; on success it holds one vertex, face and edge per line of that kind, and its invalid-node warning is line 268's test as written |
| Mdal2dm.CheckedPrefix | mdal/frmts/mdal_2dm.cpp:232-242 | a prefix of lines that passes the ordering check has every shorter prefix passing it |
| Mdal2dm.OrderedIsWellFormed | mdal/frmts/mdal_2dm.cpp:174-254 | in a file whose nodes are ordered the pass reads every line, so every line has the chunks it reads |
| Mdal2dm.CheckedNodeHasId | mdal/frmts/mdal_2dm.cpp:227-230 | a node line the pass reaches has the ID chunk it reads |
| Mdal2dm.CheckedLineHasChunks | mdal/frmts/mdal_2dm.cpp:174-254 | a line that passes the ordering check is read, so it has its chunks |
| Mdal2dm.HeaderlessRejected | mdal/frmts/mdal_2dm.cpp:119-123 | a file without the `MESH2D` header fails with `Err_UnknownFormat` even when its other lines lack chunks |
| Mdal2dm.UnsupportedRejected | mdal/frmts/mdal_2dm.cpp:130-153 | a file with an `E6T` card fails with `Err_UnsupportedElement` even when an earlier face line lacks chunks |
| Mdal2dm.MisorderedRejected | mdal/frmts/mdal_2dm.cpp:227-240 | a node ID that goes backwards fails with `Err_InvalidData`; that line needs only its ID and the lines after it need no chunks |
| Mdal2dmSave.Num | mdal/frmts/mdal_2dm.cpp:320 | definition: a number written with `std::to_string`, carrying its value for the reader |
| Mdal2dmSave.CoordText | mdal/frmts/mdal_2dm.cpp:321-327 | definition: a coordinate written as its own token; an unset coordinate as `0`, a convention of the model |
| Mdal2dmSave.Join | mdal/frmts/mdal_2dm.cpp:319-327 | definition: the chunks joined by single spaces, as the `append` calls build them |
| Mdal2dmSave.SavedHeader | mdal/frmts/mdal_2dm.cpp:310-311 | definition: the `MESH2D` line |
| Mdal2dmSave.SavedNode | mdal/frmts/mdal_2dm.cpp:319-329 | definition: `ND <i+1> <x> <y> <z>` |
| Mdal2dmSave.FaceCard | mdal/frmts/mdal_2dm.cpp:341-344 | definition: `E3T` for three vertices, `E4Q` for four |
| Mdal2dmSave.FaceIds | mdal/frmts/mdal_2dm.cpp:348-352 | definition: each vertex index of a face plus 1, in order |
| Mdal2dmSave.SavedFace | mdal/frmts/mdal_2dm.cpp:339-353 | definition: the face card, `<i+1>`, then the 1-based vertex indices, with no material ID |
| Mdal2dmSave.SavedEdge | mdal/frmts/mdal_2dm.cpp:365 | definition: `E2L <id> <start+1> <end+1> 1` |
| Mdal2dmSave.Writable | mdal/frmts/mdal_2dm.cpp:339 | definition: a face of 3 or 4 vertices, the only ones given a line of their own |
| Mdal2dmSave.LineAfterFaces | mdal/frmts/mdal_2dm.cpp:333-354 | definition: `line` after the first n faces: the last writable face's line, or the line held before the faces |
| Mdal2dmSave.SavedNodes | mdal/frmts/mdal_2dm.cpp:316-330 | definition: the node line of each vertex, in order |
| Mdal2dmSave.SavedFaces | mdal/frmts/mdal_2dm.cpp:333-354 | definition: the line written for each face, in order |
| Mdal2dmSave.SavedEdges | mdal/frmts/mdal_2dm.cpp:359-367 | definition: the edge line of each edge, IDs carrying on after the face IDs |
| Mdal2dmSave.LastNodeLine | mdal/frmts/mdal_2dm.cpp:310-330 | definition: `line` once the vertices are written: the last node line, or the header when there are none |
| Mdal2dmSave.SaveSpec | mdal/frmts/mdal_2dm.cpp:299-370 | definition: the header, the node lines, the face lines and the edge lines, in that order |
| Mdal2dmSave.Decimal | mdal/frmts/mdal_2dm.cpp:319-320 | `std::to_string` of a count is non-empty |
| Mdal2dmSave.JoinStartsWithFirst | mdal/frmts/mdal_2dm.cpp:319-327 | a line built by appending space-separated chunks begins with its first chunk, its card |
| Mdal2dmSave.AppendFaceIds | mdal/frmts/mdal_2dm.cpp:349-353 | appends the face's vertex indices, each plus 1, in order |
| Mdal2dmSave.SaveNodes | mdal/frmts/mdal_2dm.cpp:316-330 | writes `ND i+1 x y z` for every vertex, in order; `line` ends as the last of them |
| Mdal2dmSave.SaveFaces | mdal/frmts/mdal_2dm.cpp:334-356 | writes `E3T`/`E4Q` for a triangle or quadrilateral; for any other face the line still held is written again |
| Mdal2dmSave.SaveEdges | mdal/frmts/mdal_2dm.cpp:360-367 | writes `E2L facesCount+i+1 start+1 end+1 1` for every edge |
| Mdal2dmSave.Save | mdal/frmts/mdal_2dm.cpp:299-370 | equals `SaveSpec` and writes one line per vertex, face and edge after the header |
| Mdal2dmSave.ReadBack | mdal/frmts/mdal_2dm.cpp:249-251 | a vertex whose coordinates are all set reads back as itself |
| Mdal2dmSave.HeaderRead | mdal/frmts/mdal_2dm.cpp:310-311 | the written header passes the header check and is of no element kind |
| Mdal2dmSave.NodeRead | mdal/frmts/mdal_2dm.cpp:319-327 | a written node line reads as a node with ID i+1 (0-based i), with the coordinates written |
| Mdal2dmSave.FaceRead | mdal/frmts/mdal_2dm.cpp:342-353 | a written face line reads as a face of the same size and indices, without elevation |
| Mdal2dmSave.EdgeRead | mdal/frmts/mdal_2dm.cpp:365 | a written edge line reads as an edge with the same endpoints |
| Mdal2dmSave.WritableFacesSaved | mdal/frmts/mdal_2dm.cpp:340-355 | when every face is a triangle or quadrilateral, each face gets its own line |
| Mdal2dmSave.NodeBlockPlain | mdal/frmts/mdal_2dm.cpp:316-330 | the node lines are well formed, not unsupported, and carry IDs 1..n |
| Mdal2dmSave.FaceBlockPlain | mdal/frmts/mdal_2dm.cpp:334-356 | the face lines of writable faces are well formed face lines, with node ID 0 to the reader |
| Mdal2dmSave.EdgeBlockPlain | mdal/frmts/mdal_2dm.cpp:360-367 | the edge lines are well formed edge lines, with node ID 0 to the reader |
| Mdal2dmSave.BlocksJoin | mdal/frmts/mdal_2dm.cpp:310-367 | a header, node lines numbered 1..n, then plain face and edge lines: the whole file has node IDs 1..n on lines 1..n and 0 elsewhere |
| Mdal2dmSave.SavedLines | mdal/frmts/mdal_2dm.cpp:299-370 | every written line is well formed, none is unsupported, and the reader sees node IDs 1..n exactly on the node lines |
| Mdal2dmSave.SavedSelections | mdal/frmts/mdal_2dm.cpp:299-370 | the written file's node, face and edge lines are the three written blocks |
| Mdal2dmSave.SelectsOfBlocks | mdal/frmts/mdal_2dm.cpp:130-153 | selecting from blocks that are each of one kind gives back the block of that kind |
| Mdal2dmSave.SelectOfFour | mdal/frmts/mdal_2dm.cpp:130-153 | selection distributes over four concatenated blocks |
| Mdal2dmSave.NodesReadBack | mdal/frmts/mdal_2dm.cpp:227-253 | the written node lines read back as the vertices written, leaving no ID-map entry and no duplicate warning |
| Mdal2dmSave.FacesReadBack | mdal/frmts/mdal_2dm.cpp:176-213 | the written face lines read back as the faces, with no elevation table |
| Mdal2dmSave.EdgesReadBack | mdal/frmts/mdal_2dm.cpp:214-226 | the written edge lines read back as the edges |
| Mdal2dmSave.ResolveThroughEmptyMap | mdal/frmts/mdal_2dm.cpp:256-275 | resolving through an empty map leaves every face as it is |
| Mdal2dmSave.SavedChecks | mdal/frmts/mdal_2dm.cpp:119-243 | the written file passes the header, unsupported-element and ordering checks of the load |
| Mdal2dmSave.LoadOfSave | mdal/frmts/mdal_2dm.cpp:111-370 | round trip: loading what `save` writes succeeds and returns the mesh's vertices (as the tokens written), edges and faces, with an empty ID map, no elevations and no duplicate warning; the invalid-node warning (as written) and the dangling-corner flag (corrected) are those of the saved faces |
| Mdal2dmSave.UnwritableFaceRepeats | mdal/frmts/mdal_2dm.cpp:340-355 | a face that is neither a triangle nor a quadrilateral re-emits the line written just before it |
| EsriTin.RawIndex | mdal/frmts/mdal_esri_tin.cpp:91 | `static_cast<size_t>(index - 1)`: the 0-based index for a positive index; for an index below 1, a value no 32-bit count reaches |
| EsriTin.NonPositiveIndexIsOutOfRange | mdal/frmts/mdal_esri_tin.cpp:107-108 | so a kept face with a non-positive index fails the range check |
| EsriTin.TripleCount | mdal/frmts/mdal_esri_tin.cpp:84-95 | definition: the number of complete index triples in the face file |
| EsriTin.ReadsMaskWord | mdal/frmts/mdal_esri_tin.cpp:80 | definition: a mask word is read before face c when c is a multiple of 32 below the bit count |
| EsriTin.ReadsBefore | mdal/frmts/mdal_esri_tin.cpp:75-82 | definition: how many mask words have been read before face c |
| EsriTin.MaskAt | mdal/frmts/mdal_esri_tin.cpp:76-114 | definition: `maskInt` while face c is handled: the word just read, or the previous value shifted right by one arithmetically |
| EsriTin.ShiftRight | mdal/frmts/mdal_esri_tin.cpp:114 | definition: `maskInt >> 1` applied k times |
| EsriTin.IsKept | mdal/frmts/mdal_esri_tin.cpp:101 | definition: face c is kept when the low bit of `maskInt` is 0 |
| EsriTin.Kept | mdal/frmts/mdal_esri_tin.cpp:77-115 | definition: the kept triples of the whole face file, in file order |
| EsriTin.MaskShort | mdal/frmts/mdal_esri_tin.cpp:80-82 | definition: some mask word the loop reads is missing |
| EsriTin.FaceIncomplete | mdal/frmts/mdal_esri_tin.cpp:97-98 | definition: the face file ends inside a triple |
| EsriTin.KeptIndexOutOfRange | mdal/frmts/mdal_esri_tin.cpp:105-108 | definition: some kept face has a raw index at or beyond the count |
| EsriTin.DecodeFails | mdal/frmts/mdal_esri_tin.cpp:77-115 | definition: round 1 throws `Err_UnknownFormat` exactly on a missing mask word, an incomplete triple or an out-of-range kept index |
| EsriTin.Triple | mdal/frmts/mdal_esri_tin.cpp:84-92 | each candidate face has three corners |
| EsriTin.KeptFirst | mdal/frmts/mdal_esri_tin.cpp:100-111 | the kept faces among the first n candidates are at most n, each with three corners |
| EsriTin.ReadsBeforeCounts | mdal/frmts/mdal_esri_tin.cpp:80-82 | up to the bit count, one mask word is read per 32 faces |
| EsriTin.ReadWordIsInOrder | mdal/frmts/mdal_esri_tin.cpp:80-82 | the word read before face c is the file's (c / 32)-th word, so words are read in order |
| EsriTin.ReadsBeforeGrows | mdal/frmts/mdal_esri_tin.cpp:80-82 | words read are never un-read |
| EsriTin.MaskIsShiftedWord | mdal/frmts/mdal_esri_tin.cpp:76-114 | closed form of `maskInt`: the last word read, shifted right once per face since it was read; 0 for every face when the bit count is not positive |
| EsriTin.NoMaskBitsKeepsAll | mdal/frmts/mdal_esri_tin.cpp:80-101 | with no mask bits, every complete triple is kept, in order |
| EsriTin.MaskRunsOut | mdal/frmts/mdal_esri_tin.cpp:80-82 | a word the loop needs and the file lacks means the mask is short |
| EsriTin.DecodeEnds | mdal/frmts/mdal_esri_tin.cpp:94-95 | a face file that ends cleanly after c triples, with every word and index present, does not fail |
| EsriTin.FaceEndsInside | mdal/frmts/mdal_esri_tin.cpp:97-98 | one or two indices left over make the face file incomplete |
| EsriTin.ReadTriple | mdal/frmts/mdal_esri_tin.cpp:84-92 | reads up to three indices and stops at the end of the file; each becomes `index - 1` as a `size_t` |
| EsriTin.ReferencedStep | mdal/frmts/mdal_esri_tin.cpp:103-110 | after one more kept face, a raw index is referenced exactly when it was before or the face uses it |
| EsriTin.Marked | mdal/frmts/mdal_esri_tin.cpp:105-110 | intended wanted table: an entry is below the sentinel `totalIndexesCount` exactly when some kept face uses that raw index |
| EsriTin.MarkedAsWritten | mdal/frmts/mdal_esri_tin.cpp:109 | the table as written (mark 1, sentinel `totalIndexesCount`) has one entry per raw index |
| EsriTin.MarkFace | mdal/frmts/mdal_esri_tin.cpp:105-110 | succeeds exactly when every corner is below the count, and then the table is the wanted table of the faces so far plus this one; it marks with 0 where line 109 writes 1 |
| EsriTin.Decode | mdal/frmts/mdal_esri_tin.cpp:47-115 | fails with `Err_UnknownFormat` exactly when a needed mask word is missing, the face file ends inside a triple, or a kept face uses an index beyond the count; otherwise returns the kept faces, with the table marking exactly their raw indices (with 0 where line 109 writes 1; the load built on the marking as written gives the same result for counts of 2 or more, `AsWrittenAgreesFromTwo`) |
| EsriTin.RankBefore | mdal/frmts/mdal_esri_tin.cpp:122-130 | the number of wanted entries among the first n is at most n |
| EsriTin.RankGrows | mdal/frmts/mdal_esri_tin.cpp:122-130 | the running count never decreases, and it grows past every wanted entry |
| EsriTin.Compacted | mdal/frmts/mdal_esri_tin.cpp:121-130 | compaction keeps the table's length |
| EsriTin.CompactedShape | mdal/frmts/mdal_esri_tin.cpp:121-130 | wanted entries receive dense indices below the count of wanted entries; unwanted entries keep their value; an entry is below the sentinel after compaction exactly when it was before |
| EsriTin.CompactedIsOrdered | mdal/frmts/mdal_esri_tin.cpp:121-130 | compaction preserves raw-index order among wanted entries |
| EsriTin.CompactedIsOnto | mdal/frmts/mdal_esri_tin.cpp:121-130 | every dense index below the count is given to some wanted entry |
| EsriTin.CompactedIsInjective | mdal/frmts/mdal_esri_tin.cpp:121-130 | no two wanted entries share a dense index |
| EsriTin.RankIsCardinality | mdal/frmts/mdal_esri_tin.cpp:122-130 | the running count is the size of the set of wanted entries so far |
| EsriTin.WantedCountIsDistinctIndices | mdal/frmts/mdal_esri_tin.cpp:122-133 | `correctedIndexCount` is the number of distinct raw indices the kept faces use |
| EsriTin.RankOfSamePattern | mdal/frmts/mdal_esri_tin.cpp:125 | the running count depends only on which entries are below the sentinel |
| EsriTin.Compact | mdal/frmts/mdal_esri_tin.cpp:121-130 | the in-place loop leaves the compacted table and returns the number of wanted entries |
| EsriTin.KeptInRange | mdal/frmts/mdal_esri_tin.cpp:107-108 | past round 1, every corner of every kept face is below the raw index count |
| EsriTin.KeptFirstInRange | mdal/frmts/mdal_esri_tin.cpp:107-108 | the same holds for the kept faces among the first n candidates |
| EsriTin.RecordAvailable | mdal/frmts/mdal_esri_tin.cpp:151-156 | definition: record r has its y in tnxy.adf and its z in tnz.adf |
| EsriTin.Record | mdal/frmts/mdal_esri_tin.cpp:146-157 | definition: vertex record r, x and y from tnxy.adf and z from tnz.adf |
| EsriTin.VertexReadFails | mdal/frmts/mdal_esri_tin.cpp:151-156 | definition: round 3 throws `Err_UnknownFormat` when a record it handles lacks its y or its z |
| EsriTin.RecordsRead | mdal/frmts/mdal_esri_tin.cpp:143-149 | round 3 handles record r exactly when r is below the count and its x is in tnxy.adf |
| EsriTin.ScatterFirst | mdal/frmts/mdal_esri_tin.cpp:159-161 | the vertex vector keeps its size, the number of wanted entries |
| EsriTin.ScatterPlaces | mdal/frmts/mdal_esri_tin.cpp:143-164 | every wanted record read lands in its own dense slot and stays there; a slot no record reaches keeps the default vertex |
| EsriTin.ReadVertices | mdal/frmts/mdal_esri_tin.cpp:132-164 | fails with `Err_UnknownFormat` exactly when a handled record lacks its y or its z; otherwise returns the scattered vertices |
| EsriTin.RemapFace | mdal/frmts/mdal_esri_tin.cpp:171-172 | a face keeps its number of corners |
| EsriTin.RemapAll | mdal/frmts/mdal_esri_tin.cpp:169-172 | the faces keep their number and sizes |
| EsriTin.RemapFaces | mdal/frmts/mdal_esri_tin.cpp:169-172 | every corner of every face is rewritten through the table, in order |
| EsriTin.Assemble | mdal/frmts/mdal_esri_tin.cpp:121-188 | rounds 2 to 4 fail exactly when a vertex record is truncated, and otherwise yield one vertex per wanted raw index |
| EsriTin.TinSpec | mdal/frmts/mdal_esri_tin.cpp:19-205 | the intended load fails, always with `Err_UnknownFormat`, exactly when round 1 or round 3 fails |
| EsriTin.TinSpecAsWritten | mdal/frmts/mdal_esri_tin.cpp:19-205 | the load as written fails in the same cases |
| EsriTin.LoadTin | mdal/frmts/mdal_esri_tin.cpp:19-205 | the four rounds over the table array compute `TinSpec`, the load with the corrected mark 0; it equals the load as written (mark 1) for counts of 2 or more, `AsWrittenAgreesFromTwo` |
| EsriTin.KeptIsMarked | mdal/frmts/mdal_esri_tin.cpp:105-110 | every raw index a kept face uses is wanted |
| EsriTin.TinFacesAreDense | mdal/frmts/mdal_esri_tin.cpp:100-188 | a loaded TIN has one face per kept triple, three corners each, every corner a valid vertex index, as many vertices as distinct raw indices used, and no edges |
| EsriTin.TinFacesKeepIdentity | mdal/frmts/mdal_esri_tin.cpp:121-172 | two corners share a dense index exactly when they shared a raw index, and raw order is kept |
| EsriTin.TinCornersFindTheirRecords | mdal/frmts/mdal_esri_tin.cpp:143-172 | each corner points at the vertex record of its raw index, or at a default vertex when tnxy.adf ended before that record |
| EsriTin.CompactedOfSamePattern | mdal/frmts/mdal_esri_tin.cpp:121-130 | two tables with the same wanted entries, and the same unwanted values, compact alike |
| EsriTin.AsWrittenAgreesFromTwo | mdal/frmts/mdal_esri_tin.cpp:109-125 | from two raw indices on, marking with 1 gives the intended load |
| EsriTin.AsWrittenDropsTheOnlyVertex | mdal/frmts/mdal_esri_tin.cpp:109-125 | with one raw index and the face (1,1,1), the load as written has no vertex and the face [1,1,1]; as intended it has that vertex and the face [0,0,0] |
| EsriTin.AsWrittenDanglesAtOne | mdal/frmts/mdal_esri_tin.cpp:109-172 | with one raw index, a load as written has no vertices, and every corner is 1 |
| EsriTinFiles.IsSep | mdal/frmts/mdal_esri_tin.cpp:293 | definition: the separators `find_last_of("\\/")` looks for, `/` and `\` |
| EsriTinFiles.HasTwoSeps | mdal/frmts/mdal_esri_tin.cpp:290-307 | definition: the path holds at least two separators |
| EsriTinFiles.FindLastSep | mdal/frmts/mdal_esri_tin.cpp:293-299 | `find_last_of("\\/")`: npos exactly when there is no separator; otherwise a separator with none after it |
| EsriTinFiles.GetTinName | mdal/frmts/mdal_esri_tin.cpp:290-307 | empty when the path has fewer than two separators; otherwise the text between the last two separators, which holds none |
| EsriTinFiles.FirstLine | mdal/frmts/mdal_esri_tin.cpp:317 | `std::getline`: a prefix with no line feed, ended by a line feed or the end of the text |
| EsriTinFiles.GetCrsWkt | mdal/frmts/mdal_esri_tin.cpp:310-323 | empty when prj.adf cannot be opened or its first line is the unknown-system class id; the first line otherwise |
| EsriTinFiles.CrsIsSetIff | mdal/frmts/mdal_esri_tin.cpp:194-196 | the load sets a coordinate system exactly when prj.adf opens and its first line is neither empty nor the unknown class id |
| EsriTinFiles.HullPrefix | mdal/frmts/mdal_esri_tin.cpp:284 | the indices before the first -1: a prefix of the file without -1, ended by -1 or the end of the file |
| EsriTinFiles.Sorted | mdal/frmts/mdal_esri_tin.cpp:287 | definition: the values ascend |
| EsriTinFiles.InsertKeepsSorted | mdal/frmts/mdal_esri_tin.cpp:287 | inserting after every element not above it keeps a sorted list sorted |
| EsriTinFiles.InsertSorted | mdal/frmts/mdal_esri_tin.cpp:287 | one insertion returns a sorted list holding the old elements plus the new one |
| EsriTinFiles.SortIndexes | mdal/frmts/mdal_esri_tin.cpp:287 | `std::list::sort`: ascending and a permutation of its input |
| EsriTinFiles.ReadSuperpoints | mdal/frmts/mdal_esri_tin.cpp:277-288 | the superpoints are the indices of thul.adf before the first -1, sorted ascending (same multiset) |

## Left out

- File I/O is not modelled; each load receives its file's contents instead.
  - The 2DM load receives the lines already split into space-separated
    chunks.
  - The TIN load receives the decoded words of its files. The tdenv9.adf
    fallback, `Err_FileNotFound` for a sibling that does not open, `canRead`
    and the path builders (`xyFile` and the others) are out of scope.
  - `Driver2dm::save` returns the sequence of lines it would write. The
    `Err_FailToWriteToDisk` report for a destination that does not open is
    out of scope.
- Numeric parsing and formatting are not modelled.
  - Each chunk carries the value `toSizeT` would give it.
  - A coordinate is kept as the token it came from (`Coord`).
  - An unset coordinate is written as `0`. This is a convention of the
    model: the type of a default vertex's coordinates and what
    `coordinateToString` prints for them are not part of this model.
    `ReadBack` and `LoadOfSave` depend on this convention.
  - `coordinateToString` and `doubleToString` precision, and the float to
    double conversion of tnz.adf, are out of scope.
- Mdal2dmSave.Decimal: its contract says only that the text of a number
  is non-empty. The decimal text is deliberately opaque to the proofs:
  the round trip reads each number back from the value its `Token`
  carries (`Token.size`), not from the text.
- TIN location of the mask and byte order. The offset read from tmsx.adf,
  the word count and the skipped 4 bytes of tmsk.adf are not modelled: the
  mask bit count and the mask words are inputs. Byte order and the
  native-endianness test are not modelled either.
- Integer width.
  - The TIN raw index count is a `nat`: the load model accepts any
    non-negative count, larger than a 32-bit field could hold included.
    A negative 32-bit count would make the table allocation throw, which
    is not modelled. `ValidFiles` (count at most `INT32_MAX`) is needed
    only by `NonPositiveIndexIsOutOfRange`.
  - The face counter `c` is an unbounded integer; the source's `int` would
    overflow after 2^31 faces.
  - The vertex indices the 2DM writer reads through `int` are not
    truncated.
- Mdal2dm.Load: its `LoadReadable` precondition asks for chunks only on
  the lines the parsing pass reads past its ordering check, and only in
  a file with the header and no unsupported card. It stands for the
  source's `assert`s on chunk counts (lines 193 and 219) and for the
  node line's `chunks[1]` to `chunks[4]`; a line read with fewer chunks
  is undefined behaviour in the source. A headerless file, a file with
  an unsupported card, and the lines after a misordered node need
  nothing (`HeaderlessRejected`, `UnsupportedRejected`,
  `MisorderedRejected`). The same holds for `ParsingPass`, `ParseLines`,
  `ParseLine` and `ReadNode` (`ReadLinesWellFormed`).
- Logging is not modelled. The duplicate-node and invalid-node warnings are
  returned as booleans in `Loaded`. Its dangling-corner flag is not logged by
  the source; it is the corrected warning test, kept beside the one written.
- Dataset groups and metadata are out of scope: the bed-elevation groups,
  the "Bed Elevation (Face)" group, the "Altitude" name, `computeExtent`,
  and `setSourceCrsFromWKT` (whose input `getCrsWkt` is modelled).
- `std::vector` containers in the 2DM load are modelled as sequences updated
  by index. Only the ESRI table is an `array`.
- `readSuperpoints` is modelled, but its result is not used by the load, in
  the source as here.
- Save and faces that are not triangles or quadrilaterals. The code
  re-emits the line still held, which is the previous face's line or the last node
  line, or the header. The model follows the code (`UnwritableFaceRepeats`),
  and the round trip `LoadOfSave` is stated only for meshes whose faces all
  have 3 or 4 vertices.

## Findings

| source | as written | input that shows it | evidently intended | confidence | as-written member | corrected member |
|---|---|---|---|---|---|---|
| mdal/frmts/mdal_esri_tin.cpp:109 | a raw index used by a kept face is marked with `1`, and compaction (line 125) treats an entry as wanted when it is below `totalIndexesCount` | `totalIndexesCount` 1, one face (1, 1, 1), no mask bits, one vertex record: the mark 1 equals the sentinel, so compaction finds no wanted vertex; the load returns no vertices and the face [1, 1, 1], which points past the empty vertex list | the mark is any value below the sentinel (0 here), so the one vertex is kept and the face is [0, 0, 0] | not executed | EsriTin.AsWrittenDropsTheOnlyVertex | EsriTin.TinFacesAreDense |
| mdal/frmts/mdal_2dm.cpp:268 | an unmapped face entry raises the invalid-node warning when `vertices.size() < nodeID`, with `nodeID` already 0-based | one node with ID 1 and a triangle naming nodes 1, 1, 2: the entry for node 2 is 1, it is not in the (empty) map and `1 < 1` is false, so no warning is raised and the face [0, 0, 1] points one past the only vertex | `vertices.size() <= nodeID`, the test that flags every entry that is no vertex index | not executed | Mdal2dm.OnePastEndFile | Mdal2dm.LoadWarnsOnDanglingCorner |
