# ModelDiffer: a Dafny model of assimp's test-suite scene differ

assimp's unit tests compare an imported scene against an expected one with
`Assimp::ModelDiffer` (test/unit/ModelDiffer.cpp). The differ keeps a report,
a list of text lines. `addDiff` appends a line unless it is empty, and
`reset` empties the report.

`compareMesh` compares two meshes in this order:
- the pointers (identical pointers are equal, a null pointer is unequal);
- the name (reported, but the comparison goes on);
- the vertex count (reported, and the comparison stops);
- then a fixed pipeline of attribute blocks: positions, normals, 8 colour
  slots, 8 texture-coordinate slots, and the tangent frame.

Each block first tests presence; a mismatch writes one "missing" line and
stops the comparison. It then walks the vertices and writes one line per
differing value. Every block has one value per vertex, except the tangent
frame, which has a tangent and a bitangent and so can write two lines per
vertex. The first block that wrote something ends the comparison with
`false`.

`isEqual` compares two scenes: first the pointers, then the mesh count
(reported, the comparison goes on), then every mesh pair at the indices of
the first scene.

The model has four modules:

- `SceneData` (scene.dfy) holds the read-only inputs. `Mesh` and `Scene` are
  classes with constant fields, so that the pointer identity and the null
  pointers the differ tests for are modelled as such. Each per-vertex array
  is an `Option<seq<_>>` that is `Some` exactly when the mesh carries it.
  The blocks are listed, in visiting order, by `Block(k)` for `k < BlockCount`.
- `Comparison` (comparison.dfy) holds the specification. It defines:
  - `Scan`, the entries of one per-vertex walk;
  - `Agrees`, the reference meaning of a block that matches;
  - `ChannelCheck`, what one block writes;
  - `FirstFailureFrom`, the pipeline stopping at the first failing block;
  - `MeshComparison`, the entries and verdict of `compareMesh`;
  - `SceneEntries`, what `isEqual` appends.
- `Differ` (differ.dfy) is the class `ModelDiffer`, whose field `diffs` is
  the report. Its methods are the imperative differ, with the same branches
  and loops as the source. Each is proved against the functions above:
  every method states the report it leaves as `old(diffs)` plus the
  specified entries, so the report is append-only outside `Reset`.
- `DiffProperties` (properties.dfy) holds the lemmas about the
  specification, listed below.

A report entry is the `Diff` datatype. It keeps the kind of message and the
raw expected and found values instead of their decimal text. The message
kinds are the ones the source writes, including two that it writes in the
wrong place:
- a colour slot missing in one mesh is reported with the normals message
  (line 184);
- a differing bitangent is reported with the tangents message (line 244).

The source keeps the texture-coordinate result in `vertColEqual` (lines
216 and 219) and never updates `texCoordsEqual`. At that point
`vertColEqual` is still true, so the behaviour is the intended one.
`CompareTextureCoordSets` follows the source in this.

Three preconditions stand for behaviour the source leaves undefined, and
one result stands for a value the source never returns:

- **Unchecked array reads.** The differ reads a block's arrays for every
  vertex once the presence tests agree. It never checks that the arrays are
  there, but the presence tests say nothing about the arrays when both
  meshes lack the block. `DefinedFrom` therefore requires that every block
  the differ reaches is present in both meshes, or has a presence mismatch,
  or has no vertex to read.
- **Array lengths.** `Mesh.Valid` requires that every present array holds
  one value per vertex.
- **Short second scene.** The scene loop reads `toCompare`'s mesh array up
  to `expected`'s mesh count. `PairsComparable` therefore requires the
  second scene to have at least as many meshes as the first.

The undefined result:

- **Missing return.** `isEqual` has no return statement after its mesh loop
  (lines 74-79). `IsEqual` therefore returns an `Option<bool>`: `None` on
  that path and `Some` on the three early returns.

## Model

| member | source | states |
|---|---|---|
| Differ.ModelDiffer.constructor | test/unit/ModelDiffer.cpp:47-49 | a new differ has an empty report |
| Differ.ModelDiffer.Reset | test/unit/ModelDiffer.cpp:93-95 | the report is empty afterwards |
| Differ.ModelDiffer.AddDiff | test/unit/ModelDiffer.cpp:97-102 | an empty line is dropped; any other entry is appended at the end, and the earlier entries are kept |
| Differ.ModelDiffer.IsEqual | test/unit/ModelDiffer.cpp:55-79 | appends exactly `SceneEntries` (count entry, then each mesh pair's entries in index order); answers true for one pointer, false when exactly one is null, and no defined answer after the mesh loop |
| Differ.ModelDiffer.CompareMeshes | test/unit/ModelDiffer.cpp:74-78 | the mesh loop appends the reports of the pairs at indices 0 up to the first scene's mesh count, in order |
| Differ.ModelDiffer.CompareMeshAt | test/unit/ModelDiffer.cpp:75-77 | the pair at index i appends exactly report i of `MeshReports` |
| Differ.ModelDiffer.CompareMesh | test/unit/ModelDiffer.cpp:116-254 | appends exactly the entries of `MeshComparison` and returns its verdict |
| Differ.ModelDiffer.CompareAttributes | test/unit/ModelDiffer.cpp:138-253 | the attribute blocks append the outcome of the first failing block, or nothing, and answer whether every block passed |
| Differ.ModelDiffer.ComparePositions | test/unit/ModelDiffer.cpp:138-157 | returns true exactly when block 0 agrees (presence equal and, where present, equal position arrays); on true the report is unchanged and the outcome is handed on to block 1, on false it appends the outcome block 0 decides |
| Differ.ModelDiffer.CompareNormals | test/unit/ModelDiffer.cpp:159-178 | returns true exactly when block 1 (normals) agrees, and steps the report as for block 0 |
| Differ.ModelDiffer.CompareColorSets | test/unit/ModelDiffer.cpp:180-200 | returns true exactly when all 8 colour slots are identical in the two meshes; then the report is unchanged and the outcome is handed on to the texture-coordinate blocks, otherwise it appends the outcome decided at the first failing slot |
| Differ.ModelDiffer.CompareColorSetAfter | test/unit/ModelDiffer.cpp:182-199 | colour slot a, reached with every earlier slot identical: true exactly when slot a is identical; on true the report is unchanged, on false it appends the outcome of the whole colour loop |
| Differ.ModelDiffer.CompareColorSet | test/unit/ModelDiffer.cpp:182-199 | returns true exactly when colour slot a agrees, and steps the report as block 2 + a says |
| Differ.ModelDiffer.CompareTextureCoordSets | test/unit/ModelDiffer.cpp:202-222 | returns true exactly when all 8 texture-coordinate slots are identical; then the report is unchanged and the outcome is handed on to the tangent frame, otherwise it appends the outcome decided at the first failing slot |
| Differ.ModelDiffer.CompareTextureCoordSetAfter | test/unit/ModelDiffer.cpp:204-221 | texture-coordinate slot a, reached with every earlier slot identical: true exactly when slot a is identical; on false it appends the outcome of the whole texture-coordinate loop |
| Differ.ModelDiffer.CompareTextureCoordSet | test/unit/ModelDiffer.cpp:204-221 | returns true exactly when texture-coordinate slot a agrees, and steps the report as block 2 + 8 + a says |
| Differ.ModelDiffer.CompareValues | test/unit/ModelDiffer.cpp:144-154 | the per-vertex walk appends `Scan` (one entry per differing vertex, in vertex order) and returns true exactly when it appended nothing |
| Differ.ModelDiffer.CompareTangentFrame | test/unit/ModelDiffer.cpp:224-251 | returns true exactly when the tangent frame agrees (presence equal and, where present, equal tangent and bitangent arrays), and steps the report as the last block says |
| Differ.ModelDiffer.CompareTangentValues | test/unit/ModelDiffer.cpp:229-248 | per vertex, the tangent entry then the bitangent entry are appended; true exactly when nothing was appended |
| Comparison.PresenceDiff | test/unit/ModelDiffer.cpp:139-228 | each of the five presence messages (lines 140, 161, 184, 206, 226) is an attribute entry, never a name, count or free-text entry |
| Comparison.ScanEmptyIff | test/unit/ModelDiffer.cpp:144-157 | a per-vertex walk writes nothing exactly when the arrays agree at every walked vertex |
| Comparison.TangentScanEmptyIff | test/unit/ModelDiffer.cpp:229-251 | the tangent-frame walk writes nothing exactly when tangents and bitangents agree at every walked vertex |
| Comparison.ScanEmptyIffAgrees | test/unit/ModelDiffer.cpp:144-157 | once presence agrees, a block's walk writes nothing exactly when the block's arrays are equal |
| Comparison.ChannelCheck | test/unit/ModelDiffer.cpp:138-157 | a block passes exactly when it agrees; a presence mismatch writes exactly its presence message; a failing block writes at least one entry |
| Comparison.PassBlock | test/unit/ModelDiffer.cpp:138-253 | proof step, not a model of particular lines: when block k agrees, the outcome from k is the outcome from k + 1 |
| Comparison.FailBlock | test/unit/ModelDiffer.cpp:138-253 | proof step: when block k disagrees, the outcome from k is block k's own entries |
| Comparison.StepBlock | test/unit/ModelDiffer.cpp:138-253 | proof step: a block method that appends its block's entries and returns whether the block agrees meets `Stepped`, the contract every block method shares |
| SceneData.Block | test/unit/ModelDiffer.cpp:138-253 | defines the order the differ visits the blocks in: positions (0), normals (1), the 8 colour slots (2-9), the 8 texture-coordinate slots (10-17), then the tangent frame (18) |
| SceneData.Mesh.Valid | test/unit/ModelDiffer.cpp:145-248 | the array-length precondition: the 8 colour and 8 texture-coordinate slots exist, and every present array holds one value per vertex, so each indexed read in the walks is in range |
| SceneData.Mesh.HasPositions | test/unit/ModelDiffer.cpp:139 | the presence test of the positions block; only the array's presence is modelled, not the helper's vertex-count condition (see "Left out") |
| SceneData.Mesh.HasNormals | test/unit/ModelDiffer.cpp:160 | the presence test of the normals block; only the array's presence is modelled, not the helper's vertex-count condition (see "Left out") |
| SceneData.Mesh.HasVertexColors | test/unit/ModelDiffer.cpp:183 | the presence test of colour slot a; only the array's presence is modelled, not the helper's vertex-count condition (see "Left out") |
| SceneData.Mesh.HasTextureCoords | test/unit/ModelDiffer.cpp:205 | the presence test of texture-coordinate slot a; only the array's presence is modelled, not the helper's vertex-count condition (see "Left out") |
| SceneData.Mesh.HasTangentsAndBitangents | test/unit/ModelDiffer.cpp:225 | the presence test of the tangent frame: both the tangents and the bitangents are present; the helper's vertex-count condition is not modelled (see "Left out") |
| SceneData.Mesh.Has | test/unit/ModelDiffer.cpp:139-225 | the presence test the differ calls for each block, by block kind (lines 139, 160, 183, 205, 225) |
| Comparison.Readable | test/unit/ModelDiffer.cpp:145-248 | the read condition for the unguarded walks at lines 145, 166, 187, 209 and 230: the block has a presence mismatch (so it is never walked), or is present in both meshes, or there is no vertex to read |
| Comparison.Comparable | test/unit/ModelDiffer.cpp:116-254 | the precondition of a mesh comparison: a shared or null pointer needs nothing; two distinct meshes with equal vertex counts must satisfy Valid and DefinedFrom, so that every read `compareMesh` makes is defined |
| Comparison.PairsComparable | test/unit/ModelDiffer.cpp:74-76 | the short-second-scene condition: the second scene has a mesh at every index of the first (line 76 reads it unchecked), and every pair is comparable |
| Comparison.SceneComparable | test/unit/ModelDiffer.cpp:55-78 | the precondition of a scene comparison: a shared or null pointer needs nothing, otherwise PairsComparable |
| Comparison.MeshReports | test/unit/ModelDiffer.cpp:74-78 | one report per mesh of the first scene |
| Comparison.Scan | test/unit/ModelDiffer.cpp:145-154 | defines one per-vertex walk: one entry per differing vertex, in vertex order; states that it writes at most one entry per vertex |
| Comparison.TangentScan | test/unit/ModelDiffer.cpp:230-248 | defines the tangent-frame walk: per vertex, the tangent entry, then the bitangent entry (its properties are `TangentScanCounts`, `TangentScanExtends` and `TangentScanEmptyIff`) |
| Comparison.ChannelScan | test/unit/ModelDiffer.cpp:144-248 | picks the walk and entry kind of each block; states that every block except the tangent frame writes at most one entry per vertex |
| Comparison.Agrees | test/unit/ModelDiffer.cpp:138-251 | defines the reference meaning of a matching block: the presence tests agree and, where present, the arrays are equal |
| Comparison.DefinedFrom | test/unit/ModelDiffer.cpp:138-251 | defines the readability precondition: every block the differ reaches can be read |
| Comparison.FirstFailureFrom | test/unit/ModelDiffer.cpp:138-253 | defines the attribute pipeline from block k: the entries of the first failing block, or none when every block passes (its properties are the `FirstFailureFrom*` lemmas) |
| Comparison.NameEntries | test/unit/ModelDiffer.cpp:125-129 | the name entry: at most one, and none exactly when the names are equal |
| Comparison.MeshComparison | test/unit/ModelDiffer.cpp:116-254 | defines the entries and verdict of `compareMesh` (its properties are `MeshShortCircuits`, `VertexCountMismatchStops`, `MeshEqualIffSameAttributes`, `MeshEqualIffOnlyNameEntries` and `MeshEntriesShape`) |
| Comparison.CountEntries | test/unit/ModelDiffer.cpp:68-72 | the mesh-count entry: at most one, and none exactly when the mesh counts are equal |
| Comparison.SceneEntries | test/unit/ModelDiffer.cpp:68-78 | defines what `isEqual` appends: the count entry, then every mesh pair's report in index order (its properties are `SceneCountEntryFirst`, `SceneEntriesEmptyIff` and `ScenePairEntriesAt`) |
| DiffProperties.Mismatches | test/unit/ModelDiffer.cpp:145-154 | the differing vertex indices, each below the bound and strictly increasing |
| DiffProperties.MismatchesComplete | test/unit/ModelDiffer.cpp:145-154 | every differing vertex is among them |
| DiffProperties.ScanFollowsMismatches | test/unit/ModelDiffer.cpp:145-154 | a walk writes one entry per differing vertex, in vertex order, each made from that vertex's two values |
| DiffProperties.ScanSingleMismatch | test/unit/ModelDiffer.cpp:166-175 | one differing vertex gives exactly one entry, for that vertex |
| DiffProperties.TangentScanCounts | test/unit/ModelDiffer.cpp:229-248 | the tangent-frame walk writes one entry per differing tangent plus one per differing bitangent, all with the tangents message |
| DiffProperties.TangentScanExtends | test/unit/ModelDiffer.cpp:229-248 | earlier vertices' tangent-frame entries come first |
| DiffProperties.BlockEntriesAreAttributeEntries | test/unit/ModelDiffer.cpp:138-251 | a block writes only attribute entries, never a name, count or free-text entry |
| DiffProperties.ChannelScanAttributeEntries | test/unit/ModelDiffer.cpp:144-248 | the per-vertex walk of any block writes only attribute entries |
| DiffProperties.FirstDisagreement | test/unit/ModelDiffer.cpp:138-253 | the first block from k on that disagrees, with every block before it agreeing |
| DiffProperties.FirstFailureFromDecided | test/unit/ModelDiffer.cpp:138-253 | the first disagreeing block decides the outcome with its entries; if none disagrees, everything passes |
| DiffProperties.FirstFailureFromPasses | test/unit/ModelDiffer.cpp:138-253 | the blocks pass exactly when each of them agrees |
| DiffProperties.FirstFailureFromEntries | test/unit/ModelDiffer.cpp:138-253 | a failing outcome is non-empty and holds only attribute entries |
| DiffProperties.BlockReadyAt | test/unit/ModelDiffer.cpp:138-253 | a block reached with every earlier block agreeing can be read |
| DiffProperties.FirstFailureAt | test/unit/ModelDiffer.cpp:138-253 | if blocks before k agree and block k does not, block k's entries are the outcome |
| Comparison.ColorSetAgrees | test/unit/ModelDiffer.cpp:182-199 | a colour slot agrees exactly when the two slots are equal (absent in both, or equal arrays) |
| Comparison.ColorSetsPass | test/unit/ModelDiffer.cpp:180-200 | proof step: when the first a colour slots are identical, those blocks pass and the outcome of the colour loop is the outcome from slot a |
| Comparison.TextureCoordSetAgrees | test/unit/ModelDiffer.cpp:204-221 | a texture-coordinate slot agrees exactly when the two slots are equal |
| Comparison.TextureCoordSetsPass | test/unit/ModelDiffer.cpp:202-222 | proof step: when the first a texture-coordinate slots are identical, the outcome of the loop is the outcome from slot a |
| DiffProperties.AllBlocksAgreeIffSame | test/unit/ModelDiffer.cpp:138-253 | every block agrees exactly when the attributes match channel by channel |
| DiffProperties.MeshShortCircuits | test/unit/ModelDiffer.cpp:117-123 | one pointer: true with no entries; one null pointer: false with no entries |
| DiffProperties.VertexCountMismatchStops | test/unit/ModelDiffer.cpp:131-136 | a differing vertex count gives the name entry, if any, then the count entry, and false |
| DiffProperties.MeshEqualIffSameAttributes | test/unit/ModelDiffer.cpp:116-254 | two distinct meshes with equal vertex counts compare equal exactly when their attributes match, whatever their names |
| DiffProperties.MeshEqualIffOnlyNameEntries | test/unit/ModelDiffer.cpp:116-254 | the answer is true exactly when the report holds nothing but a name entry |
| DiffProperties.MeshEntriesShape | test/unit/ModelDiffer.cpp:125-136 | a mesh comparison writes no blank or mesh-count entry, and a name entry only first |
| DiffProperties.PresenceMismatchStops | test/unit/ModelDiffer.cpp:138-228 | a presence mismatch in a reached block gives the name entry, if any, then exactly that block's presence message, and false |
| DiffProperties.SingleNormalMismatch | test/unit/ModelDiffer.cpp:159-178 | equal positions and exactly one differing normal give exactly one normal entry for that vertex, and false |
| DiffProperties.JoinedExtends | test/unit/ModelDiffer.cpp:74-78 | the mesh reports are appended in index order |
| DiffProperties.JoinedEmptyIff | test/unit/ModelDiffer.cpp:74-78 | the joined reports are empty exactly when each report is |
| DiffProperties.JoinedAt | test/unit/ModelDiffer.cpp:74-78 | report i directly follows the reports before it |
| DiffProperties.SceneShortCircuits | test/unit/ModelDiffer.cpp:56-66 | one scene pointer, or a null pointer, writes nothing |
| DiffProperties.SceneCountEntryFirst | test/unit/ModelDiffer.cpp:68-78 | a differing mesh count is reported first, before the mesh reports |
| DiffProperties.SceneEntriesEmptyIff | test/unit/ModelDiffer.cpp:55-79 | a scene comparison writes nothing exactly when the pointers short-circuit, or the mesh counts agree and no mesh pair writes anything |
| DiffProperties.ScenePairEntriesAt | test/unit/ModelDiffer.cpp:74-78 | the entries of mesh pair i sit right after the count entry and the entries of the pairs before i |

## Left out

- `showReport` (lines 81-91) prints the report to the console. It is output only.
- `dumpVector3` and `dumpColor4D` (lines 104-114) format values as text. An
  entry keeps the raw values and the kind of its message instead, so the
  exact wording and the decimal formatting of the lines are not modelled.
- The destructor (lines 51-53) is empty. Memory ownership is not modelled.
- Floating point is not modelled. `Vec3` and `Color4` are abstract types
  with exact equality. The source's component-wise float `!=` is not
  reflexive for NaN, so a NaN component would be reported as a difference
  against itself. The model's equality is reflexive.
- The `Has*` helpers and the mesh and scene types come from assimp/scene.h,
  which is not part of this model. Presence is modelled as `Option.Some?`.
  Any further condition those helpers test (such as a non-zero vertex
  count) is not modelled.
- `AI_MAX_NUMBER_OF_COLOR_SETS` and `AI_MAX_NUMBER_OF_TEXTURECOORDS` are
  taken as 8 each, the values assimp defines.
- `unsigned int` counts are `nat`. No count the differ handles can
  overflow.
- Differ.ModelDiffer.IsEqual: states no boolean result on the path after
  the mesh loop, because the source returns nothing there. The model
  returns `None`.
- Differ.ModelDiffer.CompareValues: takes the message of its entries as a
  parameter, so it requires that parameter never to make a blank entry.
  The four entry kinds passed by the block methods are never blank.
- `compareMesh` and `isEqual` are split into helper methods. There is one
  per attribute block, one per slot loop and one per turn of it, one per
  vertex walk, and one for the scene's mesh loop and one per turn of it.
  Each helper has the statements of the source's corresponding loop, loop
  body or block. The return value of the nested `compareMesh` call, which
  the source ignores, is ignored here too.
