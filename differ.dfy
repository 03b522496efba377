/** The differ itself: its one piece of state is the report, a list of
    entries that comparisons only ever append to and that only `Reset`
    empties. Each comparison method is proved against the specification
    functions of module Comparison. */
module Differ {
  import opened SceneData
  import opened Comparison

  class ModelDiffer {
    /** The report (`m_diffs`), oldest entry first. */
    var diffs: seq<Diff>

    /** A new differ starts with an empty report. */
    constructor()
      ensures diffs == []
    {
      diffs := [];
    }

    method Reset()
      modifies this
      ensures diffs == []
    {
      diffs := [];
    }

    /** Appends an entry, dropping a blank one. */
    method AddDiff(d: Diff)
      modifies this
      ensures diffs == if Blank(d) then old(diffs) else old(diffs) + [d]
    {
      if Blank(d) {
        return;
      }
      diffs := diffs + [d];
    }

    /** Compares two mesh pointers, appending what differs to the report. */
    method CompareMesh(expected: Mesh?, toCompare: Mesh?) returns (equal: bool)
      requires Comparable(expected, toCompare)
      modifies this
      ensures diffs == old(diffs) + MeshComparison(expected, toCompare).entries
      ensures equal == MeshComparison(expected, toCompare).equal
    {
      if expected == toCompare {
        return true;
      }
      if expected == null || toCompare == null {
        return false;
      }

      if expected.name != toCompare.name {
        AddDiff(NameNotEqual(expected.name, toCompare.name));
      }
      if expected.numVertices != toCompare.numVertices {
        AddDiff(VertexCountNotEqual(expected.numVertices, toCompare.numVertices));
        return false;
      }
      equal := CompareAttributes(expected, toCompare);
      Concat(old(diffs), NameEntries(expected, toCompare), Outcome(FirstFailureFrom(expected, toCompare, 0)));
    }

    /** The attribute blocks of `CompareMesh`, in the order of `Block`: the
        first block that fails writes its entries and ends the comparison. */
    method CompareAttributes(expected: Mesh, toCompare: Mesh) returns (equal: bool)
      requires expected.Valid() && toCompare.Valid() && expected.numVertices == toCompare.numVertices
      requires DefinedFrom(expected, toCompare, 0)
      modifies this
      ensures diffs == old(diffs) + Outcome(FirstFailureFrom(expected, toCompare, 0))
      ensures equal == FirstFailureFrom(expected, toCompare, 0).None?
    {
      // positions
      var vertEqual := ComparePositions(expected, toCompare);
      if !vertEqual {
        return false;
      }

      // normals
      var normalEqual := CompareNormals(expected, toCompare);
      if !normalEqual {
        return false;
      }

      // vertex colors
      var vertColEqual := CompareColorSets(expected, toCompare);
      if !vertColEqual {
        return false;
      }

      // texture coords
      vertColEqual := CompareTextureCoordSets(expected, toCompare);
      if !vertColEqual {
        return false;
      }

      // tangents and bi-tangents
      var tangentsEqual := CompareTangentFrame(expected, toCompare);
      if !tangentsEqual {
        return false;
      }
      assert FirstFailureFrom(expected, toCompare, BlockCount) == None;
      return true;
    }

    /** The colour-slot loop of `CompareMesh`: blocks FirstColorSetBlock up
        to FirstColorSetBlock + MaxColorSets, stopping at the first slot that
        fails. */
    method CompareColorSets(expected: Mesh, toCompare: Mesh) returns (vertColEqual: bool)
      requires expected.Valid() && toCompare.Valid() && expected.numVertices == toCompare.numVertices
      requires DefinedFrom(expected, toCompare, FirstColorSetBlock)
      modifies this
      ensures vertColEqual ==> diffs == old(diffs) && DefinedFrom(expected, toCompare, FirstColorSetBlock + MaxColorSets)
      ensures vertColEqual ==> FirstFailureFrom(expected, toCompare, FirstColorSetBlock) == FirstFailureFrom(expected, toCompare, FirstColorSetBlock + MaxColorSets)
      ensures !vertColEqual ==> FirstFailureFrom(expected, toCompare, FirstColorSetBlock).Some?
      ensures !vertColEqual ==> diffs == old(diffs) + Outcome(FirstFailureFrom(expected, toCompare, FirstColorSetBlock))
      ensures vertColEqual <==> forall a :: 0 <= a < MaxColorSets ==> expected.colors[a] == toCompare.colors[a]
    {
      vertColEqual := true;
      for a := 0 to MaxColorSets
        invariant diffs == old(diffs) && vertColEqual
        invariant forall a' :: 0 <= a' < a ==> expected.colors[a'] == toCompare.colors[a']
      {
        vertColEqual := CompareColorSetAfter(expected, toCompare, a);
        if !vertColEqual {
          return false;
        }
      }
      ColorSetsPass(expected, toCompare, MaxColorSets);
    }

    /** One turn of the colour-slot loop: slot `a`, reached because every
        earlier slot is identical, in terms of the outcome of the whole loop. */
    method CompareColorSetAfter(expected: Mesh, toCompare: Mesh, a: nat) returns (same: bool)
      requires expected.Valid() && toCompare.Valid() && expected.numVertices == toCompare.numVertices
      requires DefinedFrom(expected, toCompare, FirstColorSetBlock) && a < MaxColorSets
      requires forall a' :: 0 <= a' < a ==> expected.colors[a'] == toCompare.colors[a']
      modifies this
      ensures same == (expected.colors[a] == toCompare.colors[a])
      ensures same ==> diffs == old(diffs)
      ensures !same ==> FirstFailureFrom(expected, toCompare, FirstColorSetBlock).Some?
      ensures !same ==> diffs == old(diffs) + Outcome(FirstFailureFrom(expected, toCompare, FirstColorSetBlock))
    {
      ColorSetsPass(expected, toCompare, a);
      same := CompareColorSet(expected, toCompare, a);
      ColorSetAgrees(expected, toCompare, a);
    }

    /** The texture-coordinate loop of `CompareMesh`: blocks 2 + MaxColorSets
        up to 2 + MaxColorSets + MaxTextureCoords. The source records a
        mismatch here in vertColEqual, which is still true at this point, and
        never updates its texCoordsEqual. */
    method CompareTextureCoordSets(expected: Mesh, toCompare: Mesh) returns (vertColEqual: bool)
      requires expected.Valid() && toCompare.Valid() && expected.numVertices == toCompare.numVertices
      requires DefinedFrom(expected, toCompare, 2 + MaxColorSets)
      modifies this
      ensures vertColEqual ==> diffs == old(diffs) && DefinedFrom(expected, toCompare, 2 + MaxColorSets + MaxTextureCoords)
      ensures vertColEqual ==> FirstFailureFrom(expected, toCompare, 2 + MaxColorSets)
                                 == FirstFailureFrom(expected, toCompare, 2 + MaxColorSets + MaxTextureCoords)
      ensures !vertColEqual ==> FirstFailureFrom(expected, toCompare, 2 + MaxColorSets).Some?
      ensures !vertColEqual ==> diffs == old(diffs) + Outcome(FirstFailureFrom(expected, toCompare, 2 + MaxColorSets))
      ensures vertColEqual <==> forall a :: 0 <= a < MaxTextureCoords ==> expected.textureCoords[a] == toCompare.textureCoords[a]
    {
      vertColEqual := true;
      for a := 0 to MaxTextureCoords
        invariant diffs == old(diffs) && vertColEqual
        invariant forall a' :: 0 <= a' < a ==> expected.textureCoords[a'] == toCompare.textureCoords[a']
      {
        vertColEqual := CompareTextureCoordSetAfter(expected, toCompare, a);
        if !vertColEqual {
          return false;
        }
      }
      TextureCoordSetsPass(expected, toCompare, MaxTextureCoords);
    }

    /** One turn of the texture-coordinate loop, like `CompareColorSetAfter`. */
    method CompareTextureCoordSetAfter(expected: Mesh, toCompare: Mesh, a: nat) returns (same: bool)
      requires expected.Valid() && toCompare.Valid() && expected.numVertices == toCompare.numVertices
      requires DefinedFrom(expected, toCompare, 2 + MaxColorSets) && a < MaxTextureCoords
      requires forall a' :: 0 <= a' < a ==> expected.textureCoords[a'] == toCompare.textureCoords[a']
      modifies this
      ensures same == (expected.textureCoords[a] == toCompare.textureCoords[a])
      ensures same ==> diffs == old(diffs)
      ensures !same ==> FirstFailureFrom(expected, toCompare, 2 + MaxColorSets).Some?
      ensures !same ==> diffs == old(diffs) + Outcome(FirstFailureFrom(expected, toCompare, 2 + MaxColorSets))
    {
      TextureCoordSetsPass(expected, toCompare, a);
      same := CompareTextureCoordSet(expected, toCompare, a);
      TextureCoordSetAgrees(expected, toCompare, a);
    }

    /** The positions block of `CompareMesh` (block 0): the presence test,
        then one entry per differing vertex. Like every block method, it
        appends the block's entries and returns whether the block matches,
        which `Stepped` states in terms of the outcome from its index. */
    method ComparePositions(expected: Mesh, toCompare: Mesh) returns (vertEqual: bool)
      requires expected.Valid() && toCompare.Valid() && expected.numVertices == toCompare.numVertices
      requires DefinedFrom(expected, toCompare, 0)
      modifies this
      ensures vertEqual == Agrees(expected, toCompare, Positions)
      ensures Stepped(expected, toCompare, 0, vertEqual, old(diffs), diffs)
    {
      if expected.HasPositions() != toCompare.HasPositions() {
        AddDiff(VerticesMissing);
        StepBlock(expected, toCompare, 0, false, old(diffs), diffs);
        return false;
      }
      vertEqual := CompareValues(Values(expected.vertices), Values(toCompare.vertices), VertexEntry);
      ScanEmptyIffAgrees(expected, toCompare, Positions);
      StepBlock(expected, toCompare, 0, vertEqual, old(diffs), diffs);
    }

    /** The normals block of `CompareMesh` (block 1). */
    method CompareNormals(expected: Mesh, toCompare: Mesh) returns (normalEqual: bool)
      requires expected.Valid() && toCompare.Valid() && expected.numVertices == toCompare.numVertices
      requires DefinedFrom(expected, toCompare, 1)
      modifies this
      ensures normalEqual == Agrees(expected, toCompare, Normals)
      ensures Stepped(expected, toCompare, 1, normalEqual, old(diffs), diffs)
    {
      if expected.HasNormals() != toCompare.HasNormals() {
        AddDiff(NormalsMissing);
        StepBlock(expected, toCompare, 1, false, old(diffs), diffs);
        return false;
      }
      normalEqual := CompareValues(Values(expected.normals), Values(toCompare.normals), NormalEntry);
      ScanEmptyIffAgrees(expected, toCompare, Normals);
      StepBlock(expected, toCompare, 1, normalEqual, old(diffs), diffs);
    }

    /** Colour slot a of `CompareMesh` (block FirstColorSetBlock + a). A
        presence mismatch is reported with the normals message, as the
        source does. */
    method CompareColorSet(expected: Mesh, toCompare: Mesh, a: nat) returns (vertColEqual: bool)
      requires expected.Valid() && toCompare.Valid() && expected.numVertices == toCompare.numVertices
      requires a < MaxColorSets && DefinedFrom(expected, toCompare, FirstColorSetBlock + a)
      modifies this
      ensures vertColEqual == Agrees(expected, toCompare, ColorSet(a))
      ensures Stepped(expected, toCompare, FirstColorSetBlock + a, vertColEqual, old(diffs), diffs)
    {
      assert Block(FirstColorSetBlock + a) == ColorSet(a);
      if expected.HasVertexColors(a) != toCompare.HasVertexColors(a) {
        AddDiff(NormalsMissing);
        StepBlock(expected, toCompare, FirstColorSetBlock + a, false, old(diffs), diffs);
        return false;
      }
      vertColEqual := CompareValues(Values(expected.colors[a]), Values(toCompare.colors[a]), ColorEntry);
      ScanEmptyIffAgrees(expected, toCompare, ColorSet(a));
      StepBlock(expected, toCompare, FirstColorSetBlock + a, vertColEqual, old(diffs), diffs);
    }

    /** Texture-coordinate slot a of `CompareMesh` (block 2 + MaxColorSets + a). */
    method CompareTextureCoordSet(expected: Mesh, toCompare: Mesh, a: nat) returns (texCoordEqual: bool)
      requires expected.Valid() && toCompare.Valid() && expected.numVertices == toCompare.numVertices
      requires a < MaxTextureCoords && DefinedFrom(expected, toCompare, 2 + MaxColorSets + a)
      modifies this
      ensures texCoordEqual == Agrees(expected, toCompare, TextureCoordSet(a))
      ensures Stepped(expected, toCompare, 2 + MaxColorSets + a, texCoordEqual, old(diffs), diffs)
    {
      assert Block(2 + MaxColorSets + a) == TextureCoordSet(a);
      if expected.HasTextureCoords(a) != toCompare.HasTextureCoords(a) {
        AddDiff(TextureCoordsMissing);
        StepBlock(expected, toCompare, 2 + MaxColorSets + a, false, old(diffs), diffs);
        return false;
      }
      texCoordEqual := CompareValues(Values(expected.textureCoords[a]), Values(toCompare.textureCoords[a]), TextureCoordEntry);
      ScanEmptyIffAgrees(expected, toCompare, TextureCoordSet(a));
      StepBlock(expected, toCompare, 2 + MaxColorSets + a, texCoordEqual, old(diffs), diffs);
    }

    /** The per-vertex loop of the positions, normals, colour and
        texture-coordinate blocks: walks both arrays in vertex order and
        appends the entry `entry` makes for each vertex whose values differ.
        The result is whether no vertex differed. */
    method CompareValues<T(==)>(expected: seq<T>, toCompare: seq<T>, entry: (T, T) -> Diff) returns (same: bool)
      requires |expected| == |toCompare|
      requires forall x, y :: !Blank(entry(x, y))
      modifies this
      ensures diffs == old(diffs) + Scan(expected, toCompare, |expected|, entry)
      ensures same <==> Scan(expected, toCompare, |expected|, entry) == []
    {
      same := true;
      for i := 0 to |expected|
        invariant diffs == old(diffs) + Scan(expected, toCompare, i, entry)
        invariant same <==> Scan(expected, toCompare, i, entry) == []
      {
        if expected[i] != toCompare[i] {
          Concat(old(diffs), Scan(expected, toCompare, i, entry), [entry(expected[i], toCompare[i])]);
          AddDiff(entry(expected[i], toCompare[i]));
          same := false;
        }
      }
    }

    /** The tangent-frame block of `CompareMesh` (the last block). */
    method CompareTangentFrame(expected: Mesh, toCompare: Mesh) returns (tangentsEqual: bool)
      requires expected.Valid() && toCompare.Valid() && expected.numVertices == toCompare.numVertices
      requires DefinedFrom(expected, toCompare, BlockCount - 1)
      modifies this
      ensures tangentsEqual == Agrees(expected, toCompare, TangentFrame)
      ensures Stepped(expected, toCompare, BlockCount - 1, tangentsEqual, old(diffs), diffs)
    {
      assert Block(BlockCount - 1) == TangentFrame;
      if expected.HasTangentsAndBitangents() != toCompare.HasTangentsAndBitangents() {
        AddDiff(TangentsMissing);
        StepBlock(expected, toCompare, BlockCount - 1, false, old(diffs), diffs);
        return false;
      }
      tangentsEqual := CompareTangentValues(Values(expected.tangents), Values(toCompare.tangents),
                                            Values(expected.bitangents), Values(toCompare.bitangents));
      ScanEmptyIffAgrees(expected, toCompare, TangentFrame);
      StepBlock(expected, toCompare, BlockCount - 1, tangentsEqual, old(diffs), diffs);
    }

    /** The per-vertex loop of the tangent-frame block: per vertex, the
        tangent and then the bitangent are compared, and a differing
        bitangent is reported with the tangents message, as the source does. */
    method CompareTangentValues(et: seq<Vec3>, tt: seq<Vec3>, eb: seq<Vec3>, tb: seq<Vec3>) returns (same: bool)
      requires |et| == |tt| == |eb| == |tb|
      modifies this
      ensures diffs == old(diffs) + TangentScan(et, tt, eb, tb, |et|)
      ensures same <==> TangentScan(et, tt, eb, tb, |et|) == []
    {
      same := true;
      for i := 0 to |et|
        invariant diffs == old(diffs) + TangentScan(et, tt, eb, tb, i)
        invariant same <==> TangentScan(et, tt, eb, tb, i) == []
      {
        ghost var start := diffs;
        if et[i] != tt[i] {
          AddDiff(TangentNotEqual(et[i], tt[i]));
          same := false;
        }
        ghost var mid := diffs;
        assert mid == start + TangentEntry(et, tt, i);
        if eb[i] != tb[i] {
          AddDiff(TangentNotEqual(eb[i], tb[i]));
          same := false;
        }
        assert diffs == mid + TangentEntry(eb, tb, i);
        Concat(start, TangentEntry(et, tt, i), TangentEntry(eb, tb, i));
        Concat(old(diffs), TangentScan(et, tt, eb, tb, i), TangentPair(et, tt, eb, tb, i));
      }
    }

    /** Compares two scenes mesh by mesh. The source has no return statement
        after its mesh loop, so its result there is undefined; this model
        gives `None` on that path. */
    method IsEqual(expected: Scene?, toCompare: Scene?) returns (result: Option<bool>)
      requires SceneComparable(expected, toCompare)
      modifies this
      ensures diffs == old(diffs) + SceneEntries(expected, toCompare)
      ensures expected == toCompare ==> result == Some(true)
      ensures expected != toCompare && (expected == null || toCompare == null) ==> result == Some(false)
      ensures expected != toCompare && expected != null && toCompare != null ==> result == None
    {
      if expected == toCompare {
        return Some(true);
      }
      if expected == null {
        return Some(false);
      }
      if toCompare == null {
        return Some(false);
      }

      if |expected.meshes| != |toCompare.meshes| {
        AddDiff(MeshCountNotEqual(|expected.meshes|, |toCompare.meshes|));
      }
      CompareMeshes(expected, toCompare);
      Concat(old(diffs), CountEntries(expected, toCompare), Joined(MeshReports(expected, toCompare), |expected.meshes|));
      result := None;
    }

    /** The mesh loop of `IsEqual`: compares the meshes at each index of the
        first scene, in order. */
    method CompareMeshes(expected: Scene, toCompare: Scene)
      requires PairsComparable(expected, toCompare)
      modifies this
      ensures diffs == old(diffs) + Joined(MeshReports(expected, toCompare), |expected.meshes|)
    {
      ghost var reports := MeshReports(expected, toCompare);
      for i := 0 to |expected.meshes|
        invariant diffs == old(diffs) + Joined(reports, i)
      {
        CompareMeshAt(expected, toCompare, i);
        Concat(old(diffs), Joined(reports, i), reports[i]);
      }
    }

    /** One turn of the mesh loop: the pair at index i, whose result the
        source ignores. */
    method CompareMeshAt(expected: Scene, toCompare: Scene, i: nat)
      requires PairsComparable(expected, toCompare) && i < |expected.meshes|
      modifies this
      ensures diffs == old(diffs) + MeshReports(expected, toCompare)[i]
    {
      var _ := CompareMesh(expected.meshes[i], toCompare.meshes[i]);
    }
  }
}
