/** The two read-only inputs of the differ: meshes and scenes as the importer
    hands them over. Both are reference types, so that the pointer identity
    and the null pointers the differ tests for are modelled as such; their
    fields are constants because the differ never writes to them.

    The mesh header (assimp/scene.h, assimp/mesh.h) is not part of this model:
    a component is an abstract value with exact equality, and an optional
    per-vertex array is an `Option<seq<_>>` that is `Some` exactly when the
    mesh carries that array. */
module SceneData {

  datatype Option<+T> = None | Some(value: T)

  /** A 3D vector (`aiVector3D`); its `!=` is exact, component-wise. */
  type Vec3(==)

  /** An RGBA colour (`aiColor4D`); its `!=` is exact, component-wise. */
  type Color4(==)

  /** `AI_MAX_NUMBER_OF_COLOR_SETS`: the number of vertex-colour slots. */
  const MaxColorSets: nat := 8

  /** `AI_MAX_NUMBER_OF_TEXTURECOORDS`: the number of texture-coordinate slots. */
  const MaxTextureCoords: nat := 8

  /** The attribute blocks the differ visits, one per presence test. The
      tangent frame is one block: tangents and bitangents are checked and
      scanned together. */
  datatype Channel =
    | Positions
    | Normals
    | ColorSet(colorSet: nat)
    | TextureCoordSet(coordSet: nat)
    | TangentFrame

  /** The number of attribute blocks: positions, normals, each colour set,
      each texture-coordinate set, and the tangent frame. */
  const BlockCount: nat := 3 + MaxColorSets + MaxTextureCoords

  /** The index of the first colour-slot block, after positions and normals. */
  const FirstColorSetBlock: nat := 2

  /** The k-th attribute block in the order in which the differ visits them. */
  function Block(k: nat): Channel
    requires k < BlockCount
  {
    if k == 0 then Positions
    else if k == 1 then Normals
    else if k < 2 + MaxColorSets then ColorSet(k - 2)
    else if k < 2 + MaxColorSets + MaxTextureCoords then TextureCoordSet(k - 2 - MaxColorSets)
    else TangentFrame
  }

  class Mesh {
    const name: string
    const numVertices: nat
    const vertices: Option<seq<Vec3>>
    const normals: Option<seq<Vec3>>
    const colors: seq<Option<seq<Color4>>>
    const textureCoords: seq<Option<seq<Vec3>>>
    const tangents: Option<seq<Vec3>>
    const bitangents: Option<seq<Vec3>>

    /** A present array holds one entry per vertex. */
    predicate Fits<T>(channel: Option<seq<T>>) {
      channel.Some? ==> |channel.value| == numVertices
    }

    /** A fully constructed mesh: fixed-size slot arrays, and every present
        per-vertex array as long as the vertex count. */
    predicate Valid() {
      && Fits(vertices)
      && Fits(normals)
      && |colors| == MaxColorSets
      && (forall a :: 0 <= a < |colors| ==> Fits(colors[a]))
      && |textureCoords| == MaxTextureCoords
      && (forall a :: 0 <= a < |textureCoords| ==> Fits(textureCoords[a]))
      && Fits(tangents)
      && Fits(bitangents)
    }

    predicate HasPositions() { vertices.Some? }

    predicate HasNormals() { normals.Some? }

    predicate HasVertexColors(a: nat) { a < |colors| && colors[a].Some? }

    predicate HasTextureCoords(a: nat) { a < |textureCoords| && textureCoords[a].Some? }

    predicate HasTangentsAndBitangents() { tangents.Some? && bitangents.Some? }

    /** The presence test of one attribute block. */
    predicate Has(ch: Channel) {
      match ch
      case Positions => HasPositions()
      case Normals => HasNormals()
      case ColorSet(a) => HasVertexColors(a)
      case TextureCoordSet(a) => HasTextureCoords(a)
      case TangentFrame => HasTangentsAndBitangents()
    }
  }

  /** A scene: its mesh pointer array, whose length is the mesh count. */
  class Scene {
    const meshes: seq<Mesh?>
  }
}
