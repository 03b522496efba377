/** What a comparison reports and decides, as functions of the two inputs.
    `MeshComparison` and `SceneEntries` are the specifications that the
    imperative `ModelDiffer.CompareMesh` and `ModelDiffer.IsEqual` are proved
    against. */
module Comparison {
  import opened SceneData

  /** Concatenation is associative; stated once so that proofs about a
      growing report need not rediscover it. */
  lemma Concat<T>(a: seq<T>, b: seq<T>, c: seq<T>)
    ensures (a + b) + c == a + (b + c)
  {
  }

  /** One report entry. The differ writes each as a line of text; here an
      entry keeps the kind of its message and the raw expected/found values
      instead of their decimal rendering. The message kinds are the ones the
      differ writes, including the two it writes in the wrong place: a
      missing colour set is reported with the normals message, and a
      differing bitangent with the tangents message. */
  datatype Diff =
      /** Free text, as passed to `addDiff` by a caller. */
    | Message(text: string)
      /** "Number of meshes not equal ( expected: .., found : .. )" */
    | MeshCountNotEqual(expected: nat, found: nat)
      /** "Mesh name not equal ( expected: .., found : .. )" */
    | NameNotEqual(expectedName: string, foundName: string)
      /** "Number of vertices not equal ( expected: .., found : .. )" */
    | VertexCountNotEqual(expected: nat, found: nat)
      /** "Expected are vertices, toCompare does not have any." */
    | VerticesMissing
      /** "Expected are normals, toCompare does not have any." */
    | NormalsMissing
      /** "Expected are texture coords, toCompare does not have any." */
    | TextureCoordsMissing
      /** "Expected are tangents and bi-tangents, toCompare does not have any." */
    | TangentsMissing
      /** "Vertex not equal ( expected: .., found: .." */
    | VertexNotEqual(expectedVec: Vec3, foundVec: Vec3)
      /** "Normal not equal ( expected: .., found: .." */
    | NormalNotEqual(expectedVec: Vec3, foundVec: Vec3)
      /** "Color4D not equal ( expected: .., found: .." */
    | ColorNotEqual(expectedColor: Color4, foundColor: Color4)
      /** "Texture coords not equal ( expected: .., found: .." */
    | TextureCoordNotEqual(expectedVec: Vec3, foundVec: Vec3)
      /** "Tangents not equal ( expected: .., found: .." */
    | TangentNotEqual(expectedVec: Vec3, foundVec: Vec3)

  /** The entry whose text is the empty string. Every message the differ
      composes itself starts with fixed, non-empty text, so only free text
      can be blank. */
  predicate Blank(d: Diff) {
    d.Message? && d.text == ""
  }

  /** An entry written by one of the attribute blocks of a mesh comparison. */
  predicate AttributeEntry(d: Diff) {
    !(d.Message? || d.MeshCountNotEqual? || d.NameNotEqual? || d.VertexCountNotEqual?)
  }

  /** The entry a presence mismatch in a block produces. */
  function PresenceDiff(ch: Channel): (d: Diff)
    ensures AttributeEntry(d)
  {
    match ch
    case Positions => VerticesMissing
    case Normals => NormalsMissing
    case ColorSet(_) => NormalsMissing
    case TextureCoordSet(_) => TextureCoordsMissing
    case TangentFrame => TangentsMissing
  }

  /** Equal entries at every index below n. */
  predicate SameUpTo<T(==)>(es: seq<T>, ts: seq<T>, n: nat)
    requires n <= |es| && n <= |ts|
  {
    forall i :: 0 <= i < n ==> es[i] == ts[i]
  }

  /** The entries of one per-vertex scan over the vertices below n: one
      entry, made by `entry`, for each vertex whose two values differ, in
      vertex order. */
  function Scan<T(==)>(es: seq<T>, ts: seq<T>, n: nat, entry: (T, T) -> Diff): (r: seq<Diff>)
    requires n <= |es| && n <= |ts|
    ensures |r| <= n
  {
    if n == 0 then []
    else
      var r := Scan(es, ts, n - 1, entry);
      r + (if es[n - 1] != ts[n - 1] then [entry(es[n - 1], ts[n - 1])] else [])
  }

  /** The entry kinds of the per-vertex scans, as functions of the two
      differing values. */
  function VertexEntry(expected: Vec3, found: Vec3): Diff { VertexNotEqual(expected, found) }
  function NormalEntry(expected: Vec3, found: Vec3): Diff { NormalNotEqual(expected, found) }
  function ColorEntry(expected: Color4, found: Color4): Diff { ColorNotEqual(expected, found) }
  function TextureCoordEntry(expected: Vec3, found: Vec3): Diff { TextureCoordNotEqual(expected, found) }

  /** The tangents-message entry of vertex i of one of the two tangent-frame
      arrays, empty where the two values agree. */
  function TangentEntry(es: seq<Vec3>, ts: seq<Vec3>, i: nat): seq<Diff>
    requires i < |es| && i < |ts|
  {
    if es[i] != ts[i] then [TangentNotEqual(es[i], ts[i])] else []
  }

  /** The tangent-frame entries of vertex i: the tangent entry, then the
      bitangent entry. */
  function TangentPair(et: seq<Vec3>, tt: seq<Vec3>, eb: seq<Vec3>, tb: seq<Vec3>, i: nat): seq<Diff>
    requires i < |et| && i < |tt| && i < |eb| && i < |tb|
  {
    TangentEntry(et, tt, i) + TangentEntry(eb, tb, i)
  }

  /** The scan of the tangent frame over the vertices below n. */
  function TangentScan(et: seq<Vec3>, tt: seq<Vec3>, eb: seq<Vec3>, tb: seq<Vec3>, n: nat): seq<Diff>
    requires n <= |et| && n <= |tt| && n <= |eb| && n <= |tb|
  {
    if n == 0 then []
    else TangentScan(et, tt, eb, tb, n - 1) + TangentPair(et, tt, eb, tb, n - 1)
  }

  /** The array of an optional channel, empty when the channel is absent. */
  function Values<T>(channel: Option<seq<T>>): seq<T> {
    match channel
    case Some(s) => s
    case None => []
  }

  function ColorSlot(m: Mesh, a: nat): Option<seq<Color4>> {
    if a < |m.colors| then m.colors[a] else None
  }

  function CoordSlot(m: Mesh, a: nat): Option<seq<Vec3>> {
    if a < |m.textureCoords| then m.textureCoords[a] else None
  }

  /** The differ reads a block's arrays for every vertex once the presence
      test passed: that is defined when the block is present in both meshes
      or there is no vertex to read (the differ does not check that the
      arrays it reads are there). */
  predicate Readable(e: Mesh, t: Mesh, ch: Channel) {
    e.Has(ch) != t.Has(ch) || e.Has(ch) || e.numVertices == 0
  }

  /** The per-vertex scan of a block whose presence test passed, over the
      vertices below n. */
  function ChannelScan(e: Mesh, t: Mesh, ch: Channel, n: nat): (r: seq<Diff>)
    requires e.Valid() && t.Valid() && e.numVertices == t.numVertices
    requires Readable(e, t, ch) && e.Has(ch) == t.Has(ch) && n <= e.numVertices
    ensures ch != TangentFrame ==> |r| <= n
  {
    match ch
    case Positions =>
      Scan(Values(e.vertices), Values(t.vertices), n, VertexEntry)
    case Normals =>
      Scan(Values(e.normals), Values(t.normals), n, NormalEntry)
    case ColorSet(a) =>
      Scan(Values(ColorSlot(e, a)), Values(ColorSlot(t, a)), n, ColorEntry)
    case TextureCoordSet(a) =>
      Scan(Values(CoordSlot(e, a)), Values(CoordSlot(t, a)), n, TextureCoordEntry)
    case TangentFrame =>
      TangentScan(Values(e.tangents), Values(t.tangents), Values(e.bitangents), Values(t.bitangents), n)
  }

  /** The reference meaning of "this block matches": the presence tests agree
      and, where present, the arrays are equal. */
  predicate Agrees(e: Mesh, t: Mesh, ch: Channel) {
    && e.Has(ch) == t.Has(ch)
    && (e.Has(ch) ==>
          match ch
          case Positions => e.vertices == t.vertices
          case Normals => e.normals == t.normals
          case ColorSet(a) => ColorSlot(e, a) == ColorSlot(t, a)
          case TextureCoordSet(a) => CoordSlot(e, a) == CoordSlot(t, a)
          case TangentFrame => e.tangents == t.tangents && e.bitangents == t.bitangents)
  }

  /** A colour slot agrees exactly when the two slots are identical: absent
      in both, or present in both with equal arrays. */
  lemma ColorSetAgrees(e: Mesh, t: Mesh, a: nat)
    requires e.Valid() && t.Valid() && a < MaxColorSets
    ensures Agrees(e, t, ColorSet(a)) <==> e.colors[a] == t.colors[a]
  {
  }

  /** A texture-coordinate slot agrees exactly when the two slots are
      identical. */
  lemma TextureCoordSetAgrees(e: Mesh, t: Mesh, a: nat)
    requires e.Valid() && t.Valid() && a < MaxTextureCoords
    ensures Agrees(e, t, TextureCoordSet(a)) <==> e.textureCoords[a] == t.textureCoords[a]
  {
  }

  /** Agreement below n is agreement below n - 1 and at n - 1. */
  lemma SameUpToStep<T>(es: seq<T>, ts: seq<T>, n: nat)
    requires 0 < n <= |es| && n <= |ts|
    ensures SameUpTo(es, ts, n) <==> SameUpTo(es, ts, n - 1) && es[n - 1] == ts[n - 1]
  {
  }

  /** A scan writes nothing exactly when the two arrays agree at every
      scanned vertex. */
  lemma {:induction false} ScanEmptyIff<T>(es: seq<T>, ts: seq<T>, n: nat, entry: (T, T) -> Diff)
    requires n <= |es| && n <= |ts|
    ensures Scan(es, ts, n, entry) == [] <==> SameUpTo(es, ts, n)
  {
    if n > 0 {
      ScanEmptyIff(es, ts, n - 1, entry);
      SameUpToStep(es, ts, n);
      var r := Scan(es, ts, n - 1, entry);
      var last := if es[n - 1] != ts[n - 1] then [entry(es[n - 1], ts[n - 1])] else [];
      assert Scan(es, ts, n, entry) == r + last;
      assert |r + last| == |r| + |last|;
    }
  }

  /** The tangent-frame scan writes nothing exactly when both pairs of
      arrays agree at every scanned vertex. */
  lemma {:induction false} TangentScanEmptyIff(et: seq<Vec3>, tt: seq<Vec3>, eb: seq<Vec3>, tb: seq<Vec3>, n: nat)
    requires n <= |et| && n <= |tt| && n <= |eb| && n <= |tb|
    ensures TangentScan(et, tt, eb, tb, n) == [] <==> SameUpTo(et, tt, n) && SameUpTo(eb, tb, n)
  {
    if n > 0 {
      TangentScanEmptyIff(et, tt, eb, tb, n - 1);
      SameUpToStep(et, tt, n);
      SameUpToStep(eb, tb, n);
      var r, p := TangentScan(et, tt, eb, tb, n - 1), TangentPair(et, tt, eb, tb, n - 1);
      assert TangentScan(et, tt, eb, tb, n) == r + p;
      assert |r + p| == |r| + |p|;
      assert |p| == |TangentEntry(et, tt, n - 1)| + |TangentEntry(eb, tb, n - 1)|;
    }
  }

  /** Two arrays of the same length are equal exactly when they agree at
      every index. */
  lemma SameUpToIsEquality<T>(es: seq<T>, ts: seq<T>)
    requires |es| == |ts|
    ensures SameUpTo(es, ts, |es|) <==> es == ts
  {
  }

  /** A block whose presence test passed writes nothing exactly when it
      matches. */
  lemma ScanEmptyIffAgrees(e: Mesh, t: Mesh, ch: Channel)
    requires e.Valid() && t.Valid() && e.numVertices == t.numVertices
    requires Readable(e, t, ch) && e.Has(ch) == t.Has(ch)
    ensures ChannelScan(e, t, ch, e.numVertices) == [] <==> Agrees(e, t, ch)
  {
    if e.Has(ch) {
      match ch
      case Positions =>
        ScanEmptyIff(Values(e.vertices), Values(t.vertices), e.numVertices, VertexEntry);
        SameUpToIsEquality(Values(e.vertices), Values(t.vertices));
      case Normals =>
        ScanEmptyIff(Values(e.normals), Values(t.normals), e.numVertices, NormalEntry);
        SameUpToIsEquality(Values(e.normals), Values(t.normals));
      case ColorSet(a) =>
        ScanEmptyIff(Values(ColorSlot(e, a)), Values(ColorSlot(t, a)), e.numVertices, ColorEntry);
        SameUpToIsEquality(Values(ColorSlot(e, a)), Values(ColorSlot(t, a)));
      case TextureCoordSet(a) =>
        ScanEmptyIff(Values(CoordSlot(e, a)), Values(CoordSlot(t, a)), e.numVertices, TextureCoordEntry);
        SameUpToIsEquality(Values(CoordSlot(e, a)), Values(CoordSlot(t, a)));
      case TangentFrame =>
        TangentScanEmptyIff(Values(e.tangents), Values(t.tangents), Values(e.bitangents), Values(t.bitangents), e.numVertices);
        SameUpToIsEquality(Values(e.tangents), Values(t.tangents));
        SameUpToIsEquality(Values(e.bitangents), Values(t.bitangents));
    }
  }

  /** One attribute block: `None` when it passes, otherwise the entries it
      writes before the comparison stops. */
  function ChannelCheck(e: Mesh, t: Mesh, ch: Channel): (r: Option<seq<Diff>>)
    requires e.Valid() && t.Valid() && e.numVertices == t.numVertices && Readable(e, t, ch)
    ensures r.None? <==> Agrees(e, t, ch)
    ensures e.Has(ch) != t.Has(ch) ==> r == Some([PresenceDiff(ch)])
    ensures r.Some? ==> r.value != []
  {
    if e.Has(ch) != t.Has(ch) then Some([PresenceDiff(ch)])
    else
      var s := ChannelScan(e, t, ch, e.numVertices);
      ScanEmptyIffAgrees(e, t, ch);
      if s == [] then None else Some(s)
  }

  /** Every block from the k-th on that the differ reaches can be read: a
      block is reached when every block before it passed. */
  predicate DefinedFrom(e: Mesh, t: Mesh, k: nat)
    decreases BlockCount - k
  {
    k >= BlockCount || (Readable(e, t, Block(k)) && (Agrees(e, t, Block(k)) ==> DefinedFrom(e, t, k + 1)))
  }

  /** The attribute blocks from the k-th on, stopping at the first that fails. */
  function FirstFailureFrom(e: Mesh, t: Mesh, k: nat): (r: Option<seq<Diff>>)
    requires e.Valid() && t.Valid() && e.numVertices == t.numVertices && DefinedFrom(e, t, k)
    decreases BlockCount - k
  {
    if k >= BlockCount then None
    else
      match ChannelCheck(e, t, Block(k))
      case Some(entries) => Some(entries)
      case None => FirstFailureFrom(e, t, k + 1)
  }

  /** The entries of an outcome: none when every block passed. */
  function Outcome(r: Option<seq<Diff>>): seq<Diff> {
    match r
    case None => []
    case Some(entries) => entries
  }

  /** What the differ needs of a pair of meshes: a null or shared pointer is
      always fine; two distinct meshes with the same vertex count must be
      fully constructed, and every block the differ reaches readable. */
  predicate Comparable(e: Mesh?, t: Mesh?) {
    e == t || e == null || t == null ||
    (e.numVertices == t.numVertices ==> e.Valid() && t.Valid() && DefinedFrom(e, t, 0))
  }

  /** The name entry, written without stopping the comparison. */
  function NameEntries(e: Mesh, t: Mesh): (r: seq<Diff>)
    ensures |r| <= 1 && (r == [] <==> e.name == t.name)
  {
    if e.name != t.name then [NameNotEqual(e.name, t.name)] else []
  }

  /** The outcome of one mesh comparison: the entries appended to the report
      and the returned verdict. */
  datatype Verdict = Verdict(entries: seq<Diff>, equal: bool)

  /** The outcome of comparing two mesh pointers: identical pointers are
      equal, a null pointer against another is unequal, a differing name is
      reported without stopping, a differing vertex count is reported and
      stops, and otherwise the first failing attribute block decides. */
  function MeshComparison(e: Mesh?, t: Mesh?): Verdict
    requires Comparable(e, t)
  {
    if e == t then Verdict([], true)
    else if e == null || t == null then Verdict([], false)
    else if e.numVertices != t.numVertices then
      Verdict(NameEntries(e, t) + [VertexCountNotEqual(e.numVertices, t.numVertices)], false)
    else
      var outcome := FirstFailureFrom(e, t, 0);
      Verdict(NameEntries(e, t) + Outcome(outcome), outcome.None?)
  }

  /** What one attribute block needs: two fully constructed meshes with the
      same vertex count whose arrays for the block can be read. */
  predicate BlockReady(e: Mesh, t: Mesh, ch: Channel) {
    e.Valid() && t.Valid() && e.numVertices == t.numVertices && Readable(e, t, ch)
  }

  /** The entries one attribute block writes: none when it passes. */
  function BlockEntries(e: Mesh, t: Mesh, ch: Channel): seq<Diff>
    requires BlockReady(e, t, ch)
  {
    Outcome(ChannelCheck(e, t, ch))
  }

  /** A block that passes hands the outcome on to the next block. */
  lemma PassBlock(e: Mesh, t: Mesh, k: nat)
    requires e.Valid() && t.Valid() && e.numVertices == t.numVertices && DefinedFrom(e, t, k)
    requires k < BlockCount && Agrees(e, t, Block(k))
    ensures DefinedFrom(e, t, k + 1) && FirstFailureFrom(e, t, k) == FirstFailureFrom(e, t, k + 1)
  {
  }

  /** A block that fails decides the outcome with its entries. */
  lemma FailBlock(e: Mesh, t: Mesh, k: nat)
    requires e.Valid() && t.Valid() && e.numVertices == t.numVertices && DefinedFrom(e, t, k)
    requires k < BlockCount && !Agrees(e, t, Block(k))
    ensures FirstFailureFrom(e, t, k) == Some(BlockEntries(e, t, Block(k)))
  {
  }

  /** How the report moves when the block at index k has been compared:
      a block that passes appends nothing and hands the outcome on to the
      next block; one that fails appends the outcome from k, and that
      outcome is a failure. */
  predicate Stepped(e: Mesh, t: Mesh, k: nat, passed: bool, before: seq<Diff>, after: seq<Diff>)
    requires e.Valid() && t.Valid() && e.numVertices == t.numVertices && DefinedFrom(e, t, k)
  {
    if passed then
      after == before && DefinedFrom(e, t, k + 1) && FirstFailureFrom(e, t, k) == FirstFailureFrom(e, t, k + 1)
    else
      after == before + Outcome(FirstFailureFrom(e, t, k)) && FirstFailureFrom(e, t, k).Some?
  }

  /** A block that writes its entries and reports whether it matches steps
      the report as the outcome from its index says. */
  lemma StepBlock(e: Mesh, t: Mesh, k: nat, passed: bool, before: seq<Diff>, after: seq<Diff>)
    requires e.Valid() && t.Valid() && e.numVertices == t.numVertices && DefinedFrom(e, t, k)
    requires k < BlockCount && passed == Agrees(e, t, Block(k))
    requires after == before + BlockEntries(e, t, Block(k))
    ensures Stepped(e, t, k, passed, before, after)
  {
  }

  /** Colour slots that are identical in the two meshes all pass: with the
      slots below a identical, the blocks from the first colour block up to
      slot a are readable and hand the outcome on to slot a. */
  lemma {:induction false} ColorSetsPass(e: Mesh, t: Mesh, a: nat)
    requires e.Valid() && t.Valid() && e.numVertices == t.numVertices
    requires DefinedFrom(e, t, FirstColorSetBlock) && a <= MaxColorSets
    requires forall a' :: 0 <= a' < a ==> e.colors[a'] == t.colors[a']
    ensures DefinedFrom(e, t, FirstColorSetBlock + a)
    ensures FirstFailureFrom(e, t, FirstColorSetBlock) == FirstFailureFrom(e, t, FirstColorSetBlock + a)
  {
    if a > 0 {
      ColorSetsPass(e, t, a - 1);
      assert Block(FirstColorSetBlock + (a - 1)) == ColorSet(a - 1);
      ColorSetAgrees(e, t, a - 1);
      PassBlock(e, t, FirstColorSetBlock + (a - 1));
    }
  }

  /** Texture-coordinate slots that are identical in the two meshes all pass. */
  lemma {:induction false} TextureCoordSetsPass(e: Mesh, t: Mesh, a: nat)
    requires e.Valid() && t.Valid() && e.numVertices == t.numVertices
    requires DefinedFrom(e, t, 2 + MaxColorSets) && a <= MaxTextureCoords
    requires forall a' :: 0 <= a' < a ==> e.textureCoords[a'] == t.textureCoords[a']
    ensures DefinedFrom(e, t, 2 + MaxColorSets + a)
    ensures FirstFailureFrom(e, t, 2 + MaxColorSets) == FirstFailureFrom(e, t, 2 + MaxColorSets + a)
  {
    if a > 0 {
      TextureCoordSetsPass(e, t, a - 1);
      assert Block(2 + MaxColorSets + (a - 1)) == TextureCoordSet(a - 1);
      TextureCoordSetAgrees(e, t, a - 1);
      PassBlock(e, t, 2 + MaxColorSets + (a - 1));
    }
  }

  /** What the scene loop needs of two scenes: the second has a mesh at
      every index of the first (the loop reads both arrays up to the first
      scene's mesh count), and every pair is comparable. */
  predicate PairsComparable(e: Scene, t: Scene) {
    |e.meshes| <= |t.meshes| &&
    forall i :: 0 <= i < |e.meshes| ==> Comparable(e.meshes[i], t.meshes[i])
  }

  /** What the scene comparison needs: a null or shared pointer is always
      fine, and otherwise the mesh pairs must be comparable. */
  predicate SceneComparable(e: Scene?, t: Scene?) {
    e == t || e == null || t == null || PairsComparable(e, t)
  }

  /** The mesh-count entry, written without stopping the comparison. */
  function CountEntries(e: Scene, t: Scene): (r: seq<Diff>)
    ensures |r| <= 1 && (r == [] <==> |e.meshes| == |t.meshes|)
  {
    if |e.meshes| != |t.meshes| then [MeshCountNotEqual(|e.meshes|, |t.meshes|)] else []
  }

  /** The entries of the mesh pair at each index of the first scene. */
  function MeshReports(e: Scene, t: Scene): (r: seq<seq<Diff>>)
    requires PairsComparable(e, t)
    ensures |r| == |e.meshes|
  {
    seq(|e.meshes|, i requires 0 <= i < |e.meshes| => MeshComparison(e.meshes[i], t.meshes[i]).entries)
  }

  /** The first k reports, one after the other. */
  function Joined(reports: seq<seq<Diff>>, k: nat): seq<Diff>
    requires k <= |reports|
  {
    if k == 0 then [] else Joined(reports, k - 1) + reports[k - 1]
  }

  /** The entries one scene comparison appends to the report: the mesh-count
      entry, then the entries of every mesh pair of the first scene. */
  function SceneEntries(e: Scene?, t: Scene?): seq<Diff>
    requires SceneComparable(e, t)
  {
    if e == t || e == null || t == null then []
    else CountEntries(e, t) + Joined(MeshReports(e, t), |e.meshes|)
  }
}
