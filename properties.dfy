/** What the differ promises, proved about the specification functions that
    `ModelDiffer.CompareMesh` and `ModelDiffer.IsEqual` are proved against:
    which entries a scan writes and in what order, which block decides a
    mesh comparison, when a comparison answers true, and how a scene report
    is laid out. */
module DiffProperties {
  import opened SceneData
  import opened Comparison

  // ---------------------------------------------------------------------
  // Per-vertex scans
  // ---------------------------------------------------------------------

  /** The indices below n at which the two arrays differ, in increasing
      order: an independent description of the vertices a scan reports. */
  function Mismatches<T(==)>(es: seq<T>, ts: seq<T>, n: nat): (m: seq<nat>)
    requires n <= |es| && n <= |ts|
    ensures forall j :: 0 <= j < |m| ==> m[j] < n && es[m[j]] != ts[m[j]]
    ensures forall j, j' :: 0 <= j < j' < |m| ==> m[j] < m[j']
  {
    if n == 0 then []
    else Mismatches(es, ts, n - 1) + (if es[n - 1] != ts[n - 1] then [n - 1] else [])
  }

  /** Every differing index below n is among the mismatches. */
  lemma {:induction false} MismatchesComplete<T>(es: seq<T>, ts: seq<T>, n: nat, i: nat)
    requires n <= |es| && n <= |ts| && i < n && es[i] != ts[i]
    ensures i in Mismatches(es, ts, n)
  {
    if i < n - 1 {
      MismatchesComplete(es, ts, n - 1, i);
    }
  }

  /** A scan writes one entry per differing vertex, in vertex order: its j-th
      entry is made from the values at the j-th differing index. */
  lemma {:induction false} ScanFollowsMismatches<T>(es: seq<T>, ts: seq<T>, n: nat, entry: (T, T) -> Diff)
    requires n <= |es| && n <= |ts|
    ensures |Scan(es, ts, n, entry)| == |Mismatches(es, ts, n)|
    ensures forall j :: 0 <= j < |Mismatches(es, ts, n)| ==>
              Scan(es, ts, n, entry)[j] == entry(es[Mismatches(es, ts, n)[j]], ts[Mismatches(es, ts, n)[j]])
  {
    if n > 0 {
      ScanFollowsMismatches(es, ts, n - 1, entry);
      var r, m := Scan(es, ts, n - 1, entry), Mismatches(es, ts, n - 1);
      if es[n - 1] != ts[n - 1] {
        assert Scan(es, ts, n, entry) == r + [entry(es[n - 1], ts[n - 1])];
        assert Mismatches(es, ts, n) == m + [n - 1];
      } else {
        assert Scan(es, ts, n, entry) == r;
        assert Mismatches(es, ts, n) == m;
      }
    }
  }

  /** A scan with exactly one differing vertex writes exactly one entry,
      for that vertex. */
  lemma {:induction false} ScanSingleMismatch<T>(es: seq<T>, ts: seq<T>, n: nat, entry: (T, T) -> Diff, i: nat)
    requires n <= |es| && n <= |ts| && i < n
    requires es[i] != ts[i]
    requires forall i' :: 0 <= i' < n && i' != i ==> es[i'] == ts[i']
    ensures Scan(es, ts, n, entry) == [entry(es[i], ts[i])]
  {
    if n == i + 1 {
      ScanEmptyIff(es, ts, i, entry);
    } else {
      ScanSingleMismatch(es, ts, n - 1, entry, i);
    }
  }

  /** The tangent-frame scan writes one entry per differing tangent and one
      per differing bitangent, all with the tangents message. */
  lemma {:induction false} TangentScanCounts(et: seq<Vec3>, tt: seq<Vec3>, eb: seq<Vec3>, tb: seq<Vec3>, n: nat)
    requires n <= |et| && n <= |tt| && n <= |eb| && n <= |tb|
    ensures |TangentScan(et, tt, eb, tb, n)| == |Mismatches(et, tt, n)| + |Mismatches(eb, tb, n)|
    ensures forall d <- TangentScan(et, tt, eb, tb, n) :: d.TangentNotEqual?
  {
    if n > 0 {
      TangentScanCounts(et, tt, eb, tb, n - 1);
      var r := TangentScan(et, tt, eb, tb, n - 1);
      var p := TangentPair(et, tt, eb, tb, n - 1);
      assert TangentScan(et, tt, eb, tb, n) == r + p;
      assert forall d <- p :: d.TangentNotEqual?;
    }
  }

  /** The tangent-frame entries of vertex i come before those of every later
      vertex: the scan up to n extends the scan up to every i below it. */
  lemma {:induction false} TangentScanExtends(et: seq<Vec3>, tt: seq<Vec3>, eb: seq<Vec3>, tb: seq<Vec3>, i: nat, n: nat)
    requires i <= n <= |et| && n <= |tt| && n <= |eb| && n <= |tb|
    ensures TangentScan(et, tt, eb, tb, i) <= TangentScan(et, tt, eb, tb, n)
    decreases n - i
  {
    if i < n {
      TangentScanExtends(et, tt, eb, tb, i, n - 1);
      assert TangentScan(et, tt, eb, tb, n) == TangentScan(et, tt, eb, tb, n - 1) + TangentPair(et, tt, eb, tb, n - 1);
    }
  }

  // ---------------------------------------------------------------------
  // Attribute blocks
  // ---------------------------------------------------------------------

  /** Every entry an attribute block writes is an attribute entry: never a
      name, count or free-text entry. */
  lemma BlockEntriesAreAttributeEntries(e: Mesh, t: Mesh, ch: Channel)
    requires BlockReady(e, t, ch)
    ensures forall d <- BlockEntries(e, t, ch) :: AttributeEntry(d)
  {
    if e.Has(ch) == t.Has(ch) {
      ChannelScanAttributeEntries(e, t, ch);
    }
  }

  /** The per-vertex walk of a block writes only attribute entries. */
  lemma ChannelScanAttributeEntries(e: Mesh, t: Mesh, ch: Channel)
    requires BlockReady(e, t, ch) && e.Has(ch) == t.Has(ch)
    ensures forall d <- ChannelScan(e, t, ch, e.numVertices) :: AttributeEntry(d)
  {
    var n := e.numVertices;
    match ch
    case Positions =>
      ScanFollowsMismatches(Values(e.vertices), Values(t.vertices), n, VertexEntry);
    case Normals =>
      ScanFollowsMismatches(Values(e.normals), Values(t.normals), n, NormalEntry);
    case ColorSet(a) =>
      ScanFollowsMismatches(Values(ColorSlot(e, a)), Values(ColorSlot(t, a)), n, ColorEntry);
    case TextureCoordSet(a) =>
      ScanFollowsMismatches(Values(CoordSlot(e, a)), Values(CoordSlot(t, a)), n, TextureCoordEntry);
    case TangentFrame =>
      TangentScanCounts(Values(e.tangents), Values(t.tangents), Values(e.bitangents), Values(t.bitangents), n);
  }

  /** The index of the first block from the k-th on that disagrees, or
      BlockCount when every one of them agrees: the reference for which
      block decides a mesh comparison. */
  function FirstDisagreement(e: Mesh, t: Mesh, k: nat): (r: nat)
    ensures k <= r || r == BlockCount
    ensures r <= BlockCount
    ensures forall i :: k <= i < r ==> Agrees(e, t, Block(i))
    ensures r < BlockCount ==> !Agrees(e, t, Block(r))
    decreases BlockCount - k
  {
    if k >= BlockCount then BlockCount
    else if !Agrees(e, t, Block(k)) then k
    else FirstDisagreement(e, t, k + 1)
  }

  /** The attribute blocks from the k-th on stop at the first block that
      disagrees, whose entries are the outcome; when every block agrees the
      outcome is a pass. */
  lemma {:induction false} FirstFailureFromDecided(e: Mesh, t: Mesh, k: nat)
    requires e.Valid() && t.Valid() && e.numVertices == t.numVertices && DefinedFrom(e, t, k)
    ensures FirstDisagreement(e, t, k) < BlockCount ==>
              FirstFailureFrom(e, t, k) == Some(BlockEntries(e, t, Block(FirstDisagreement(e, t, k))))
    ensures FirstDisagreement(e, t, k) == BlockCount ==> FirstFailureFrom(e, t, k) == None
    decreases BlockCount - k
  {
    if k < BlockCount {
      if Agrees(e, t, Block(k)) {
        PassBlock(e, t, k);
        FirstFailureFromDecided(e, t, k + 1);
      } else {
        FailBlock(e, t, k);
      }
    }
  }

  /** The blocks from the k-th on all pass exactly when each of them agrees. */
  lemma FirstFailureFromPasses(e: Mesh, t: Mesh, k: nat)
    requires e.Valid() && t.Valid() && e.numVertices == t.numVertices && DefinedFrom(e, t, k)
    ensures FirstFailureFrom(e, t, k).None? <==> forall j :: k <= j < BlockCount ==> Agrees(e, t, Block(j))
  {
    FirstFailureFromDecided(e, t, k);
  }

  /** A failing outcome holds at least one entry, and only attribute
      entries. */
  lemma FirstFailureFromEntries(e: Mesh, t: Mesh, k: nat)
    requires e.Valid() && t.Valid() && e.numVertices == t.numVertices && DefinedFrom(e, t, k)
    requires FirstFailureFrom(e, t, k).Some?
    ensures FirstFailureFrom(e, t, k).value != []
    ensures forall d <- FirstFailureFrom(e, t, k).value :: AttributeEntry(d)
  {
    FirstFailureFromDecided(e, t, k);
    var j := FirstDisagreement(e, t, k);
    if j < BlockCount {
      BlockReadyAt(e, t, k, j);
      BlockEntriesAreAttributeEntries(e, t, Block(j));
    }
  }

  /** A block reached with every earlier block agreeing can be read. */
  lemma {:induction false} BlockReadyAt(e: Mesh, t: Mesh, k: nat, j: nat)
    requires e.Valid() && t.Valid() && e.numVertices == t.numVertices && DefinedFrom(e, t, k)
    requires k <= j < BlockCount
    requires forall i :: k <= i < j ==> Agrees(e, t, Block(i))
    ensures DefinedFrom(e, t, j) && BlockReady(e, t, Block(j))
    decreases j - k
  {
    if k < j {
      PassBlock(e, t, k);
      BlockReadyAt(e, t, k + 1, j);
    }
  }

  /** If every block before the k-th agrees and the k-th does not, the k-th
      decides the outcome of the whole attribute pipeline. */
  lemma FirstFailureAt(e: Mesh, t: Mesh, k: nat)
    requires e.Valid() && t.Valid() && e.numVertices == t.numVertices && DefinedFrom(e, t, 0)
    requires k < BlockCount
    requires forall j :: 0 <= j < k ==> Agrees(e, t, Block(j))
    requires !Agrees(e, t, Block(k))
    ensures FirstFailureFrom(e, t, 0) == Some(BlockEntries(e, t, Block(k)))
  {
    FirstFailureFromDecided(e, t, 0);
    var r := FirstDisagreement(e, t, 0);
    assert r <= k;
    assert r < BlockCount ==> !Agrees(e, t, Block(r));
    assert r == k;
  }

  // ---------------------------------------------------------------------
  // Mesh comparison
  // ---------------------------------------------------------------------

  /** The reference meaning of "the attributes match", channel by channel:
      positions, normals and every colour and texture-coordinate slot are
      identical (present in both with equal values, or absent in both), and
      the tangent frame, which counts as present only when both its arrays
      are, is identical whenever it is present. */
  predicate SameAttributes(e: Mesh, t: Mesh)
    requires e.Valid() && t.Valid()
  {
    && e.vertices == t.vertices
    && e.normals == t.normals
    && (forall a :: 0 <= a < MaxColorSets ==> e.colors[a] == t.colors[a])
    && (forall a :: 0 <= a < MaxTextureCoords ==> e.textureCoords[a] == t.textureCoords[a])
    && e.HasTangentsAndBitangents() == t.HasTangentsAndBitangents()
    && (e.HasTangentsAndBitangents() ==> e.tangents == t.tangents && e.bitangents == t.bitangents)
  }

  /** Every block agrees exactly when the attributes match channel by
      channel. */
  lemma AllBlocksAgreeIffSame(e: Mesh, t: Mesh)
    requires e.Valid() && t.Valid()
    ensures (forall j :: 0 <= j < BlockCount ==> Agrees(e, t, Block(j))) <==> SameAttributes(e, t)
  {
    if forall j :: 0 <= j < BlockCount ==> Agrees(e, t, Block(j)) {
      assert Agrees(e, t, Block(0)) && Agrees(e, t, Block(1)) && Agrees(e, t, Block(BlockCount - 1));
      forall a | 0 <= a < MaxColorSets
        ensures e.colors[a] == t.colors[a]
      {
        assert Block(2 + a) == ColorSet(a);
        ColorSetAgrees(e, t, a);
      }
      forall a | 0 <= a < MaxTextureCoords
        ensures e.textureCoords[a] == t.textureCoords[a]
      {
        assert Block(2 + MaxColorSets + a) == TextureCoordSet(a);
        TextureCoordSetAgrees(e, t, a);
      }
    }
    if SameAttributes(e, t) {
      forall j | 0 <= j < BlockCount
        ensures Agrees(e, t, Block(j))
      {
        match Block(j)
        case Positions =>
        case Normals =>
        case ColorSet(a) =>
          ColorSetAgrees(e, t, a);
        case TextureCoordSet(a) =>
          TextureCoordSetAgrees(e, t, a);
        case TangentFrame =>
      }
    }
  }

  /** Comparing a mesh pointer with itself answers true and reports nothing;
      comparing a null pointer with another pointer answers false and
      reports nothing. */
  lemma MeshShortCircuits(e: Mesh?, t: Mesh?)
    requires Comparable(e, t)
    ensures e == t ==> MeshComparison(e, t) == Verdict([], true)
    ensures e != t && (e == null || t == null) ==> MeshComparison(e, t) == Verdict([], false)
  {
  }

  /** A differing vertex count is reported after the name entry and ends the
      comparison with false: no attribute block runs. */
  lemma VertexCountMismatchStops(e: Mesh, t: Mesh)
    requires e != t && e.numVertices != t.numVertices
    ensures Comparable(e, t)
    ensures MeshComparison(e, t) == Verdict(NameEntries(e, t) + [VertexCountNotEqual(e.numVertices, t.numVertices)], false)
  {
  }

  /** Two distinct meshes with the same vertex count compare equal exactly
      when their attributes match channel by channel; a differing name does
      not change the answer. */
  lemma MeshEqualIffSameAttributes(e: Mesh, t: Mesh)
    requires e != t && e.numVertices == t.numVertices && Comparable(e, t)
    ensures MeshComparison(e, t).equal <==> SameAttributes(e, t)
  {
    FirstFailureFromPasses(e, t, 0);
    AllBlocksAgreeIffSame(e, t);
  }

  /** Between two non-null meshes, the comparison answers false exactly when
      it reports something other than a name difference. */
  lemma MeshEqualIffOnlyNameEntries(e: Mesh, t: Mesh)
    requires Comparable(e, t)
    ensures MeshComparison(e, t).equal <==> forall d <- MeshComparison(e, t).entries :: d.NameNotEqual?
  {
    if e != t && e.numVertices == t.numVertices {
      var outcome := FirstFailureFrom(e, t, 0);
      if outcome.Some? {
        FirstFailureFromEntries(e, t, 0);
        var d := outcome.value[0];
        assert AttributeEntry(d);
        assert d in MeshComparison(e, t).entries;
      }
    } else if e != t {
      assert VertexCountNotEqual(e.numVertices, t.numVertices) in MeshComparison(e, t).entries;
    }
  }

  /** The comparison of two meshes writes at most one name entry, first, and
      never a blank entry, so the report keeps all it is given. */
  lemma MeshEntriesShape(e: Mesh?, t: Mesh?)
    requires Comparable(e, t)
    ensures forall d <- MeshComparison(e, t).entries :: !Blank(d) && !d.MeshCountNotEqual?
    ensures forall j :: 0 < j < |MeshComparison(e, t).entries| ==> !MeshComparison(e, t).entries[j].NameNotEqual?
  {
    if e != t && e != null && t != null && e.numVertices == t.numVertices {
      var outcome := FirstFailureFrom(e, t, 0);
      if outcome.Some? {
        FirstFailureFromEntries(e, t, 0);
        var r := MeshComparison(e, t).entries;
        assert r == NameEntries(e, t) + outcome.value;
        forall j | 0 < j < |r|
          ensures !r[j].NameNotEqual?
        {
          if j >= |NameEntries(e, t)| {
            assert r[j] in outcome.value;
          }
        }
      }
    }
  }

  /** A presence mismatch in a block reached with every earlier block
      agreeing is reported with exactly that block's presence message, after
      the name entry, and ends the comparison with false. */
  lemma PresenceMismatchStops(e: Mesh, t: Mesh, k: nat)
    requires e != t && e.numVertices == t.numVertices && Comparable(e, t)
    requires k < BlockCount && e.Has(Block(k)) != t.Has(Block(k))
    requires forall j :: 0 <= j < k ==> Agrees(e, t, Block(j))
    ensures MeshComparison(e, t) == Verdict(NameEntries(e, t) + [PresenceDiff(Block(k))], false)
  {
    FirstFailureAt(e, t, k);
  }

  /** Two meshes whose attributes match except for one differing normal
      compare unequal, and the report holds the name entry, if any, and then
      exactly one normal entry for that vertex. */
  lemma SingleNormalMismatch(e: Mesh, t: Mesh, i: nat)
    requires e != t && e.Valid() && t.Valid() && e.numVertices == t.numVertices
    requires e.vertices.Some? && e.vertices == t.vertices
    requires e.normals.Some? && t.normals.Some? && i < e.numVertices
    requires e.normals.value[i] != t.normals.value[i]
    requires forall i' :: 0 <= i' < e.numVertices && i' != i ==> e.normals.value[i'] == t.normals.value[i']
    ensures Comparable(e, t)
    ensures MeshComparison(e, t)
              == Verdict(NameEntries(e, t) + [NormalNotEqual(e.normals.value[i], t.normals.value[i])], false)
  {
    assert Agrees(e, t, Block(0));
    assert Readable(e, t, Block(1)) && !Agrees(e, t, Block(1));
    assert DefinedFrom(e, t, 1);
    assert DefinedFrom(e, t, 0);
    FirstFailureAt(e, t, 1);
    ScanSingleMismatch(e.normals.value, t.normals.value, e.numVertices, NormalEntry, i);
  }

  // ---------------------------------------------------------------------
  // Scene comparison
  // ---------------------------------------------------------------------

  /** The reports before the j-th come first among those before the k-th:
      joined reports keep their order. */
  lemma {:induction false} JoinedExtends(reports: seq<seq<Diff>>, j: nat, k: nat)
    requires j <= k <= |reports|
    ensures Joined(reports, j) <= Joined(reports, k)
    decreases k - j
  {
    if j < k {
      JoinedExtends(reports, j, k - 1);
      assert Joined(reports, k) == Joined(reports, k - 1) + reports[k - 1];
    }
  }

  /** The first k reports join to nothing exactly when each of them is
      empty. */
  lemma {:induction false} JoinedEmptyIff(reports: seq<seq<Diff>>, k: nat)
    requires k <= |reports|
    ensures Joined(reports, k) == [] <==> forall i :: 0 <= i < k ==> reports[i] == []
  {
    if k > 0 {
      JoinedEmptyIff(reports, k - 1);
      assert |Joined(reports, k)| == |Joined(reports, k - 1)| + |reports[k - 1]|;
    }
  }

  /** The i-th report sits right after the reports before it. */
  lemma JoinedAt(reports: seq<seq<Diff>>, i: nat)
    requires i < |reports|
    ensures Joined(reports, i) + reports[i] <= Joined(reports, |reports|)
  {
    JoinedExtends(reports, i + 1, |reports|);
  }

  /** Comparing a scene pointer with itself, or a null pointer with another
      pointer, reports nothing. */
  lemma SceneShortCircuits(e: Scene?, t: Scene?)
    requires e == t || e == null || t == null
    ensures SceneComparable(e, t) && SceneEntries(e, t) == []
  {
  }

  /** Between two distinct scenes, a differing mesh count is reported first,
      and the comparisons of the mesh pairs follow it. */
  lemma SceneCountEntryFirst(e: Scene, t: Scene)
    requires e != t && SceneComparable(e, t) && |e.meshes| != |t.meshes|
    ensures SceneEntries(e, t) == [MeshCountNotEqual(|e.meshes|, |t.meshes|)] + Joined(MeshReports(e, t), |e.meshes|)
  {
  }

  /** The report of a scene comparison is empty exactly when the scenes are
      the same pointer, or one is null, or they have the same mesh count and
      no mesh comparison reports anything. */
  lemma SceneEntriesEmptyIff(e: Scene?, t: Scene?)
    requires SceneComparable(e, t)
    ensures SceneEntries(e, t) == [] <==>
              e == t || e == null || t == null ||
              (|e.meshes| == |t.meshes| &&
               forall i :: 0 <= i < |e.meshes| ==> MeshComparison(e.meshes[i], t.meshes[i]).entries == [])
  {
    if e != t && e != null && t != null {
      var reports := MeshReports(e, t);
      JoinedEmptyIff(reports, |e.meshes|);
      assert forall i :: 0 <= i < |e.meshes| ==> reports[i] == MeshComparison(e.meshes[i], t.meshes[i]).entries;
    }
  }

  lemma PrefixAfter<T>(a: seq<T>, q: seq<T>, p: seq<T>)
    requires q <= p
    ensures a + q <= a + p
  {
    assert a + p == (a + q) + p[|q|..];
  }

  /** The entries of the i-th mesh pair sit in the scene report right after
      the count entry, if any, and those of the pairs before it. */
  lemma ScenePairEntriesAt(e: Scene, t: Scene, i: nat)
    requires e != t && SceneComparable(e, t) && i < |e.meshes|
    ensures CountEntries(e, t) + Joined(MeshReports(e, t), i) + MeshComparison(e.meshes[i], t.meshes[i]).entries
              <= SceneEntries(e, t)
  {
    var reports := MeshReports(e, t);
    JoinedAt(reports, i);
    assert reports[i] == MeshComparison(e.meshes[i], t.meshes[i]).entries;
    PrefixAfter(CountEntries(e, t), Joined(reports, i) + reports[i], Joined(reports, |reports|));
    Concat(CountEntries(e, t), Joined(reports, i), reports[i]);
  }
}
