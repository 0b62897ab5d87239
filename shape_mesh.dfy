/**
 * The freeform shape-light mesh of Light2D: the feathered contour
 * (UpdateFeatheredShapeLightMesh) and the assembly of interior and feather
 * tessellations into one mesh (UpdateShapeLightMesh). Vector arithmetic and the
 * LibTessDotNet tessellator are parameters: the model keeps the cyclic indexing,
 * the skip rule, the wiring of the quads and colours and the index offsets.
 */
module ShapeMesh {
  import opened Values

  /** A LibTessDotNet contour vertex: a position and the colour carried as its data. */
  datatype ContourVertex = ContourVertex(position: Vec2, data: Color)

  /** What a tessellator produces: its vertices (with their data) and triangle indices. */
  datatype TessResult = TessResult(vertices: seq<ContourVertex>, elements: seq<int>)

  /**
   * The floating-point geometry of the feather ring, as oracles:
   * shortEdge(a, b) is `(b - a).magnitude < 0.001f`;
   * bisectorPoint(pp, cp, np, feathering) is `cp + vn * feathering` for the negated,
   * normalised bisector vn of the edge normals at cp, or None when that bisector
   * has zero magnitude.
   */
  datatype Geometry = Geometry(
    shortEdge: (Vec2, Vec2) -> bool,
    bisectorPoint: (Vec2, Vec2, Vec2, Float) -> Option<Vec2>)

  /** A Unity mesh as this code fills it: positions, colours, the volume channel in the tangents, triangles. */
  datatype MeshData = MeshData(vertices: seq<Vec3>, colors: seq<Color>, tangents: seq<Vec4>, indices: seq<int>)

  const EmptyMesh := MeshData([], [], [], [])

  /** The cyclic predecessor `h` of vertex i in a contour of n points. */
  function Prev(i: nat, n: nat): (h: nat)
    requires i < n
    ensures h < n
  {
    if i == 0 then n - 1 else i - 1
  }

  /** The cyclic successor `j` of vertex i in a contour of n points: its predecessor is i. */
  function Next(i: nat, n: nat): (j: nat)
    requires i < n
    ensures j < n && Prev(j, n) == i
  {
    if i + 1 < n then i + 1 else 0
  }

  /** The successor is `(i + 1) % n`, as the contour walk computes it. */
  lemma NextIsModulo(i: nat, n: nat)
    requires i < n
    ensures Next(i, n) == (i + 1) % n
  {
    if i + 1 == n {
      assert (i + 1) % n == 0;
    }
  }

  /**
   * The feather vertex contributed by contour point i: none when an adjacent edge
   * is too short or the bisector vanishes.
   */
  function FeatherAt(ps: seq<Vec2>, i: nat, geo: Geometry, feathering: Float): Option<Vec2>
    requires i < |ps|
  {
    var pp, cp, np := ps[Prev(i, |ps|)], ps[i], ps[Next(i, |ps|)];
    if geo.shortEdge(pp, cp) || geo.shortEdge(cp, np) then None
    else geo.bisectorPoint(pp, cp, np, feathering)
  }

  /** The feather vertices of the first n contour points, in contour order, skipped ones left out. */
  function FeatheredPrefix(ps: seq<Vec2>, n: nat, geo: Geometry, feathering: Float): (r: seq<Vec2>)
    requires n <= |ps|
    ensures |r| <= n
  {
    if n == 0 then []
    else
      var rest := FeatheredPrefix(ps, n - 1, geo, feathering);
      match FeatherAt(ps, n - 1, geo, feathering)
      case Some(p) => rest + [p]
      case None => rest
  }

  /** The feathered prefix has one vertex per point exactly when no point of the prefix is skipped. */
  lemma {:induction false} FeatheredPrefixComplete(ps: seq<Vec2>, n: nat, geo: Geometry, feathering: Float)
    requires n <= |ps|
    ensures |FeatheredPrefix(ps, n, geo, feathering)| == n <==> forall i :: 0 <= i < n ==> FeatherAt(ps, i, geo, feathering).Some?
  {
    if n > 0 {
      FeatheredPrefixComplete(ps, n - 1, geo, feathering);
    }
  }

  /** The feathered contour of a whole contour. */
  function Feathered(ps: seq<Vec2>, geo: Geometry, feathering: Float): seq<Vec2> {
    FeatheredPrefix(ps, |ps|, geo, feathering)
  }

  /**
   * When no point is skipped, the feathered contour matches the input point for
   * point: entry i is the feather vertex of point i, derived from its cyclic
   * neighbours.
   */
  lemma {:induction false} FeatheredPointwise(ps: seq<Vec2>, n: nat, geo: Geometry, feathering: Float)
    requires n <= |ps|
    requires forall i :: 0 <= i < n ==> FeatherAt(ps, i, geo, feathering).Some?
    ensures |FeatheredPrefix(ps, n, geo, feathering)| == n
    ensures forall i :: 0 <= i < n ==> FeatheredPrefix(ps, n, geo, feathering)[i] == FeatherAt(ps, i, geo, feathering).value
  {
    if n > 0 {
      FeatheredPointwise(ps, n - 1, geo, feathering);
    }
  }

  /** The contour handed to the interior tessellator: the path itself, in the interior colour. */
  function InteriorContour(path: seq<Vec2>, interior: Color): (c: seq<ContourVertex>)
    ensures |c| == |path|
    ensures forall i :: 0 <= i < |c| ==> c[i] == ContourVertex(path[i], interior)
  {
    seq(|path|, i requires 0 <= i < |path| => ContourVertex(path[i], interior))
  }

  /**
   * The feather quad of edge i: path point i and its feather vertex, then the feather
   * vertex and path point of the next point, wrapping the last edge back to point 0.
   */
  function FeatherQuad(path: seq<Vec2>, feathered: seq<Vec2>, i: nat, interior: Color): seq<ContourVertex>
    requires |feathered| == |path| && i < |path|
  {
    var j := if i + 1 < |path| then i + 1 else 0;
    var feather := Transparent(interior);
    [ContourVertex(path[i], interior), ContourVertex(feathered[i], feather),
     ContourVertex(feathered[j], feather), ContourVertex(path[j], interior)]
  }

  /** The contours handed to the feather tessellator, one quad per edge of the closed path. */
  function FeatherContours(path: seq<Vec2>, feathered: seq<Vec2>, interior: Color): (cs: seq<seq<ContourVertex>>)
    requires |feathered| == |path|
    ensures |cs| == |path|
  {
    seq(|path|, i requires 0 <= i < |path| => FeatherQuad(path, feathered, i, interior))
  }

  /**
   * Every feather quad has the ring's colours: its path corners carry the interior
   * colour and its feather corners the same colour with alpha 0.
   */
  lemma FeatherQuadColours(path: seq<Vec2>, feathered: seq<Vec2>, interior: Color, i: nat)
    requires |feathered| == |path| && i < |path|
    ensures forall v :: v in FeatherContours(path, feathered, interior)[i] ==> v.data == interior || v.data == Transparent(interior)
    ensures FeatherContours(path, feathered, interior)[i][1].data.a == Num(0.0)
    ensures FeatherContours(path, feathered, interior)[i][2].data.a == Num(0.0)
  {
    assert FeatherContours(path, feathered, interior)[i] == FeatherQuad(path, feathered, i, interior);
  }

  /**
   * InterpCustomVertexData: a vertex the tessellator creates takes the data of its
   * first contributor. The tessellator is a parameter, so this function only
   * documents the callback; what the mesh proofs assume of the tessellator is
   * KeepsInputData.
   */
  function InterpCustomVertexData(position: Vec2, data: seq<Color>, weights: seq<Float>): (c: Color)
    requires |data| > 0
    ensures c in data
  {
    data[0]
  }

  /** A mesh vertex from a tessellator vertex: `new Vector3(X, Y, 0)`. */
  function MeshVertex(v: ContourVertex): Vec3 {
    Vec3(v.position.x, v.position.y, Num(0.0))
  }

  /** The volume channel of one vertex: `new Vector4(1, 1, 1, volumeOpacity)`. */
  function VolumeTangent(volumeOpacity: Float): Vec4 {
    Vec4(Num(1.0), Num(1.0), Num(1.0), volumeOpacity)
  }

  function Vertices(t: TessResult): (vs: seq<Vec3>)
    ensures |vs| == |t.vertices|
  {
    seq(|t.vertices|, i requires 0 <= i < |t.vertices| => MeshVertex(t.vertices[i]))
  }

  function Colors(t: TessResult): (cs: seq<Color>)
    ensures |cs| == |t.vertices|
  {
    seq(|t.vertices|, i requires 0 <= i < |t.vertices| => t.vertices[i].data)
  }

  /** indicesF: the feather tessellation's indices moved past the interior's vertices. */
  function Offset(elements: seq<int>, shift: int): (r: seq<int>)
    ensures |r| == |elements|
  {
    seq(|elements|, k requires 0 <= k < |elements| => elements[k] + shift)
  }

  /** The final mesh: interior then feather vertices, colours and indices; the volume channel on every vertex. */
  function CombineMeshes(ti: TessResult, tf: TessResult, volumeOpacity: Float): MeshData {
    var colors := Colors(ti) + Colors(tf);
    MeshData(
      Vertices(ti) + Vertices(tf),
      colors,
      seq(|colors|, i => VolumeTangent(volumeOpacity)),
      ti.elements + Offset(tf.elements, |ti.vertices|))
  }

  /** Every index of a tessellation names one of its own vertices. */
  predicate IndicesInRange(t: TessResult) {
    forall k :: 0 <= k < |t.elements| ==> 0 <= t.elements[k] < |t.vertices|
  }

  /**
   * The combined mesh is well formed and draws the same triangles as the two
   * tessellations: one colour and one volume value per vertex, every index in
   * range, and each index naming the vertex its own tessellation meant.
   */
  lemma CombinedTrianglesPreserved(ti: TessResult, tf: TessResult, volumeOpacity: Float)
    requires IndicesInRange(ti) && IndicesInRange(tf)
    ensures var m := CombineMeshes(ti, tf, volumeOpacity);
      && |m.colors| == |m.vertices| == |m.tangents|
      && |m.indices| == |ti.elements| + |tf.elements|
      && (forall k :: 0 <= k < |m.indices| ==> 0 <= m.indices[k] < |m.vertices|)
      && (forall k :: 0 <= k < |ti.elements| ==>
            m.vertices[m.indices[k]] == MeshVertex(ti.vertices[ti.elements[k]])
            && m.colors[m.indices[k]] == ti.vertices[ti.elements[k]].data)
      && (forall k :: 0 <= k < |tf.elements| ==>
            m.vertices[m.indices[|ti.elements| + k]] == MeshVertex(tf.vertices[tf.elements[k]])
            && m.colors[m.indices[|ti.elements| + k]] == tf.vertices[tf.elements[k]].data)
  {
    var m := CombineMeshes(ti, tf, volumeOpacity);
    var n := |ti.vertices|;
    forall k | 0 <= k < |tf.elements|
      ensures m.indices[|ti.elements| + k] == tf.elements[k] + n
    {
      assert m.indices[|ti.elements| + k] == Offset(tf.elements, n)[k];
    }
    forall k | 0 <= k < |m.indices|
      ensures 0 <= m.indices[k] < |m.vertices|
    {
      if k >= |ti.elements| {
        assert m.indices[k] == tf.elements[k - |ti.elements|] + n;
      }
    }
  }

  /** The data of every vertex a tessellator emits comes from one of its input contours. */
  predicate KeepsInputData(t: TessResult, contours: seq<seq<ContourVertex>>) {
    forall v :: v in t.vertices ==> exists c, w :: c in contours && w in c && w.data == v.data
  }

  /**
   * With a tessellator that only emits input data (InterpCustomVertexData passes the
   * first contributor's colour on), the interior of the mesh is entirely in the
   * light's colour, and the feather ring only in that colour and its transparent
   * variant; the volume channel is volumeOpacity everywhere.
   */
  lemma MeshColours(path: seq<Vec2>, feathered: seq<Vec2>, interior: Color, ti: TessResult, tf: TessResult, volumeOpacity: Float)
    requires |feathered| == |path|
    requires KeepsInputData(ti, [InteriorContour(path, interior)])
    requires KeepsInputData(tf, FeatherContours(path, feathered, interior))
    ensures var m := CombineMeshes(ti, tf, volumeOpacity);
      && (forall i :: 0 <= i < |ti.vertices| ==> m.colors[i] == interior)
      && (forall i :: |ti.vertices| <= i < |m.colors| ==> m.colors[i] == interior || m.colors[i] == Transparent(interior))
      && (forall i :: 0 <= i < |m.tangents| ==> m.tangents[i].w == volumeOpacity)
  {
    var m := CombineMeshes(ti, tf, volumeOpacity);
    var n := |ti.vertices|;
    var ci, cf := Colors(ti), Colors(tf);
    assert m.colors == ci + cf;
    forall i | 0 <= i < n ensures m.colors[i] == interior {
      assert m.colors[i] == ci[i] == ti.vertices[i].data;
      InteriorVertexColour(path, interior, ti, ti.vertices[i]);
    }
    forall i | n <= i < |m.colors| ensures m.colors[i] == interior || m.colors[i] == Transparent(interior) {
      assert m.colors[i] == cf[i - n] == tf.vertices[i - n].data;
      FeatherVertexColour(path, feathered, interior, tf, tf.vertices[i - n]);
    }
  }

  /** A vertex the interior's tessellation emits is in the light's colour. */
  lemma InteriorVertexColour(path: seq<Vec2>, interior: Color, ti: TessResult, v: ContourVertex)
    requires KeepsInputData(ti, [InteriorContour(path, interior)])
    requires v in ti.vertices
    ensures v.data == interior
  {
    var c, w :| c in [InteriorContour(path, interior)] && w in c && w.data == v.data;
  }

  /** A vertex the feather ring's tessellation emits is in the light's colour or its transparent variant. */
  lemma FeatherVertexColour(path: seq<Vec2>, feathered: seq<Vec2>, interior: Color, tf: TessResult, v: ContourVertex)
    requires |feathered| == |path|
    requires KeepsInputData(tf, FeatherContours(path, feathered, interior))
    requires v in tf.vertices
    ensures v.data == interior || v.data == Transparent(interior)
  {
    var fcs := FeatherContours(path, feathered, interior);
    var c, w :| c in fcs && w in c && w.data == v.data;
    var q :| 0 <= q < |fcs| && fcs[q] == c;
    FeatherQuadColours(path, feathered, interior, q);
  }

  /** The contour positions of a shape path: `X = m_ShapePath[i].x, Y = m_ShapePath[i].y`. */
  function Path2D(path: seq<Vec3>): (ps: seq<Vec2>)
    ensures |ps| == |path|
    ensures forall i :: 0 <= i < |path| ==> ps[i] == Vec2(path[i].x, path[i].y)
  {
    seq(|path|, i requires 0 <= i < |path| => Vec2(path[i].x, path[i].y))
  }

  /** The positions of a contour. */
  function Positions(cs: seq<ContourVertex>): (ps: seq<Vec2>)
    ensures |ps| == |cs|
    ensures forall i :: 0 <= i < |cs| ==> ps[i] == cs[i].position
  {
    seq(|cs|, i requires 0 <= i < |cs| => cs[i].position)
  }

  /** How a freeform mesh build ends: with a mesh, or with the exception it throws. */
  datatype FreeformBuild = Assembled(mesh: MeshData) | Failed(error: Exception)

  /** A tessellator run on a set of contours, as LibTessDotNet's Tess with EvenOdd winding and triangles. */
  type Tessellator = seq<seq<ContourVertex>> -> TessResult

  /**
   * The result of UpdateShapeLightMesh for a shape path: a null path throws on its
   * Length, an empty one on `m_ShapePath[pointCount - 1]`, and one with a skipped
   * feather vertex on the too-short feathered list; otherwise the interior and the
   * feather ring are tessellated and combined.
   */
  function FreeformMesh(path: Option<seq<Vec3>>, color: Color, feathering: Float, volumeOpacity: Float,
                        geo: Geometry, tessellate: Tessellator): FreeformBuild
  {
    match path
    case None => Failed(NullReference)
    case Some(p) =>
      if |p| == 0 then Failed(IndexOutOfRange)
      else
        var ps := Path2D(p);
        var feathered := Feathered(ps, geo, feathering);
        if |feathered| < |ps| then Failed(ArgumentOutOfRange)
        else
          var ti := tessellate([InteriorContour(ps, color)]);
          var tf := tessellate(FeatherContours(ps, feathered, color));
          Assembled(CombineMeshes(ti, tf, volumeOpacity))
  }

  /**
   * The freeform mesh builds exactly when the path exists, is not empty, and no
   * point of it is skipped by the feathering (no short edge next to it, no
   * vanishing bisector); a built mesh then has one feather vertex per path point,
   * placed from that point's cyclic neighbours.
   */
  lemma FreeformMeshBuildsIff(path: Option<seq<Vec3>>, color: Color, feathering: Float, volumeOpacity: Float,
                              geo: Geometry, tessellate: Tessellator)
    ensures FreeformMesh(path, color, feathering, volumeOpacity, geo, tessellate).Assembled? <==>
      && path.Some? && |path.value| > 0
      && forall i :: 0 <= i < |path.value| ==> FeatherAt(Path2D(path.value), i, geo, feathering).Some?
    ensures FreeformMesh(path, color, feathering, volumeOpacity, geo, tessellate).Assembled? ==>
      var ps := Path2D(path.value);
      var feathered := Feathered(ps, geo, feathering);
      |feathered| == |ps| && forall i :: 0 <= i < |ps| ==> feathered[i] == FeatherAt(ps, i, geo, feathering).value
  {
    if path.Some? && |path.value| > 0 {
      var ps := Path2D(path.value);
      FeatheredPrefixComplete(ps, |ps|, geo, feathering);
      if forall i :: 0 <= i < |ps| ==> FeatherAt(ps, i, geo, feathering).Some? {
        FeatheredPointwise(ps, |ps|, geo, feathering);
      }
    }
  }

  /** Geometry in which an edge from a point to itself is short, as `magnitude < 0.001f` says of a zero vector. */
  ghost predicate ZeroEdgesShort(geo: Geometry) {
    forall p :: geo.shortEdge(p, p)
  }

  /**
   * A one-point path is its own neighbour on both sides, so with such geometry its
   * only point is skipped and the freeform mesh throws on the empty feathered list.
   */
  lemma OnePointPathNeverBuilds(path: Option<seq<Vec3>>, color: Color, feathering: Float, volumeOpacity: Float,
                                geo: Geometry, tessellate: Tessellator)
    requires ZeroEdgesShort(geo) && path.Some? && |path.value| == 1
    ensures FreeformMesh(path, color, feathering, volumeOpacity, geo, tessellate) == Failed(ArgumentOutOfRange)
  {
    var ps := Path2D(path.value);
    assert geo.shortEdge(ps[0], ps[0]);
    assert FeatherAt(ps, 0, geo, feathering).None?;
    assert Feathered(ps, geo, feathering) == [];
  }
}
