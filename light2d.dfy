/**
 * The Light2D component: its designer-facing fields and their per-frame
 * snapshots, the static registry of lights by category (m_Lights and
 * m_CullingGroup), the static material slots, and the operations that keep them
 * in step. Everything Unity or LibTessDotNet computes is an oracle in Engine.
 */
module Lights {
  import opened Values
  import opened ListOps
  import opened PathHash
  import opened ShapeMesh
  import opened Culling
  import opened Materials

  /** UnityEngine.Bounds, as the mesh generators return it. */
  datatype Bounds = Bounds(center: Vec3, extents: Vec3)

  /** Which mesh generator GetMesh runs, and with which arguments. */
  datatype MeshCall =
    | ParametricMesh(radius: Float, offset: Vec2, sides: int, feathering: Float, color: Color, volumeOpacity: Float)
    | SpriteMesh(sprite: Option<Sprite>, color: Color, volumeOpacity: Float, scale: Float)
    | FreeformShapeMesh(color: Color)

  /** What m_Mesh holds: a fresh empty mesh, a LightUtility mesh, or the tessellated freeform mesh. */
  datatype MeshContent = Blank | Generated(call: MeshCall) | Tessellated(data: MeshData)

  /** The state a mesh build leaves: how it ended, m_Mesh's content and m_LocalBounds. */
  datatype MeshBuild = MeshBuild(outcome: Outcome, content: MeshContent, bounds: Bounds)

  /**
   * The engine as the light code sees it: the feather geometry, the tessellator,
   * Vector3.GetHashCode, the bounds LightUtility computes, and the shaders
   * Shader.Find can find.
   */
  datatype Engine = Engine(
    geometry: Geometry,
    tessellate: Tessellator,
    pointHash: Vec3 -> U32,
    generatorBounds: MeshCall -> Bounds,
    vertexBounds: seq<Vec3> -> Bounds,
    shaders: set<string>)

  /**
   * A CullingGroup: its target camera and the sphere array last handed to it, each
   * slot the bounding sphere of the light it names or the default sphere (None).
   */
  datatype CullingGroupState = CullingGroupState(targetCamera: Option<Camera>, spheres: seq<Option<Light2D>>)

  /** The m_ShapeLightOrder of each light of a bucket. */
  function Orders(bucket: seq<Light2D>): (keys: seq<int>)
    reads bucket`shapeLightOrder
    ensures |keys| == |bucket|
    ensures forall k :: 0 <= k < |bucket| ==> keys[k] == bucket[k].shapeLightOrder
    decreases |bucket|
  {
    if |bucket| == 0 then [] else Orders(bucket[..|bucket| - 1]) + [bucket[|bucket| - 1].shapeLightOrder]
  }

  /** The liveness (Unity's `light != null`) of each entry. */
  function AliveMask(lights: seq<Light2D>): (alive: seq<bool>)
    reads lights`isAlive
    ensures |alive| == |lights|
    ensures forall k :: 0 <= k < |lights| ==> alive[k] == lights[k].isAlive
    decreases |lights|
  {
    if |lights| == 0 then [] else AliveMask(lights[..|lights| - 1]) + [lights[|lights| - 1].isAlive]
  }

  /** The m_LightCullingIndex of each entry. */
  function CullingIndices(lights: seq<Light2D>): (ix: seq<int>)
    reads lights`lightCullingIndex
    ensures |ix| == |lights|
    ensures forall k :: 0 <= k < |lights| ==> ix[k] == lights[k].lightCullingIndex
    decreases |lights|
  {
    if |lights| == 0 then [] else CullingIndices(lights[..|lights| - 1]) + [lights[|lights| - 1].lightCullingIndex]
  }

  /**
   * After the first n entries of the walk, every entry holds the culling index
   * AssignedIndex gives it, starting from the indices the entries had before.
   */
  predicate IndicesAssigned(flat: seq<Light2D>, alive: seq<bool>, initial: seq<int>, n: nat)
    requires |alive| == |flat| == |initial| && n <= |flat|
    reads flat`lightCullingIndex
  {
    forall k {:trigger AssignedIndex(flat, alive, flat[k], n, initial[k])} :: 0 <= k < |flat| ==>
      flat[k].lightCullingIndex == AssignedIndex(flat, alive, flat[k], n, initial[k])
  }

  /**
   * Every live entry holds the number of live entries before it as its culling
   * index, and the sphere slot of that number holds its sphere.
   */
  predicate LiveLightsNumbered(flat: seq<Light2D>, spheres: seq<Option<Light2D>>)
    reads flat`isAlive, flat`lightCullingIndex
  {
    forall k :: 0 <= k < |flat| && flat[k].isAlive ==>
      && flat[k].lightCullingIndex == AliveBefore(AliveMask(flat), k)
      && 0 <= flat[k].lightCullingIndex < |spheres|
      && spheres[flat[k].lightCullingIndex] == Some(flat[k])
  }

  /**
   * When no light is listed twice, the numbering SetupCulling leaves gives each live
   * light the count of live lights before it, and its sphere sits in that slot.
   */
  lemma DistinctLightsNumbered(flat: seq<Light2D>, spheres: seq<Option<Light2D>>, initial: seq<int>)
    requires |initial| == |flat| && NoDuplicates(flat)
    requires spheres == Spheres(flat, AliveMask(flat))
    requires IndicesAssigned(flat, AliveMask(flat), initial, |flat|)
    ensures LiveLightsNumbered(flat, spheres)
  {
    var alive := AliveMask(flat);
    forall k | 0 <= k < |flat| && flat[k].isAlive
      ensures flat[k].lightCullingIndex == AliveBefore(alive, k)
      ensures spheres[AliveBefore(alive, k)] == Some(flat[k])
    {
      AssignedIndexOfLive(flat, alive, k, |flat|, initial[k]);
    }
  }

  /** Feather quad k of the ring built so far is the quad of edge k, to point k + 1. */
  predicate QuadAt(contours: seq<seq<ContourVertex>>, k: nat, ps: seq<Vec2>, feathered: seq<Vec2>, interior: Color)
  {
    k < |contours| && k + 1 < |ps| && k + 1 < |feathered| &&
    contours[k] == [ContourVertex(ps[k], interior), ContourVertex(feathered[k], Transparent(interior)),
                    ContourVertex(feathered[k + 1], Transparent(interior)), ContourVertex(ps[k + 1], interior)]
  }

  /** InsertLight's effect on a bucket: the light goes in front of the first light whose order is not smaller. */
  function InsertByOrder(bucket: seq<Light2D>, light: Light2D): (r: seq<Light2D>)
    reads bucket`shapeLightOrder, light`shapeLightOrder
    ensures |r| == |bucket| + 1
  {
    InsertAt(bucket, FirstNotLess(Orders(bucket), light.shapeLightOrder), light)
  }

  /** `m_Lights[from].Remove(light); ...; InsertLight(light)` into bucket `to`. */
  function Relocated(bs: seq<seq<Light2D>>, from: nat, to: nat, light: Light2D): (r: seq<seq<Light2D>>)
    requires from < |bs| && to < |bs|
    reads bs[to]`shapeLightOrder, light`shapeLightOrder
    ensures |r| == |bs|
  {
    var removed := bs[from := RemoveFirst(bs[from], light)];
    RemoveFirstSubset(bs[from], light);
    removed[to := InsertByOrder(removed[to], light)]
  }

  /**
   * The buckets after LateUpdate re-applies the projection type and the operation
   * of a light of bucket op: a changed type moves it to the end of its bucket, a
   * changed operation then re-inserts it there by order.
   */
  function Reapplied(bs: seq<seq<Light2D>>, op: nat, light: Light2D, typeChanged: bool, operationChanged: bool)
    : (r: seq<seq<Light2D>>)
    requires op < |bs|
    reads (if typeChanged then MoveToEnd(bs[op], light) else bs[op])`shapeLightOrder, light`shapeLightOrder
    ensures |r| == |bs|
  {
    var afterType := if typeChanged then bs[op := MoveToEnd(bs[op], light)] else bs;
    if operationChanged then Relocated(afterType, op, op, light) else afterType
  }

  /** RegisterLight's effect: insert the light into bucket op unless it is already there. */
  function RegisterInto(bs: seq<seq<Light2D>>, op: nat, light: Light2D): (r: seq<seq<Light2D>>)
    requires op < |bs|
    reads bs[op]`shapeLightOrder, light`shapeLightOrder
    ensures |r| == |bs|
  {
    if light in bs[op] then bs else bs[op := InsertByOrder(bs[op], light)]
  }

  /** The lights of a bucket in InsertAt's terms: inserting into the bucket inserts into its orders. */
  lemma {:induction false} OrdersInsertAt(bucket: seq<Light2D>, i: nat, light: Light2D)
    requires i <= |bucket|
    ensures Orders(InsertAt(bucket, i, light)) == InsertAt(Orders(bucket), i, light.shapeLightOrder)
  {
    var a, b := Orders(InsertAt(bucket, i, light)), InsertAt(Orders(bucket), i, light.shapeLightOrder);
    assert |a| == |b|;
    forall k | 0 <= k < |a| ensures a[k] == b[k] {
    }
  }

  /**
   * InsertLight keeps a bucket sorted by order and adds exactly one entry, the
   * light itself; every light before it has a strictly smaller order, every light
   * after it an order at least as large, so it precedes lights of equal order.
   */
  lemma InsertByOrderSorted(bucket: seq<Light2D>, light: Light2D)
    requires Sorted(Orders(bucket))
    ensures var r := InsertByOrder(bucket, light);
      var i := FirstNotLess(Orders(bucket), light.shapeLightOrder);
      && Sorted(Orders(r))
      && multiset(r) == multiset(bucket) + multiset{light}
      && r[i] == light
      && (forall k :: 0 <= k < i ==> r[k].shapeLightOrder < light.shapeLightOrder)
      && (forall k :: i < k < |r| ==> light.shapeLightOrder <= r[k].shapeLightOrder)
  {
    InsertByOrderKeepsSorted(bucket, light);
    InsertByOrderAddsLight(bucket, light);
    InsertByOrderPlacesLight(bucket, light);
  }

  /** The sortedness half of InsertByOrderSorted. */
  lemma InsertByOrderKeepsSorted(bucket: seq<Light2D>, light: Light2D)
    requires Sorted(Orders(bucket))
    ensures Sorted(Orders(InsertByOrder(bucket, light)))
  {
    var keys := Orders(bucket);
    var i := FirstNotLess(keys, light.shapeLightOrder);
    InsertSorted(keys, light.shapeLightOrder);
    OrdersInsertAt(bucket, i, light);
  }

  /** InsertByOrder adds one copy of the light and nothing else. */
  lemma InsertByOrderAddsLight(bucket: seq<Light2D>, light: Light2D)
    ensures multiset(InsertByOrder(bucket, light)) == multiset(bucket) + multiset{light}
  {
    var i := FirstNotLess(Orders(bucket), light.shapeLightOrder);
    assert bucket == bucket[..i] + bucket[i..];
  }

  /** The light lands at the scan's stop index, behind smaller orders and in front of the rest. */
  lemma InsertByOrderPlacesLight(bucket: seq<Light2D>, light: Light2D)
    requires Sorted(Orders(bucket))
    ensures var r := InsertByOrder(bucket, light);
      var i := FirstNotLess(Orders(bucket), light.shapeLightOrder);
      && r[i] == light
      && (forall k :: 0 <= k < i ==> r[k].shapeLightOrder < light.shapeLightOrder)
      && (forall k :: i < k < |r| ==> light.shapeLightOrder <= r[k].shapeLightOrder)
  {
    var keys := Orders(bucket);
    var i := FirstNotLess(keys, light.shapeLightOrder);
    var r := InsertByOrder(bucket, light);
    forall k | i < k < |r| ensures light.shapeLightOrder <= r[k].shapeLightOrder {
      assert r[k] == bucket[k - 1];
      assert light.shapeLightOrder <= keys[i] <= keys[k - 1];
    }
  }

  /**
   * The property setter path: with the light once in its old bucket and absent from
   * the new one, a change of operation moves it, leaving it nowhere in the old
   * bucket, exactly once in the new one, and every other bucket as it was.
   */
  lemma RelocatedMovesLight(bs: seq<seq<Light2D>>, from: nat, to: nat, light: Light2D)
    requires from < |bs| && to < |bs| && from != to
    requires multiset(bs[from])[light] <= 1 && light !in bs[to]
    ensures var r := Relocated(bs, from, to, light);
      && light !in r[from]
      && multiset(r[to])[light] == 1
      && (forall k :: 0 <= k < |bs| && k != from && k != to ==> r[k] == bs[k])
  {
    RemoveFirstSingleOccurrence(bs[from], light);
    var r := Relocated(bs, from, to, light);
    assert r[from] == RemoveFirst(bs[from], light);
    var i := FirstNotLess(Orders(bs[to]), light.shapeLightOrder);
    assert r[to] == bs[to][..i] + [light] + bs[to][i..];
    assert bs[to] == bs[to][..i] + bs[to][i..];
  }

  /**
   * The LateUpdate path after m_LightOperation was changed directly: the call passes
   * the new operation, so the removal targets the new bucket, and the light stays
   * in its old bucket while it is inserted into the new one.
   */
  lemma DirectEditLeavesStaleEntry(bs: seq<seq<Light2D>>, previous: nat, current: nat, light: Light2D)
    requires previous < |bs| && current < |bs| && previous != current
    requires light in bs[previous]
    ensures var r := Relocated(bs, current, current, light);
      light in r[previous] && light in r[current]
  {
    var r := Relocated(bs, current, current, light);
    var removed := RemoveFirst(bs[current], light);
    RemoveFirstSubset(bs[current], light);
    assert r[current] == InsertByOrder(removed, light);
    assert r[current][FirstNotLess(Orders(removed), light.shapeLightOrder)] == light;
  }

  /**
   * Registration never duplicates: a light at most once in its bucket is present
   * exactly once afterwards, nothing else moves, and registering again is a no-op.
   */
  lemma RegisterIntoOnce(bs: seq<seq<Light2D>>, op: nat, light: Light2D)
    requires op < |bs| && multiset(bs[op])[light] <= 1
    ensures var r := RegisterInto(bs, op, light);
      && multiset(r[op])[light] == 1
      && (forall k :: 0 <= k < |bs| && k != op ==> r[k] == bs[k])
      && RegisterInto(r, op, light) == r
  {
    var r := RegisterInto(bs, op, light);
    if light !in bs[op] {
      var i := FirstNotLess(Orders(bs[op]), light.shapeLightOrder);
      assert r[op] == bs[op][..i] + [light] + bs[op][i..];
      assert bs[op] == bs[op][..i] + bs[op][i..];
      assert r[op][i] == light;
    }
  }

  /** Removing a light that is at most once in each bucket leaves it in none. */
  lemma RemovedEverywhere(old_: seq<seq<Light2D>>, new_: seq<seq<Light2D>>, light: Light2D)
    requires |old_| == |new_|
    requires forall k :: 0 <= k < |old_| ==> new_[k] == RemoveFirst(old_[k], light)
    requires forall k :: 0 <= k < |old_| ==> multiset(old_[k])[light] <= 1
    ensures forall k :: 0 <= k < |new_| ==> light !in new_[k]
  {
    forall k | 0 <= k < |new_| ensures light !in new_[k] {
      RemoveFirstSingleOccurrence(old_[k], light);
    }
  }

  /**
   * The mesh generator selection of GetMesh, and the build it leaves behind: a
   * LightUtility generator always completes with its bounds; the freeform mesh may
   * throw, leaving the mesh and bounds as they were.
   */
  function BuildMesh(call: MeshCall, base: MeshContent, bounds: Bounds, path: Option<seq<Vec3>>,
                     feathering: Float, volumeOpacity: Float, engine: Engine): MeshBuild
  {
    match call
    case FreeformShapeMesh(color) =>
      (match FreeformMesh(path, color, feathering, volumeOpacity, engine.geometry, engine.tessellate)
       case Failed(e) => MeshBuild(Threw(e), base, bounds)
       case Assembled(m) => MeshBuild(Completed, Tessellated(m), engine.vertexBounds(m.vertices)))
    case _ => MeshBuild(Completed, Generated(call), engine.generatorBounds(call))
  }

  /** A light component. */
  class Light2D {
    /** Unity's `light != null`: false once the object is destroyed. */
    var isAlive: bool
    var isActiveAndEnabled: bool

    var lightProjectionType: LightProjectionType
    var previousLightProjectionType: LightProjectionType
    var lightColor: Color
    var previousLightColor: Color
    var lightCookieSprite: Option<Sprite>
    var previousLightCookieSprite: Option<Sprite>
    var lightVolumeOpacity: Float
    var previousLightVolumeOpacity: Float
    var lightOperation: LightOperation
    var previousLightOperation: LightOperation

    /** Sorting layer ids this light applies to; None for a null array. */
    var applyToSortingLayers: Option<seq<int>>

    var shapeLightCookieStyle: CookieStyle
    var shapeLightParametricShape: ParametricShape
    var shapeLightFeathering: Float
    var previousShapeLightFeathering: Float
    var shapeLightParametricSides: int
    var previousShapeLightParametricSides: int
    var shapeLightOffset: Vec2
    var previousShapeLightOffset: Vec2
    var shapeLightOrder: int
    var previousShapeLightOrder: int
    var shapeLightOverlapMode: LightOverlapMode

    var lightCullingIndex: int
    var localBounds: Bounds
    /** m_ShapePath; None for a null array. */
    var shapePath: Option<seq<Vec3>>
    var prevShapePathHash: U32
    /** m_Mesh; None while it is null. */
    var mesh: Option<MeshContent>

    /** A light with the field initialisers of the component. */
    constructor()
      ensures isAlive && !isActiveAndEnabled
      ensures lightProjectionType == Shape && previousLightProjectionType == Shape
      ensures lightColor == White && previousLightColor == White
      ensures lightCookieSprite == None && previousLightCookieSprite == None
      ensures lightVolumeOpacity == Num(0.0) && previousLightVolumeOpacity == Num(0.0)
      ensures lightOperation == 0 && previousLightOperation == 0
      ensures applyToSortingLayers == Some([0])
      ensures shapeLightCookieStyle == Parametric && shapeLightParametricShape == Circle
      ensures shapeLightFeathering == Num(0.5) && previousShapeLightFeathering == Num(-1.0)
      ensures shapeLightParametricSides == 128 && previousShapeLightParametricSides == -1
      ensures shapeLightOffset == Vec2Zero && previousShapeLightOffset == Vec2Zero
      ensures shapeLightOrder == 0 && previousShapeLightOrder == 0
      ensures shapeLightOverlapMode == Additive
      ensures lightCullingIndex == -1
      ensures shapePath == None && prevShapePathHash == 0 && mesh == None
    {
      isAlive := true;
      isActiveAndEnabled := false;
      lightProjectionType := Shape;
      previousLightProjectionType := Shape;
      lightColor := White;
      previousLightColor := White;
      lightCookieSprite := None;
      previousLightCookieSprite := None;
      lightVolumeOpacity := Num(0.0);
      previousLightVolumeOpacity := Num(0.0);
      lightOperation := 0;
      previousLightOperation := 0;
      applyToSortingLayers := Some([0]);
      shapeLightCookieStyle := Parametric;
      shapeLightParametricShape := Circle;
      shapeLightFeathering := Num(0.5);
      previousShapeLightFeathering := Num(-1.0);
      shapeLightParametricSides := 128;
      previousShapeLightParametricSides := -1;
      shapeLightOffset := Vec2Zero;
      previousShapeLightOffset := Vec2Zero;
      shapeLightOrder := 0;
      previousShapeLightOrder := 0;
      shapeLightOverlapMode := Additive;
      lightCullingIndex := -1;
      localBounds := Bounds(Vec3(Num(0.0), Num(0.0), Num(0.0)), Vec3(Num(0.0), Num(0.0), Num(0.0)));
      shapePath := None;
      prevShapePathHash := 0;
      mesh := None;
    }

    /** SetupLightArray: one empty list per Light2DType. */
    static method SetupLightArray() returns (lists: seq<seq<Light2D>>)
      ensures |lists| == LightTypeCount
      ensures forall i :: 0 <= i < |lists| ==> lists[i] == []
    {
      lists := [];
      var i := 0;
      while i < LightTypeCount
        invariant 0 <= i <= LightTypeCount && |lists| == i
        invariant forall k :: 0 <= k < i ==> lists[k] == []
      {
        lists := lists + [[]];
        i := i + 1;
      }
    }

    // ---------------------------------------------------------------- registry

    /** InsertLight: a sorted insert of this light into its operation's bucket; the parameter is not used. */
    method InsertLight(reg: LightRegistry, light: Light2D)
      requires reg.Valid()
      modifies reg`buckets
      ensures reg.Valid()
      ensures reg.buckets == old(reg.buckets[lightOperation := InsertByOrder(reg.buckets[lightOperation], this)])
    {
      var index := 0;
      var lightType := lightOperation;
      var bucket := reg.buckets[lightType];
      while index < |bucket| && shapeLightOrder > bucket[index].shapeLightOrder
        invariant 0 <= index <= |bucket|
        invariant forall k :: 0 <= k < index ==> Orders(bucket)[k] < shapeLightOrder
      {
        index := index + 1;
      }
      FirstNotLessUnique(Orders(bucket), shapeLightOrder, index);
      reg.buckets := reg.buckets[lightType := InsertAt(bucket, index, this)];
    }

    /**
     * UpdateLightOperation: on a change against the previous operation, remove the
     * light from the bucket of m_LightOperation, take the new operation, and insert
     * into the new bucket.
     */
    method UpdateLightOperation(reg: LightRegistry, operation: LightOperation)
      requires reg.Valid()
      modifies reg`buckets, this`lightOperation, this`previousLightOperation
      ensures reg.Valid()
      ensures operation == old(previousLightOperation) ==>
        reg.buckets == old(reg.buckets) && lightOperation == old(lightOperation) && previousLightOperation == old(previousLightOperation)
      ensures operation != old(previousLightOperation) ==>
        && lightOperation == operation && previousLightOperation == operation
        && reg.buckets == Relocated(old(reg.buckets), old(lightOperation), operation, this)
      // the order and mesh state is left as it was
      ensures unchanged(this`previousShapeLightOrder, this`previousLightColor, this`previousShapeLightFeathering,
        this`previousShapeLightOffset, this`previousShapeLightParametricSides, this`previousLightVolumeOpacity,
        this`prevShapePathHash, this`mesh, this`localBounds, this`shapeLightOrder, this`lightColor,
        this`shapeLightFeathering, this`shapeLightOffset, this`shapeLightParametricSides, this`lightVolumeOpacity, this`shapePath)
    {
      if operation != previousLightOperation {
        var removed := reg.buckets[lightOperation := RemoveFirst(reg.buckets[lightOperation], this)];
        RemoveFirstSubset(reg.buckets[lightOperation], this);
        ghost var inserted := InsertByOrder(removed[operation], this);
        reg.buckets := removed;
        lightOperation := operation;
        previousLightOperation := lightOperation;
        InsertLight(reg, this);
        assert reg.buckets == removed[operation := inserted];
      }
    }

    /**
     * UpdateLightProjectionType: on a change against the previous type, remove the
     * light from its bucket and add it again at the end; both fields take the type.
     */
    method UpdateLightProjectionType(reg: LightRegistry, projection: LightProjectionType)
      requires reg.Valid()
      modifies reg`buckets, this`lightProjectionType, this`previousLightProjectionType
      ensures reg.Valid()
      ensures projection == old(previousLightProjectionType) ==>
        && reg.buckets == old(reg.buckets)
        && lightProjectionType == old(lightProjectionType) && previousLightProjectionType == old(previousLightProjectionType)
      ensures projection != old(previousLightProjectionType) ==>
        && lightProjectionType == projection && previousLightProjectionType == projection
        && reg.buckets == old(reg.buckets)[lightOperation := MoveToEnd(old(reg.buckets)[lightOperation], this)]
      // the order and mesh state is left as it was
      ensures unchanged(this`previousShapeLightOrder, this`previousLightColor, this`previousShapeLightFeathering,
        this`previousShapeLightOffset, this`previousShapeLightParametricSides, this`previousLightVolumeOpacity,
        this`prevShapePathHash, this`mesh, this`localBounds, this`shapeLightOrder, this`lightColor,
        this`shapeLightFeathering, this`shapeLightOffset, this`shapeLightParametricSides, this`lightVolumeOpacity, this`shapePath)
    {
      if projection != previousLightProjectionType {
        var index := lightOperation;
        if this in reg.buckets[index] {
          reg.buckets := reg.buckets[index := RemoveFirst(reg.buckets[index], this)];
        }
        index := lightOperation;
        if this !in reg.buckets[index] {
          reg.buckets := reg.buckets[index := reg.buckets[index] + [this]];
        }
        lightProjectionType := projection;
        previousLightProjectionType := lightProjectionType;
      }
    }

    /** RegisterLight: insert into the operation's bucket unless already there. */
    method RegisterLight(reg: LightRegistry)
      requires reg.Valid()
      modifies reg`buckets
      ensures reg.Valid()
      ensures reg.buckets == RegisterInto(old(reg.buckets), lightOperation, this)
    {
      var index := lightOperation;
      if this !in reg.buckets[index] {
        InsertLight(reg, this);
      }
    }

    /** OnEnable: create the culling group when there is none, then register. */
    method OnEnable(reg: LightRegistry)
      requires reg.Valid()
      modifies reg`buckets, reg`cullingGroup
      ensures reg.Valid()
      ensures reg.cullingGroup == if old(reg.cullingGroup).None? then Some(CullingGroupState(None, [])) else old(reg.cullingGroup)
      ensures reg.buckets == RegisterInto(old(reg.buckets), lightOperation, this)
    {
      if reg.cullingGroup.None? {
        reg.cullingGroup := Some(CullingGroupState(None, []));
      }
      RegisterLight(reg);
    }

    /**
     * OnDisable: remove the light from every bucket; when no bucket has a light left,
     * dispose of the culling group. A light at most once in each bucket is then in
     * none.
     */
    method OnDisable(reg: LightRegistry)
      requires reg.Valid()
      modifies reg`buckets, reg`cullingGroup
      ensures reg.Valid()
      ensures forall k :: 0 <= k < LightTypeCount ==> reg.buckets[k] == RemoveFirst(old(reg.buckets)[k], this)
      ensures reg.cullingGroup ==
        if old(reg.cullingGroup).Some? && forall k :: 0 <= k < LightTypeCount ==> reg.buckets[k] == [] then None
        else old(reg.cullingGroup)
      ensures (forall k :: 0 <= k < LightTypeCount ==> multiset(old(reg.buckets)[k])[this] <= 1) ==>
        forall k :: 0 <= k < LightTypeCount ==> this !in reg.buckets[k]
    {
      var anyLightLeft := false;
      var i := 0;
      while i < |reg.buckets|
        invariant 0 <= i <= |reg.buckets| == LightTypeCount
        invariant forall k :: 0 <= k < i ==> reg.buckets[k] == RemoveFirst(old(reg.buckets)[k], this)
        invariant forall k :: i <= k < LightTypeCount ==> reg.buckets[k] == old(reg.buckets)[k]
        invariant anyLightLeft <==> exists k :: 0 <= k < i && |reg.buckets[k]| > 0
        invariant reg.cullingGroup == old(reg.cullingGroup)
      {
        if this in reg.buckets[i] {
          reg.buckets := reg.buckets[i := RemoveFirst(reg.buckets[i], this)];
        }
        if |reg.buckets[i]| > 0 {
          anyLightLeft := true;
        }
        i := i + 1;
      }
      if !anyLightLeft && reg.cullingGroup.Some? {
        reg.cullingGroup := None;
      }
      if forall k :: 0 <= k < LightTypeCount ==> multiset(old(reg.buckets)[k])[this] <= 1 {
        RemovedEverywhere(old(reg.buckets), reg.buckets, this);
      }
      RemoveFirstMultiset(old(reg.buckets)[PointBucket], this);
    }

    /** GetPointLights: the point bucket, which nothing in this component fills. */
    static function GetPointLights(reg: LightRegistry): (lights: seq<Light2D>)
      requires reg.Valid()
      reads reg
      ensures lights == []
    {
      reg.buckets[PointBucket]
    }

    /** GetShapeLights: the bucket of one operation. */
    static function GetShapeLights(reg: LightRegistry, operation: LightOperation): seq<Light2D>
      requires reg.Valid()
      reads reg
    {
      reg.buckets[operation]
    }

    // ---------------------------------------------------------------- culling

    /**
     * SetupCulling: without a culling group, nothing. Otherwise the group targets the
     * camera and gets one sphere slot per bucket entry; the live lights, in
     * bucket-major order, take consecutive culling indices from 0 and the slot of
     * the same number; dead entries are skipped and keep their index.
     */
    static method SetupCulling(reg: LightRegistry, camera: Camera)
      requires reg.Valid()
      modifies reg`cullingGroup, Flatten(reg.buckets)`lightCullingIndex
      ensures reg.Valid()
      ensures old(reg.cullingGroup).None? ==>
        reg.cullingGroup == None && CullingIndices(Flatten(reg.buckets)) == old(CullingIndices(Flatten(reg.buckets)))
      ensures old(reg.cullingGroup).Some? ==>
        var flat := Flatten(reg.buckets);
        && reg.cullingGroup == Some(CullingGroupState(Some(camera), Spheres(flat, AliveMask(flat))))
        && IndicesAssigned(flat, AliveMask(flat), old(CullingIndices(Flatten(reg.buckets))), |flat|)
      ensures old(reg.cullingGroup).Some? && NoDuplicates(Flatten(reg.buckets)) ==>
        LiveLightsNumbered(Flatten(reg.buckets), reg.cullingGroup.value.spheres)
    {
      if reg.cullingGroup.None? {
        return;
      }
      ghost var flat := Flatten(reg.buckets);
      ghost var alive := AliveMask(flat);
      ghost var initial := CullingIndices(flat);
      var totalLights := CountLights(reg.buckets);
      var boundingSpheres := new Option<Light2D>[totalLights](_ => None);
      NumberLights(reg.buckets, boundingSpheres, flat, alive, initial);
      reg.cullingGroup := Some(CullingGroupState(Some(camera), boundingSpheres[..]));
      assert Flatten(reg.buckets) == flat && AliveMask(flat) == alive;
      assert IndicesAssigned(flat, alive, initial, |flat|);
      if NoDuplicates(flat) {
        DistinctLightsNumbered(flat, boundingSpheres[..], initial);
      }
    }

    /** SetupCulling's first loop: the number of bucket entries. */
    static method CountLights(buckets: seq<seq<Light2D>>) returns (totalLights: nat)
      ensures totalLights == |Flatten(buckets)|
    {
      totalLights := 0;
      var t := 0;
      while t < |buckets|
        invariant 0 <= t <= |buckets|
        invariant totalLights == |Flatten(buckets[..t])|
      {
        FlattenStep(buckets, t);
        totalLights := totalLights + |buckets[t]|;
        t := t + 1;
      }
      assert buckets[..|buckets|] == buckets;
    }

    /**
     * SetupCulling's nested loops: walk the buckets in order; each live light takes
     * the next culling index and writes its sphere to the slot of that number.
     */
    static method NumberLights(buckets: seq<seq<Light2D>>, boundingSpheres: array<Option<Light2D>>,
                               ghost flat: seq<Light2D>, ghost alive: seq<bool>, ghost initial: seq<int>)
      requires flat == Flatten(buckets) && alive == AliveMask(flat) && initial == CullingIndices(flat)
      requires boundingSpheres.Length == |flat|
      requires forall i :: 0 <= i < boundingSpheres.Length ==> boundingSpheres[i] == None
      modifies boundingSpheres, flat`lightCullingIndex
      ensures boundingSpheres[..] == Spheres(flat, alive)
      ensures IndicesAssigned(flat, alive, initial, |flat|)
    {
      SpheresAfterNone(flat, alive);
      assert boundingSpheres[..] == SpheresAfter(flat, alive, 0);
      var lightCullingIndex := 0;
      ghost var pos := 0;
      var b := 0;
      while b < |buckets|
        invariant 0 <= b <= |buckets| && pos <= |flat|
        invariant pos == |Flatten(buckets[..b])|
        invariant lightCullingIndex == AliveBefore(alive, pos)
        invariant boundingSpheres[..] == SpheresAfter(flat, alive, pos)
        invariant IndicesAssigned(flat, alive, initial, pos)
      {
        var bucket := buckets[b];
        assert pos + |bucket| <= |flat| && forall j :: 0 <= j < |bucket| ==> flat[pos + j] == bucket[j] by {
          FlattenPrefix(buckets, b, |bucket|);
          forall j | 0 <= j < |bucket| ensures flat[pos + j] == bucket[j] {
            assert flat[..pos + |bucket|][pos + j] == (Flatten(buckets[..b]) + bucket[..|bucket|])[pos + j];
          }
        }
        lightCullingIndex := NumberBucket(bucket, boundingSpheres, lightCullingIndex, flat, alive, initial, pos);
        assert pos + |bucket| == |Flatten(buckets[..b + 1])| by {
          FlattenStep(buckets, b);
        }
        pos := pos + |bucket|;
        b := b + 1;
      }
      assert pos == |flat| by {
        assert buckets[..|buckets|] == buckets;
      }
    }

    /** The inner loop of SetupCulling: number the entries of one bucket, which start at position start of the walk. */
    static method NumberBucket(bucket: seq<Light2D>, boundingSpheres: array<Option<Light2D>>, lightCullingIndex: int,
                               ghost flat: seq<Light2D>, ghost alive: seq<bool>, ghost initial: seq<int>, ghost start: nat)
      returns (next: int)
      requires |alive| == |flat| == |initial| && start + |bucket| <= |flat|
      requires forall j :: 0 <= j < |bucket| ==> flat[start + j] == bucket[j]
      requires forall j :: 0 <= j < |bucket| ==> alive[start + j] == bucket[j].isAlive
      requires boundingSpheres.Length == |flat| && boundingSpheres[..] == SpheresAfter(flat, alive, start)
      requires lightCullingIndex == AliveBefore(alive, start) && IndicesAssigned(flat, alive, initial, start)
      modifies boundingSpheres, bucket`lightCullingIndex
      ensures next == AliveBefore(alive, start + |bucket|)
      ensures boundingSpheres[..] == SpheresAfter(flat, alive, start + |bucket|)
      ensures IndicesAssigned(flat, alive, initial, start + |bucket|)
    {
      next := lightCullingIndex;
      var j := 0;
      while j < |bucket|
        invariant 0 <= j <= |bucket|
        invariant next == AliveBefore(alive, start + j)
        invariant boundingSpheres[..] == SpheresAfter(flat, alive, start + j)
        invariant IndicesAssigned(flat, alive, initial, start + j)
      {
        var light := bucket[j];
        assert flat[start + j] == light;
        next := NumberEntry(light, boundingSpheres, next, flat, alive, initial, start + j);
        j := j + 1;
      }
    }

    /**
     * One step of the nested loops: a live light writes its sphere to the next slot
     * and takes that slot's number as its culling index; a dead one is skipped.
     */
    static method NumberEntry(light: Light2D, boundingSpheres: array<Option<Light2D>>, lightCullingIndex: int,
                              ghost flat: seq<Light2D>, ghost alive: seq<bool>, ghost initial: seq<int>, ghost pos: nat)
      returns (next: int)
      requires |alive| == |flat| == |initial| && pos < |flat| && flat[pos] == light && alive[pos] == light.isAlive
      requires boundingSpheres.Length == |flat| && boundingSpheres[..] == SpheresAfter(flat, alive, pos)
      requires lightCullingIndex == AliveBefore(alive, pos) && IndicesAssigned(flat, alive, initial, pos)
      modifies boundingSpheres, light`lightCullingIndex
      ensures next == AliveBefore(alive, pos + 1)
      ensures boundingSpheres[..] == SpheresAfter(flat, alive, pos + 1)
      ensures IndicesAssigned(flat, alive, initial, pos + 1)
    {
      ghost var before := boundingSpheres[..];
      SpheresAfterStep(flat, alive, pos);
      next := lightCullingIndex;
      if light.isAlive {
        boundingSpheres[lightCullingIndex] := Some(light);
        light.lightCullingIndex := lightCullingIndex;
        next := lightCullingIndex + 1;
        assert boundingSpheres[..] == before[AliveBefore(alive, pos) := Some(light)];
      }
      forall k | 0 <= k < |flat|
        ensures flat[k].lightCullingIndex == AssignedIndex(flat, alive, flat[k], pos + 1, initial[k])
      {
        if flat[k] != light {
          assert flat[k].lightCullingIndex == AssignedIndex(flat, alive, flat[k], pos, initial[k]);
        }
      }
    }

    /**
     * IsLightVisible: an active and enabled light the culling group reports
     * visible, or any active and enabled light while there is no group; in the
     * editor, the camera must also render its game object.
     */
    function IsLightVisible(reg: LightRegistry, camera: Camera, editor: bool,
                            groupReportsVisible: int -> bool, renderedByCamera: Camera -> bool): (visible: bool)
      reads this, reg
      ensures visible <==>
        && isActiveAndEnabled
        && (reg.cullingGroup.None? || groupReportsVisible(lightCullingIndex))
        && (editor ==> renderedByCamera(camera))
      // fail-open: without a culling group every active and enabled light is visible outside the editor
      ensures !editor && isActiveAndEnabled && reg.cullingGroup.None? ==> visible
    {
      var isVisible := (reg.cullingGroup.None? || groupReportsVisible(lightCullingIndex)) && isActiveAndEnabled;
      if editor then isVisible && renderedByCamera(camera) else isVisible
    }

    /** IsLitLayer: the layer is one of the light's sorting layers; a null array lights none. */
    function IsLitLayer(layer: int): (lit: bool)
      reads this
      ensures applyToSortingLayers.None? ==> !lit
      ensures applyToSortingLayers.Some? ==> (lit <==> exists i :: 0 <= i < |applyToSortingLayers.value| && applyToSortingLayers.value[i] == layer)
    {
      applyToSortingLayers != None && layer in applyToSortingLayers.value
    }

    // ---------------------------------------------------------------- change detection

    /** CheckForColorChange: per-channel `!=`, so a NaN channel on either side always reads as a change. */
    static method CheckForColorChange(i: Color, j: Color) returns (changed: bool, snapshot: Color)
      ensures snapshot == i
      ensures changed <==> i != j || HasNaN(i) || HasNaN(j)
    {
      changed := FloatNotEqual(i.r, j.r) || FloatNotEqual(i.g, j.g) || FloatNotEqual(i.b, j.b) || FloatNotEqual(i.a, j.a);
      snapshot := i;
    }

    /** CheckForVector2Change: per-component `!=`. */
    static method CheckForVector2Change(i: Vec2, j: Vec2) returns (changed: bool, snapshot: Vec2)
      ensures snapshot == i
      ensures changed <==> i != j || i.x.NaN? || i.y.NaN? || j.x.NaN? || j.y.NaN?
    {
      changed := FloatNotEqual(i.x, j.x) || FloatNotEqual(i.y, j.y);
      snapshot := i;
    }

    /** The identity CheckForSpriteChange compares: null, or the instance id. */
    static function SpriteIdentity(s: Option<Sprite>): Option<int> {
      match s
      case None => None
      case Some(sprite) => Some(sprite.instanceId)
    }

    /**
     * CheckForSpriteChange: both null is no change, one null is a change, and two
     * sprites differ when their instance ids do; the texture plays no part.
     */
    static method CheckForSpriteChange(i: Option<Sprite>, j: Option<Sprite>) returns (changed: bool, snapshot: Option<Sprite>)
      ensures snapshot == i
      ensures changed <==> SpriteIdentity(i) != SpriteIdentity(j)
      ensures i.Some? && j.Some? && i.value.instanceId == j.value.instanceId ==> !changed
    {
      changed := false;
      if i.None? != j.None? {
        changed := true;
      }
      if i.Some? && j.Some? {
        changed := i.value.instanceId != j.value.instanceId;
      }
      snapshot := i;
    }

    /** CheckForChange<int>: Comparer<int>.Default.Compare is non-zero. */
    static method CheckForChangeInt(a: int, b: int) returns (changed: bool, snapshot: int)
      ensures snapshot == a
      ensures changed <==> a != b
    {
      var compareResult := if a < b then -1 else if a > b then 1 else 0;
      snapshot := a;
      changed := compareResult != 0;
    }

    /** CheckForChange<float>: float.CompareTo, under which NaN equals NaN. */
    static method CheckForChangeFloat(a: Float, b: Float) returns (changed: bool, snapshot: Float)
      ensures snapshot == a
      ensures changed <==> a != b
    {
      var compareResult := FloatCompare(a, b);
      FloatCompareIsIdentity(a, b);
      snapshot := a;
      changed := compareResult != 0;
    }

    /** GetShapePathHash: 0 for a null path, otherwise the FNV fold over its points. */
    method GetShapePathHash(pointHash: Vec3 -> U32) returns (hashCode: U32)
      ensures hashCode == ShapePathHash(shapePath, pointHash)
    {
      hashCode := FnvOffset;
      if shapePath.Some? {
        var path := shapePath.value;
        var i := 0;
        while i < |path|
          invariant 0 <= i <= |path|
          invariant hashCode == Fold(path[..i], pointHash)
        {
          FoldAppend(path[..i], path[i], pointHash);
          assert path[..i + 1] == path[..i] + [path[i]];
          hashCode := Xor(MulPrime(hashCode), pointHash(path[i]));
          i := i + 1;
        }
        assert path[..|path|] == path;
      } else {
        hashCode := 0;
      }
    }

    /**
     * Whether LateUpdate's change detection asks for a mesh rebuild: the colour,
     * feathering, offset, side count or volume opacity differ from their snapshot
     * (a NaN colour or offset channel always counts as different), or, in the
     * editor, the shape-path hash differs from the stored one.
     */
    function MeshRebuildDue(editor: bool, pointHash: Vec3 -> U32): bool
      reads this`lightColor, this`previousLightColor, this`shapeLightFeathering, this`previousShapeLightFeathering,
        this`shapeLightOffset, this`previousShapeLightOffset, this`shapeLightParametricSides,
        this`previousShapeLightParametricSides, this`lightVolumeOpacity, this`previousLightVolumeOpacity,
        this`prevShapePathHash, this`shapePath
    {
      || lightColor != previousLightColor || HasNaN(lightColor) || HasNaN(previousLightColor)
      || shapeLightFeathering != previousShapeLightFeathering
      || shapeLightOffset != previousShapeLightOffset
      || shapeLightOffset.x.NaN? || shapeLightOffset.y.NaN? || previousShapeLightOffset.x.NaN? || previousShapeLightOffset.y.NaN?
      || shapeLightParametricSides != previousShapeLightParametricSides
      || lightVolumeOpacity != previousLightVolumeOpacity
      || (editor && prevShapePathHash != ShapePathHash(shapePath, pointHash))
    }

    /**
     * In the editor, a single-point edit of the shape path that changes that point's
     * hash always triggers a rebuild, whatever else is unchanged.
     */
    lemma PathEditTriggersRebuild(pointHash: Vec3 -> U32, before: seq<Vec3>, k: nat)
      requires shapePath.Some? && |before| == |shapePath.value| && k < |before|
      requires prevShapePathHash == ShapePathHash(Some(before), pointHash)
      requires forall i :: 0 <= i < |before| && i != k ==> before[i] == shapePath.value[i]
      requires pointHash(before[k]) != pointHash(shapePath.value[k])
      ensures MeshRebuildDue(true, pointHash)
    {
      SinglePointEditChangesHash(before, shapePath.value, k, pointHash);
    }

    // ---------------------------------------------------------------- mesh

    /** The generator GetMesh runs for the light's current settings. */
    function MeshRequest(): (call: MeshCall)
      reads this`lightProjectionType, this`shapeLightCookieStyle, this`shapeLightParametricShape, this`lightColor,
        this`shapeLightOffset, this`shapeLightParametricSides, this`shapeLightFeathering, this`lightVolumeOpacity,
        this`lightCookieSprite
      ensures call.FreeformShapeMesh? <==>
        lightProjectionType == Shape && shapeLightCookieStyle == Parametric && shapeLightParametricShape == Freeform
      ensures call.SpriteMesh? <==> lightProjectionType == Shape && shapeLightCookieStyle == SpriteCookie
    {
      match lightProjectionType
      case Shape =>
        (match shapeLightCookieStyle
         case Parametric =>
           if shapeLightParametricShape == Freeform then FreeformShapeMesh(lightColor)
           else ParametricMesh(Num(0.5), shapeLightOffset, shapeLightParametricSides, shapeLightFeathering, lightColor, lightVolumeOpacity)
         case SpriteCookie => SpriteMesh(lightCookieSprite, lightColor, lightVolumeOpacity, Num(1.0)))
      case Point => ParametricMesh(Num(1.412135), Vec2Zero, 4, Num(0.0), lightColor, lightVolumeOpacity)
    }

    /**
     * The arguments GetMesh hands a shape light's generator: a parametric shape of
     * radius 0.5 with the light's offset, side count, feathering, colour and volume
     * opacity; the cookie sprite at scale 1 with the colour and volume opacity; or
     * the freeform builder with the colour alone.
     */
    lemma ShapeMeshArguments()
      requires lightProjectionType == Shape
      ensures shapeLightCookieStyle == Parametric && shapeLightParametricShape == Circle ==>
        MeshRequest() == ParametricMesh(Num(0.5), shapeLightOffset, shapeLightParametricSides, shapeLightFeathering,
                                        lightColor, lightVolumeOpacity)
      ensures shapeLightCookieStyle == SpriteCookie ==>
        MeshRequest() == SpriteMesh(lightCookieSprite, lightColor, lightVolumeOpacity, Num(1.0))
      ensures shapeLightCookieStyle == Parametric && shapeLightParametricShape == Freeform ==>
        MeshRequest() == FreeformShapeMesh(lightColor)
    {
    }

    /**
     * A point light's mesh is a fixed four-sided parametric one of radius 1.412135
     * with no offset and no feathering: none of the shape settings, the cookie
     * sprite or the outer radius reach the generator, only the colour and the
     * volume opacity.
     */
    lemma PointMeshIgnoresShapeSettings(other: Light2D)
      requires lightProjectionType == Point && other.lightProjectionType == Point
      requires lightColor == other.lightColor && lightVolumeOpacity == other.lightVolumeOpacity
      ensures MeshRequest() == other.MeshRequest()
      ensures MeshRequest() == ParametricMesh(Num(1.412135), Vec2Zero, 4, Num(0.0), lightColor, lightVolumeOpacity)
    {
    }

    /**
     * UpdateFeatheredShapeLightMesh: walks the first contourPointCount contour
     * points with their cyclic neighbours and collects a feather vertex for each
     * point that is not skipped.
     */
    method UpdateFeatheredShapeLightMesh(contourPoints: seq<ContourVertex>, contourPointCount: int, geo: Geometry)
      returns (feathered: seq<Vec2>)
      requires contourPointCount <= |contourPoints|
      ensures feathered ==
        Feathered(Positions(contourPoints[..if contourPointCount < 0 then 0 else contourPointCount]), geo, shapeLightFeathering)
      ensures |feathered| <= |contourPoints|
    {
      ghost var ps := Positions(contourPoints[..if contourPointCount < 0 then 0 else contourPointCount]);
      feathered := [];
      var i := 0;
      while i < contourPointCount
        invariant 0 <= i <= |ps|
        invariant feathered == FeatheredPrefix(ps, i, geo, shapeLightFeathering)
      {
        var t := FeatherCandidate(contourPoints, contourPointCount, i, geo, shapeLightFeathering);
        if t.Some? {
          feathered := feathered + [t.value];
        }
        i := i + 1;
      }
    }

    /**
     * One turn of UpdateFeatheredShapeLightMesh's loop: the feather vertex of
     * contour point i from its cyclic neighbours, or None when the loop skips it.
     */
    static method FeatherCandidate(contourPoints: seq<ContourVertex>, contourPointCount: int, i: nat, geo: Geometry,
                                   feathering: Float) returns (t: Option<Vec2>)
      requires i < contourPointCount <= |contourPoints|
      ensures t == FeatherAt(Positions(contourPoints[..contourPointCount]), i, geo, feathering)
    {
      ghost var ps := Positions(contourPoints[..contourPointCount]);
      var h := if i == 0 then contourPointCount - 1 else i - 1;
      var j := (i + 1) % contourPointCount;
      NextIsModulo(i, |ps|);
      var pp := contourPoints[h].position;
      var cp := contourPoints[i].position;
      var np := contourPoints[j].position;
      assert pp == ps[Prev(i, |ps|)] && cp == ps[i] && np == ps[Next(i, |ps|)];
      t := None;
      if !(geo.shortEdge(pp, cp) || geo.shortEdge(cp, np)) {
        match geo.bisectorPoint(pp, cp, np, feathering)
        case Some(v) =>
          t := Some(v);
        case None =>
      }
    }

    /**
     * UpdateShapeLightMesh: builds the contour, the feathered contour, the feather
     * quads and the interior contour, tessellates both, and writes the combined mesh
     * and its bounds; or throws as FreeformMesh says, leaving both untouched (also
     * when m_Mesh is null, at its Clear).
     */
    method UpdateShapeLightMesh(color: Color, engine: Engine) returns (outcome: Outcome)
      modifies this`mesh, this`localBounds
      ensures match FreeformMesh(shapePath, color, shapeLightFeathering, lightVolumeOpacity, engine.geometry, engine.tessellate)
        case Failed(e) => outcome == Threw(e) && mesh == old(mesh) && localBounds == old(localBounds)
        case Assembled(m) =>
          if old(mesh).None? then outcome == Threw(NullReference) && mesh == old(mesh) && localBounds == old(localBounds)
          else outcome == Completed && mesh == Some(Tessellated(m)) && localBounds == engine.vertexBounds(m.vertices)
    {
      var meshInteriorColor := color;
      var meshFeatherColor := Transparent(color);
      if shapePath.None? {
        return Threw(NullReference);
      }
      var path := shapePath.value;
      var pointCount := |path|;
      var inputs := ContourInputs(path, meshFeatherColor);
      var feathered := UpdateFeatheredShapeLightMesh(inputs, pointCount, engine.geometry);
      assert inputs[..pointCount] == inputs;
      var featherContours, inputsI;
      outcome, featherContours, inputsI := FeatherRing(path, feathered, meshInteriorColor);
      if outcome.Threw? {
        return;
      }

      var tessI := engine.tessellate([inputsI]);
      var tessF := engine.tessellate(featherContours);
      var finalVertices := Vertices(tessI) + Vertices(tessF);
      var finalIndices := tessI.elements + Offset(tessF.elements, |tessI.vertices|);
      var finalColors := Colors(tessI) + Colors(tessF);
      var volumeColors := VolumeColors(|finalColors|, lightVolumeOpacity);

      if mesh.None? {
        return Threw(NullReference);
      }
      assert Positions(inputs[..pointCount]) == Path2D(path);
      ghost var data := CombineMeshes(tessI, tessF, lightVolumeOpacity);
      assert volumeColors == data.tangents;
      assert MeshData(finalVertices, finalColors, volumeColors, finalIndices) == data;
      mesh := Some(Tessellated(MeshData(finalVertices, finalColors, volumeColors, finalIndices)));
      localBounds := engine.vertexBounds(finalVertices);
    }

    /** UpdateShapeLightMesh's first loop: the path as a contour, every vertex in the feather colour. */
    static method ContourInputs(path: seq<Vec3>, featherColor: Color) returns (inputs: seq<ContourVertex>)
      ensures Positions(inputs) == Path2D(path)
      ensures forall k :: 0 <= k < |inputs| ==> inputs[k].data == featherColor
    {
      inputs := [];
      var i := 0;
      while i < |path|
        invariant 0 <= i <= |path| && |inputs| == i
        invariant forall k :: 0 <= k < i ==> inputs[k] == ContourVertex(Vec2(path[k].x, path[k].y), featherColor)
      {
        inputs := inputs + [ContourVertex(Vec2(path[i].x, path[i].y), featherColor)];
        i := i + 1;
      }
    }

    /**
     * UpdateShapeLightMesh's quad loop and last quad: one feather quad per edge and
     * the interior contour, or the exception the indexing raises: the path's last
     * point of an empty path, or a feather vertex that was skipped.
     */
    static method FeatherRing(path: seq<Vec3>, feathered: seq<Vec2>, interior: Color)
      returns (outcome: Outcome, featherContours: seq<seq<ContourVertex>>, inputsI: seq<ContourVertex>)
      requires |feathered| <= |path|
      ensures outcome == if |path| == 0 then Threw(IndexOutOfRange)
                         else if |feathered| < |path| then Threw(ArgumentOutOfRange) else Completed
      ensures outcome == Completed ==>
        && featherContours == FeatherContours(Path2D(path), feathered, interior)
        && inputsI == InteriorContour(Path2D(path), interior)
    {
      var feather := Transparent(interior);
      var pointCount := |path|;
      ghost var ps := Path2D(path);
      featherContours := [];
      inputsI := [];
      var i := 0;
      while i < pointCount - 1
        invariant 0 <= i && (pointCount >= 1 ==> i <= pointCount - 1)
        invariant i > 0 ==> i < |feathered|
        invariant |featherContours| == i && |inputsI| == i
        invariant forall k :: 0 <= k < i ==> QuadAt(featherContours, k, ps, feathered, interior)
        invariant forall k :: 0 <= k < i ==> inputsI[k] == ContourVertex(ps[k], interior)
      {
        if i + 1 >= |feathered| {
          return Threw(ArgumentOutOfRange), featherContours, inputsI;
        }
        var inputsF := [
          ContourVertex(Vec2(path[i].x, path[i].y), interior),
          ContourVertex(feathered[i], feather),
          ContourVertex(feathered[i + 1], feather),
          ContourVertex(Vec2(path[i + 1].x, path[i + 1].y), interior)];
        ghost var built := featherContours;
        featherContours := featherContours + [inputsF];
        inputsI := inputsI + [ContourVertex(Vec2(path[i].x, path[i].y), interior)];
        forall k | 0 <= k <= i ensures QuadAt(featherContours, k, ps, feathered, interior) {
          if k < i {
            assert QuadAt(built, k, ps, feathered, interior);
          }
        }
        i := i + 1;
      }
      if pointCount == 0 {
        return Threw(IndexOutOfRange), featherContours, inputsI;
      }
      if pointCount - 1 >= |feathered| {
        return Threw(ArgumentOutOfRange), featherContours, inputsI;
      }
      ghost var quads := featherContours;
      var inputsL := [
        ContourVertex(Vec2(path[pointCount - 1].x, path[pointCount - 1].y), interior),
        ContourVertex(feathered[pointCount - 1], feather),
        ContourVertex(feathered[0], feather),
        ContourVertex(Vec2(path[0].x, path[0].y), interior)];
      featherContours := featherContours + [inputsL];
      inputsI := inputsI + [ContourVertex(Vec2(path[pointCount - 1].x, path[pointCount - 1].y), interior)];
      outcome := Completed;
      assert featherContours == FeatherContours(ps, feathered, interior) by {
        forall k | 0 <= k < pointCount ensures featherContours[k] == FeatherQuad(ps, feathered, k, interior) {
          if k < pointCount - 1 {
            assert QuadAt(quads, k, ps, feathered, interior);
            assert featherContours[k] == quads[k];
          }
        }
      }
    }

    /** The volume loop: `new Vector4(1, 1, 1, m_LightVolumeOpacity)` for every vertex. */
    static method VolumeColors(count: nat, volumeOpacity: Float) returns (tangents: seq<Vec4>)
      ensures |tangents| == count
      ensures forall k :: 0 <= k < count ==> tangents[k] == VolumeTangent(volumeOpacity)
    {
      var volumeColors := new Vec4[count];
      var i := 0;
      while i < volumeColors.Length
        invariant 0 <= i <= volumeColors.Length
        invariant forall k :: 0 <= k < i ==> volumeColors[k] == VolumeTangent(volumeOpacity)
      {
        volumeColors[i] := Vec4(Num(1.0), Num(1.0), Num(1.0), volumeOpacity);
        i := i + 1;
      }
      tangents := volumeColors[..];
    }

    /**
     * GetMesh: with no mesh yet, or when forced, create the mesh if needed and run the
     * generator the settings select; otherwise leave the mesh alone.
     */
    method GetMesh(forceUpdate: bool, engine: Engine) returns (outcome: Outcome)
      modifies this`mesh, this`localBounds
      ensures !(old(mesh).None? || forceUpdate) ==>
        outcome == Completed && mesh == old(mesh) && localBounds == old(localBounds)
      ensures old(mesh).None? || forceUpdate ==>
        var build := BuildMesh(MeshRequest(), if old(mesh).None? then Blank else old(mesh).value, old(localBounds),
                               shapePath, shapeLightFeathering, lightVolumeOpacity, engine);
        outcome == build.outcome && mesh == Some(build.content) && localBounds == build.bounds
    {
      outcome := Completed;
      if mesh.None? || forceUpdate {
        if mesh.None? {
          mesh := Some(Blank);
        }
        var call := MeshRequest();
        if call.FreeformShapeMesh? {
          outcome := UpdateShapeLightMesh(lightColor, engine);
        } else {
          localBounds := engine.generatorBounds(call);
          mesh := Some(Generated(call));
        }
      }
    }

    /** UpdateMesh: GetMesh(true). */
    method UpdateMesh(engine: Engine) returns (outcome: Outcome)
      modifies this`mesh, this`localBounds
      ensures var build := BuildMesh(MeshRequest(), if old(mesh).None? then Blank else old(mesh).value, old(localBounds),
                                     shapePath, shapeLightFeathering, lightVolumeOpacity, engine);
        outcome == build.outcome && mesh == Some(build.content) && localBounds == build.bounds
    {
      outcome := GetMesh(true, engine);
    }

    // ---------------------------------------------------------------- materials

    /** The fields material resolution reads. */
    function Request(): MaterialRequest
      reads this`lightProjectionType, this`shapeLightCookieStyle, this`shapeLightOverlapMode, this`lightCookieSprite
    {
      MaterialRequest(lightProjectionType, shapeLightCookieStyle, shapeLightOverlapMode, lightCookieSprite)
    }

    /** GetMaterial: lazily fill the slots of this light's kind, return the one it draws with. */
    method GetMaterial(cache: MaterialCache, shaders: set<string>) returns (material: Option<Material>)
      modifies cache
      ensures Resolved(cache.State(), material) == ResolveMaterial(old(cache.State()), Request(), shaders)
    {
      if lightProjectionType == Shape {
        if shapeLightCookieStyle == SpriteCookie {
          if SpriteUsable(lightCookieSprite) {
            cache.Fill(ShapeCookieSpriteAdditive, shaders, lightCookieSprite.value.texture);
          }
          if SpriteUsable(lightCookieSprite) {
            cache.Fill(ShapeCookieSpriteAlphaBlend, shaders, lightCookieSprite.value.texture);
          }
          if shapeLightOverlapMode == Additive {
            material := cache.Get(ShapeCookieSpriteAdditive);
            return;
          } else {
            material := cache.Get(ShapeCookieSpriteAlphaBlend);
            return;
          }
        } else {
          cache.Fill(ShapeVertexColoredAdditive, shaders, None);
          cache.Fill(ShapeVertexColoredAlphaBlend, shaders, None);
          if shapeLightOverlapMode == Additive {
            material := cache.Get(ShapeVertexColoredAdditive);
            return;
          } else {
            material := cache.Get(ShapeVertexColoredAlphaBlend);
            return;
          }
        }
      }
      cache.Fill(PointLight, shaders, None);
      material := cache.Get(PointLight);
    }

    /** GetVolumeMaterial: the same for the volume slots. */
    method GetVolumeMaterial(cache: MaterialCache, shaders: set<string>) returns (material: Option<Material>)
      modifies cache
      ensures Resolved(cache.State(), material) == ResolveVolumeMaterial(old(cache.State()), Request(), shaders)
    {
      if lightProjectionType == Shape {
        if shapeLightCookieStyle == SpriteCookie {
          if SpriteUsable(lightCookieSprite) {
            cache.Fill(ShapeCookieSpriteVolume, shaders, lightCookieSprite.value.texture);
          }
          material := cache.Get(ShapeCookieSpriteVolume);
          return;
        } else {
          cache.Fill(ShapeVertexColoredVolume, shaders, None);
          material := cache.Get(ShapeVertexColoredVolume);
          return;
        }
      }
      cache.Fill(PointLightVolume, shaders, None);
      material := cache.Get(PointLightVolume);
    }

    /** UpdateMaterial: null the sprite-cookie and point slots, then GetMaterial. */
    method UpdateMaterial(cache: MaterialCache, shaders: set<string>)
      modifies cache
      ensures cache.State() == ResolveMaterial(ClearCookieAndPointSlots(old(cache.State())), Request(), shaders).state
    {
      cache.Clear(ShapeCookieSpriteAdditive);
      cache.Clear(ShapeCookieSpriteAlphaBlend);
      cache.Clear(ShapeCookieSpriteVolume);
      cache.Clear(PointLight);
      cache.Clear(PointLightVolume);
      ghost var cleared := ClearCookieAndPointSlots(old(cache.State()));
      assert cache.slots == cleared.slots by {
        assert cache.slots == old(cache.slots) - {ShapeCookieSpriteAdditive} - {ShapeCookieSpriteAlphaBlend}
          - {ShapeCookieSpriteVolume} - {PointLight} - {PointLightVolume};
        assert forall t :: t in cache.slots <==> t in cleared.slots;
      }
      var _ := GetMaterial(cache, shaders);
    }

    // ---------------------------------------------------------------- per frame

    /**
     * LateUpdate's sorting step: a change of order against its snapshot re-inserts
     * a shape light into its bucket; the snapshot is refreshed either way.
     */
    method ReorderOnOrderChange(reg: LightRegistry) returns (reordered: bool)
      requires reg.Valid()
      modifies reg`buckets, this`previousShapeLightOrder
      ensures reg.Valid()
      ensures reordered <==> old(previousShapeLightOrder) != shapeLightOrder && lightProjectionType == Shape
      ensures previousShapeLightOrder == shapeLightOrder
      ensures reg.buckets == if reordered then old(Relocated(reg.buckets, lightOperation, lightOperation, this)) else old(reg.buckets)
    {
      var orderChanged;
      orderChanged, previousShapeLightOrder := CheckForChangeInt(shapeLightOrder, previousShapeLightOrder);
      reordered := orderChanged && lightProjectionType == Shape;
      if reordered {
        Reinsert(reg);
      }
    }

    /** `m_Lights[(int)m_LightOperation].Remove(this); InsertLight(this);`: the light moves to its place by order. */
    method Reinsert(reg: LightRegistry)
      requires reg.Valid()
      modifies reg`buckets
      ensures reg.Valid()
      ensures reg.buckets == old(Relocated(reg.buckets, lightOperation, lightOperation, this))
    {
      ghost var removed := reg.buckets[lightOperation := RemoveFirst(reg.buckets[lightOperation], this)];
      RemoveFirstSubset(reg.buckets[lightOperation], this);
      ghost var inserted := InsertByOrder(removed[lightOperation], this);
      reg.buckets := reg.buckets[lightOperation := RemoveFirst(reg.buckets[lightOperation], this)];
      InsertLight(reg, this);
      assert reg.buckets == removed[lightOperation := inserted];
    }

    /**
     * LateUpdate's mesh-rebuilding checks: every check runs and refreshes its
     * snapshot, and the result says whether any saw a change.
     */
    method DetectMeshChange(pointHash: Vec3 -> U32, editor: bool) returns (rebuildMesh: bool)
      modifies this`previousLightColor, this`previousShapeLightFeathering, this`previousShapeLightOffset,
        this`previousShapeLightParametricSides, this`previousLightVolumeOpacity, this`prevShapePathHash
      ensures rebuildMesh == old(MeshRebuildDue(editor, pointHash))
      ensures previousLightColor == lightColor && previousShapeLightFeathering == shapeLightFeathering
      ensures previousShapeLightOffset == shapeLightOffset && previousShapeLightParametricSides == shapeLightParametricSides
      ensures previousLightVolumeOpacity == lightVolumeOpacity
      ensures prevShapePathHash == if editor then ShapePathHash(shapePath, pointHash) else old(prevShapePathHash)
    {
      rebuildMesh := false;
      var changed;
      changed, previousLightColor := CheckForColorChange(lightColor, previousLightColor);
      rebuildMesh := rebuildMesh || changed;
      changed, previousShapeLightFeathering := CheckForChangeFloat(shapeLightFeathering, previousShapeLightFeathering);
      rebuildMesh := rebuildMesh || changed;
      changed, previousShapeLightOffset := CheckForVector2Change(shapeLightOffset, previousShapeLightOffset);
      rebuildMesh := rebuildMesh || changed;
      changed, previousShapeLightParametricSides := CheckForChangeInt(shapeLightParametricSides, previousShapeLightParametricSides);
      rebuildMesh := rebuildMesh || changed;
      changed, previousLightVolumeOpacity := CheckForChangeFloat(lightVolumeOpacity, previousLightVolumeOpacity);
      rebuildMesh := rebuildMesh || changed;
      if editor {
        var shapePathHash := GetShapePathHash(pointHash);
        rebuildMesh := rebuildMesh || prevShapePathHash != shapePathHash;
        prevShapePathHash := shapePathHash;
      }
    }

    /** LateUpdate's material step: a cookie sprite change against its snapshot resets the materials. */
    method RefreshMaterialOnSpriteChange(cache: MaterialCache, shaders: set<string>) returns (rebuildMaterial: bool)
      modifies this`previousLightCookieSprite, cache
      ensures rebuildMaterial <==> SpriteIdentity(lightCookieSprite) != SpriteIdentity(old(previousLightCookieSprite))
      ensures previousLightCookieSprite == lightCookieSprite
      ensures cache.State() ==
        if rebuildMaterial then old(ResolveMaterial(ClearCookieAndPointSlots(cache.State()), Request(), shaders).state)
        else old(cache.State())
      // the order and mesh state is left as it was
      ensures unchanged(this`previousShapeLightOrder, this`previousLightColor, this`previousShapeLightFeathering,
        this`previousShapeLightOffset, this`previousShapeLightParametricSides, this`previousLightVolumeOpacity,
        this`prevShapePathHash, this`mesh, this`localBounds, this`shapeLightOrder, this`lightColor,
        this`shapeLightFeathering, this`shapeLightOffset, this`shapeLightParametricSides, this`lightVolumeOpacity, this`shapePath)
    {
      rebuildMaterial := false;
      var changed;
      changed, previousLightCookieSprite := CheckForSpriteChange(lightCookieSprite, previousLightCookieSprite);
      rebuildMaterial := rebuildMaterial || changed;
      if rebuildMaterial {
        UpdateMaterial(cache, shaders);
      }
    }

    /**
     * The first part of LateUpdate: the sorting step, then the mesh-rebuilding
     * checks and, when one saw a change, the rebuild (which may throw).
     */
    method SortAndRebuild(reg: LightRegistry, engine: Engine, editor: bool)
      returns (outcome: Outcome, reordered: bool, meshRebuilt: bool)
      requires reg.Valid()
      modifies reg`buckets, this`previousShapeLightOrder, this`previousLightColor,
        this`previousShapeLightFeathering, this`previousShapeLightOffset, this`previousShapeLightParametricSides,
        this`previousLightVolumeOpacity, this`prevShapePathHash, this`mesh, this`localBounds
      ensures reg.Valid()
      ensures reordered <==> old(previousShapeLightOrder) != shapeLightOrder && lightProjectionType == Shape
      ensures previousShapeLightOrder == shapeLightOrder
      ensures reg.buckets == if reordered then old(Relocated(reg.buckets, lightOperation, lightOperation, this)) else old(reg.buckets)
      ensures meshRebuilt == old(MeshRebuildDue(editor, engine.pointHash))
      ensures previousLightColor == lightColor && previousShapeLightFeathering == shapeLightFeathering
      ensures previousShapeLightOffset == shapeLightOffset && previousShapeLightParametricSides == shapeLightParametricSides
      ensures previousLightVolumeOpacity == lightVolumeOpacity
      ensures prevShapePathHash == if editor then ShapePathHash(shapePath, engine.pointHash) else old(prevShapePathHash)
      ensures meshRebuilt ==>
        var build := old(BuildMesh(MeshRequest(), if mesh.None? then Blank else mesh.value, localBounds,
                                   shapePath, shapeLightFeathering, lightVolumeOpacity, engine));
        outcome == build.outcome && mesh == Some(build.content) && localBounds == build.bounds
      ensures !meshRebuilt ==> outcome == Completed && mesh == old(mesh) && localBounds == old(localBounds)
      // the material and registry state is left as it was
      ensures unchanged(this`previousLightCookieSprite, this`previousLightProjectionType, this`previousLightOperation,
        this`lightProjectionType, this`lightOperation, this`lightCookieSprite)
    {
      outcome := Completed;
      reordered := ReorderOnOrderChange(reg);
      outcome, meshRebuilt := RebuildOnChange(engine, editor);
    }

    /** LateUpdate's mesh step: the mesh-rebuilding checks, then the rebuild when one saw a change. */
    method RebuildOnChange(engine: Engine, editor: bool) returns (outcome: Outcome, meshRebuilt: bool)
      modifies this`previousLightColor, this`previousShapeLightFeathering, this`previousShapeLightOffset,
        this`previousShapeLightParametricSides, this`previousLightVolumeOpacity, this`prevShapePathHash,
        this`mesh, this`localBounds
      ensures meshRebuilt == old(MeshRebuildDue(editor, engine.pointHash))
      ensures previousLightColor == lightColor && previousShapeLightFeathering == shapeLightFeathering
      ensures previousShapeLightOffset == shapeLightOffset && previousShapeLightParametricSides == shapeLightParametricSides
      ensures previousLightVolumeOpacity == lightVolumeOpacity
      ensures prevShapePathHash == if editor then ShapePathHash(shapePath, engine.pointHash) else old(prevShapePathHash)
      ensures meshRebuilt ==>
        var build := old(BuildMesh(MeshRequest(), if mesh.None? then Blank else mesh.value, localBounds,
                                   shapePath, shapeLightFeathering, lightVolumeOpacity, engine));
        outcome == build.outcome && mesh == Some(build.content) && localBounds == build.bounds
      ensures !meshRebuilt ==> outcome == Completed && mesh == old(mesh) && localBounds == old(localBounds)
    {
      outcome := Completed;
      meshRebuilt := DetectMeshChange(engine.pointHash, editor);
      if meshRebuilt {
        outcome := UpdateMesh(engine);
      }
    }

    /**
     * The last part of LateUpdate: the projection type and the operation re-applied
     * through their update methods with their own current values, so that the
     * registry and the snapshots catch up with a direct edit of either field.
     */
    method ReapplyTypeAndOperation(reg: LightRegistry)
      requires reg.Valid()
      modifies reg`buckets, this`lightProjectionType, this`previousLightProjectionType,
        this`lightOperation, this`previousLightOperation
      ensures reg.Valid()
      ensures lightProjectionType == old(lightProjectionType) && lightOperation == old(lightOperation)
      ensures previousLightProjectionType == lightProjectionType && previousLightOperation == lightOperation
      ensures reg.buckets == Reapplied(old(reg.buckets), lightOperation, this,
        lightProjectionType != old(previousLightProjectionType), lightOperation != old(previousLightOperation))
      // the order and mesh state is left as it was
      ensures unchanged(this`previousShapeLightOrder, this`previousLightColor, this`previousShapeLightFeathering,
        this`previousShapeLightOffset, this`previousShapeLightParametricSides, this`previousLightVolumeOpacity,
        this`prevShapePathHash, this`mesh, this`localBounds, this`shapeLightOrder, this`lightColor,
        this`shapeLightFeathering, this`shapeLightOffset, this`shapeLightParametricSides, this`lightVolumeOpacity, this`shapePath)
    {
      UpdateLightProjectionType(reg, lightProjectionType);
      UpdateLightOperation(reg, lightOperation);
    }

    /** The rest of LateUpdate once the mesh is settled: the material step, then the registry catches up. */
    method FinishFrame(reg: LightRegistry, cache: MaterialCache, shaders: set<string>) returns (materialReset: bool)
      requires reg.Valid()
      modifies reg`buckets, cache, this`previousLightCookieSprite, this`lightProjectionType,
        this`previousLightProjectionType, this`lightOperation, this`previousLightOperation
      ensures reg.Valid()
      ensures lightProjectionType == old(lightProjectionType) && lightOperation == old(lightOperation)
      ensures materialReset <==> SpriteIdentity(lightCookieSprite) != SpriteIdentity(old(previousLightCookieSprite))
      ensures previousLightCookieSprite == lightCookieSprite
      ensures cache.State() ==
        if materialReset then old(ResolveMaterial(ClearCookieAndPointSlots(cache.State()), Request(), shaders).state)
        else old(cache.State())
      ensures previousLightProjectionType == lightProjectionType && previousLightOperation == lightOperation
      ensures reg.buckets == Reapplied(old(reg.buckets), lightOperation, this,
        lightProjectionType != old(previousLightProjectionType), lightOperation != old(previousLightOperation))
      // the order and mesh state is left as it was
      ensures unchanged(this`previousShapeLightOrder, this`previousLightColor, this`previousShapeLightFeathering,
        this`previousShapeLightOffset, this`previousShapeLightParametricSides, this`previousLightVolumeOpacity,
        this`prevShapePathHash, this`mesh, this`localBounds, this`shapeLightOrder, this`lightColor,
        this`shapeLightFeathering, this`shapeLightOffset, this`shapeLightParametricSides, this`lightVolumeOpacity, this`shapePath)
    {
      materialReset := RefreshMaterialOnSpriteChange(cache, shaders);
      ReapplyTypeAndOperation(reg);
    }

    /**
     * LateUpdate: refresh every snapshot and act on what changed. The order snapshot
     * triggers a re-insert of a shape light; the mesh snapshots (and in the editor
     * the path hash) a mesh rebuild, which may throw and end the frame there; the
     * sprite snapshot a material reset; finally the projection type and operation
     * are re-applied through their update methods with their own current values,
     * which leaves every designer-facing field as it was.
     */
    method LateUpdate(reg: LightRegistry, cache: MaterialCache, engine: Engine, editor: bool)
      returns (outcome: Outcome, reordered: bool, meshRebuilt: bool, materialReset: bool)
      requires reg.Valid()
      modifies reg`buckets, cache, this`previousShapeLightOrder, this`previousLightColor,
        this`previousShapeLightFeathering, this`previousShapeLightOffset, this`previousShapeLightParametricSides,
        this`previousLightVolumeOpacity, this`prevShapePathHash, this`mesh, this`localBounds,
        this`previousLightCookieSprite, this`lightProjectionType, this`previousLightProjectionType,
        this`lightOperation, this`previousLightOperation
      ensures reg.Valid()
      ensures lightProjectionType == old(lightProjectionType) && lightOperation == old(lightOperation)
      // sorting
      ensures reordered <==> old(previousShapeLightOrder) != shapeLightOrder && lightProjectionType == Shape
      ensures previousShapeLightOrder == shapeLightOrder
      // mesh rebuilding: every snapshot is refreshed, whichever changed
      ensures meshRebuilt == old(MeshRebuildDue(editor, engine.pointHash))
      ensures previousLightColor == lightColor && previousShapeLightFeathering == shapeLightFeathering
      ensures previousShapeLightOffset == shapeLightOffset && previousShapeLightParametricSides == shapeLightParametricSides
      ensures previousLightVolumeOpacity == lightVolumeOpacity
      ensures prevShapePathHash == if editor then ShapePathHash(shapePath, engine.pointHash) else old(prevShapePathHash)
      ensures meshRebuilt ==>
        var build := old(BuildMesh(MeshRequest(), if mesh.None? then Blank else mesh.value, localBounds,
                                   shapePath, shapeLightFeathering, lightVolumeOpacity, engine));
        outcome == build.outcome && mesh == Some(build.content) && localBounds == build.bounds
      ensures !meshRebuilt ==> outcome == Completed && mesh == old(mesh) && localBounds == old(localBounds)
      // a throwing rebuild ends the frame
      ensures outcome.Threw? ==>
        && reg.buckets == (if reordered then old(Relocated(reg.buckets, lightOperation, lightOperation, this)) else old(reg.buckets))
        && cache.State() == old(cache.State()) && !materialReset
        && previousLightCookieSprite == old(previousLightCookieSprite)
        && previousLightProjectionType == old(previousLightProjectionType)
        && previousLightOperation == old(previousLightOperation)
      // otherwise the material and the registry catch up
      ensures outcome == Completed ==>
        && (materialReset <==> SpriteIdentity(lightCookieSprite) != SpriteIdentity(old(previousLightCookieSprite)))
        && previousLightCookieSprite == lightCookieSprite
        && cache.State() == (if materialReset then old(ResolveMaterial(ClearCookieAndPointSlots(cache.State()), Request(), engine.shaders).state)
                             else old(cache.State()))
        && previousLightProjectionType == lightProjectionType
        && previousLightOperation == lightOperation
        && reg.buckets == Reapplied(
             if reordered then old(Relocated(reg.buckets, lightOperation, lightOperation, this)) else old(reg.buckets),
             lightOperation, this,
             lightProjectionType != old(previousLightProjectionType), lightOperation != old(previousLightOperation))
    {
      materialReset := false;
      ghost var state, request := cache.State(), Request();
      outcome, reordered, meshRebuilt := SortAndRebuild(reg, engine, editor);
      assert cache.State() == state && Request() == request;
      if outcome.Threw? {
        return;
      }
      materialReset := FinishFrame(reg, cache, engine.shaders);
    }
  }

  /** The static light lists and culling group of Light2D. */
  class LightRegistry {
    /** m_Lights: one list per Light2DType. */
    var buckets: seq<seq<Light2D>>
    /** m_CullingGroup; None while it is null. */
    var cullingGroup: Option<CullingGroupState>

    /** Four buckets, and the point bucket, which no LightOperation names, empty. */
    predicate Valid()
      reads this`buckets
    {
      |buckets| == LightTypeCount && buckets[PointBucket] == []
    }

    /** The static initialiser: `m_Lights = SetupLightArray()`, no culling group. */
    constructor()
      ensures Valid() && cullingGroup == None
      ensures forall i :: 0 <= i < LightTypeCount ==> buckets[i] == []
    {
      var lists := Light2D.SetupLightArray();
      buckets := lists;
      cullingGroup := None;
    }
  }

  /** The eight static material fields, the handle counter and the error log. */
  class MaterialCache {
    var slots: map<Slot, Material>
    var nextId: nat
    var log: seq<string>

    function State(): CacheState
      reads this
    {
      CacheState(slots, nextId, log)
    }

    /** All slots null before any light asks. */
    constructor()
      ensures State() == CacheState(map[], 0, [])
    {
      slots := map[];
      nextId := 0;
      log := [];
    }

    /** The lazy fill of one slot: `if (slot == null) { shader = Shader.Find(..); ... }`. */
    method Fill(s: Slot, shaders: set<string>, texture: Option<Texture>)
      modifies this
      ensures State() == FillSlot(old(State()), s, shaders, texture)
    {
      if s !in slots {
        var name := ShaderName(s);
        if name in shaders {
          slots := slots[s := Material(nextId, name, texture)];
          nextId := nextId + 1;
        } else {
          log := log + MissingShaderLog(s);
        }
      }
    }

    /** Reading a slot's static field. */
    method Get(s: Slot) returns (material: Option<Material>)
      ensures material == Lookup(State(), s)
    {
      material := if s in slots then Some(slots[s]) else None;
    }

    /** `slot = null`. */
    method Clear(s: Slot)
      modifies this
      ensures State() == CacheState(old(slots) - {s}, old(nextId), old(log))
    {
      slots := slots - {s};
    }
  }
}
