# Light2D: the light registry, change detection, culling numbering, materials and meshes of Unity's 2D lights

This project models the non-graphical core of the `Light2D` component of the
Lightweight Render Pipeline's 2D renderer, and proves what that code promises.

* **The light registry.** `m_Lights` is a static array of four lists (bucket 3,
  the point bucket, is named by no `LightOperation`). The model is the class
  `LightRegistry`, whose `buckets` field is a sequence of sequences of lights.
  `InsertLight` is a sorted insert by `m_ShapeLightOrder`. `UpdateLightOperation`
  moves a light between buckets, and `UpdateLightProjectionType` moves it to the
  end of its bucket. `RegisterLight`, `OnEnable` and `OnDisable` add and remove
  lights and manage the culling group's lifetime. The `List<T>` operations the
  code calls (`IndexOf`, `Contains`, `Remove`, `Insert`, `Add`) are functions
  on sequences in module `ListOps`.
* **Per-frame change detection.** `Light2D` is a class whose fields are the
  designer-facing settings and their snapshots. `LateUpdate` is proved against
  the snapshots it refreshes. An order change re-sorts a shape light. A change
  in colour, feathering, offset, side count or volume opacity, or in the editor
  a change in the shape-path hash, rebuilds the mesh. A change of cookie-sprite
  identity resets the materials. Projection type and operation are then
  re-applied. Floats are `Num(real) | NaN`, so that C# `!=` (under which NaN
  differs from itself) and `float.CompareTo` (under which NaN equals NaN) stay
  different. The editor's shape-path hash is the FNV-style fold: a 32-bit value
  is its unsigned bit pattern, an integer below 2^32. The unchecked
  multiplication wraps with an explicit `% 2^32`, and `^` is spelled out bit
  by bit. The proofs show that the fold's step is injective, so a single-point
  edit of the path that changes that point's `Vector3.GetHashCode` always
  triggers a rebuild.
* **Culling numbering and visibility.** `SetupCulling` walks the buckets in
  bucket-major order. Each live light takes the next culling index and the
  bounding-sphere slot of that number. A sphere is represented by the light it
  belongs to (`None` for a default sphere). Over the flattened walk the proofs
  show three things: the indices are consecutive and distinct, they stay below
  the array length, and each slot holds its own light's sphere.
  `IsLightVisible` is fail-open when there is no culling group.
* **Materials.** The eight static material fields form one `CacheState`, a map
  from slot to material plus a handle counter and an error log. The class
  `MaterialCache` holds that state. `GetMaterial` and `GetVolumeMaterial` fill
  slots lazily and return the slot picked by projection type, cookie style and
  overlap mode. `UpdateMaterial` clears the three sprite-cookie slots and the two
  point slots, and keeps the vertex-coloured ones.
* **Meshes.** `GetMesh` selects which generator runs, and with which arguments.
  `UpdateShapeLightMesh` builds the freeform mesh:
  - the feathered contour, which walks each point's cyclic neighbours and skips
    degenerate points;
  - one feather quad per edge and the interior contour;
  - the two tessellations joined, with the feather indices shifted and the
    volume channel on every vertex;
  - the exceptions the indexing raises (null path, empty path, a skipped feather
    vertex).

  Vector arithmetic, the tessellator and the `LightUtility` generators are
  function-valued parameters (`Geometry`, `Tessellator`, `Engine`).

Modules follow the structure of the code:
- `Values`: floats, colours, enums, exceptions.
- `ListOps`: `List<T>`.
- `PathHash`: `GetShapePathHash`.
- `ShapeMesh`: the freeform mesh.
- `Culling`: the numbering walk.
- `Materials`: the material slots.
- `Lights`: the `Light2D`, `LightRegistry` and `MaterialCache` classes and their methods.

The environment is passed in as parameters:
- the camera;
- the editor flag (`UNITY_EDITOR`);
- the set of shader names `Shader.Find` can find;
- `CullingGroup.IsVisible`;
- the editor's "rendered by camera" test;
- `Vector3.GetHashCode`.

A light that has been destroyed (Unity's `light == null`) is a light whose
`isAlive` field is false.

The registry keeps one behaviour of the code exactly as written.
`LateUpdate` calls `UpdateLightOperation(m_LightOperation)`. After a direct
edit of `m_LightOperation`, that call removes the light from the *new* bucket.
The light therefore stays in its old bucket and is also inserted into the new
one (`Lights.DirectEditLeavesStaleEntry`). Through the property setter the
move is clean (`Lights.RelocatedMovesLight`).

## Model

| member | source | states |
|---|---|---|
| Values.FloatCompareIsIdentity | com.unity.render-pipelines.lightweight/Runtime/2D/Light2D.cs:797-802 | CheckForChange<float> compares with float.CompareTo, which reports 0 exactly on identical values, a NaN being equal to a NaN |
| Values.FloatNotEqualIsIdentityExceptNaN | com.unity.render-pipelines.lightweight/Runtime/2D/Light2D.cs:766-778 | C# `!=` on float channels disagrees with value inequality only on NaN, which is never equal to itself |
| ListOps.IndexOf | com.unity.render-pipelines.lightweight/Runtime/2D/Light2D.cs:326 | List.Remove finds the first index holding the element, or -1 exactly when the element is absent |
| ListOps.RemoveAt | com.unity.render-pipelines.lightweight/Runtime/2D/Light2D.cs:326 | removing at an index shifts later elements down by one and keeps earlier ones |
| ListOps.InsertAt | com.unity.render-pipelines.lightweight/Runtime/2D/Light2D.cs:319 | List.Insert(i, x) puts x at i, keeps the elements before i and shifts the rest up by one |
| ListOps.RemoveFirstMultiset | com.unity.render-pipelines.lightweight/Runtime/2D/Light2D.cs:326 | List.Remove takes out exactly one copy of the element, or none when it is absent, and shortens the list accordingly |
| ListOps.RemoveFirstIsSubsequence | com.unity.render-pipelines.lightweight/Runtime/2D/Light2D.cs:326 | List.Remove drops only the first occurrence and keeps everything else in its relative order |
| ListOps.RemoveFirstSubset | com.unity.render-pipelines.lightweight/Runtime/2D/Light2D.cs:326 | List.Remove never introduces an element |
| ListOps.RemoveFirstSingleOccurrence | com.unity.render-pipelines.lightweight/Runtime/2D/Light2D.cs:339-340 | an element present at most once is gone after Remove, and membership of every other element is unchanged |
| ListOps.MoveToEndSingle | com.unity.render-pipelines.lightweight/Runtime/2D/Light2D.cs:338-345 | Remove then Add leaves a light present at most once exactly once and last, behind the others in their old order |
| ListOps.FirstNotLess | com.unity.render-pipelines.lightweight/Runtime/2D/Light2D.cs:314-317 | the scan stops at the first index whose order is not smaller than the new light's order |
| ListOps.FirstNotLessUnique | com.unity.render-pipelines.lightweight/Runtime/2D/Light2D.cs:316-317 | any index with the scan's stopping property is the scan's stop index |
| ListOps.InsertSorted | com.unity.render-pipelines.lightweight/Runtime/2D/Light2D.cs:312-320 | inserting at the scan's stop index keeps a non-decreasing sequence of orders sorted and puts the new order in front of every equal one |
| ListOps.RemoveAtSorted | com.unity.render-pipelines.lightweight/Runtime/2D/Light2D.cs:810 | removing one entry of a sorted bucket leaves it sorted |
| PathHash.MulPrimeInvertible | com.unity.render-pipelines.lightweight/Runtime/2D/Light2D.cs:382 | unchecked multiplication by 16777619 is undone by multiplying by its inverse modulo 2^32 |
| PathHash.StepInjective | com.unity.render-pipelines.lightweight/Runtime/2D/Light2D.cs:382 | one step `h * 16777619 ^ pointHash` is injective in the running hash h |
| PathHash.StepSeparatesPoints | com.unity.render-pipelines.lightweight/Runtime/2D/Light2D.cs:382 | from the same running hash, two different point hashes give different step results |
| PathHash.FoldsStayApart | com.unity.render-pipelines.lightweight/Runtime/2D/Light2D.cs:381-382 | once two equally long paths have different running hashes, shared later points never bring them back together |
| PathHash.SinglePointEditChangesHash | com.unity.render-pipelines.lightweight/Runtime/2D/Light2D.cs:373-391 | changing one point of the path so that its own hash differs always changes the path hash |
| PathHash.FoldSeesPointHashes | com.unity.render-pipelines.lightweight/Runtime/2D/Light2D.cs:377-384 | the fold reads each point only through its hash: paths whose points hash alike pointwise get the same path hash |
| PathHash.SinglePointEditHashIff | com.unity.render-pipelines.lightweight/Runtime/2D/Light2D.cs:377-384 | a single-point edit changes the path hash if and only if it changes that point's hash |
| PathHash.FoldAppend | com.unity.render-pipelines.lightweight/Runtime/2D/Light2D.cs:381-382 | the hash of a path with one more point is one more fold step |
| ShapeMesh.Prev | com.unity.render-pipelines.lightweight/Runtime/2D/Light2D.cs:401 | the predecessor index `h` of point i wraps to the last point and stays in range |
| ShapeMesh.Next | com.unity.render-pipelines.lightweight/Runtime/2D/Light2D.cs:402 | the successor index `j` stays in range and its predecessor is i |
| ShapeMesh.NextIsModulo | com.unity.render-pipelines.lightweight/Runtime/2D/Light2D.cs:402 | the successor is `(i + 1) % contourPointCount` |
| ShapeMesh.FeatheredPrefixComplete | com.unity.render-pipelines.lightweight/Runtime/2D/Light2D.cs:396-430 | the feathered contour has one vertex per point exactly when no point is skipped, and never more vertices than points |
| ShapeMesh.FeatheredPointwise | com.unity.render-pipelines.lightweight/Runtime/2D/Light2D.cs:396-430 | without skips, feather vertex i is the one computed from point i and its cyclic neighbours |
| ShapeMesh.InteriorContour | com.unity.render-pipelines.lightweight/Runtime/2D/Light2D.cs:454-475 | the interior contour is the path, point for point, in the interior colour |
| ShapeMesh.FeatherContours | com.unity.render-pipelines.lightweight/Runtime/2D/Light2D.cs:455-472 | the feather tessellator gets one quad per edge of the closed path |
| ShapeMesh.FeatherQuadColours | com.unity.render-pipelines.lightweight/Runtime/2D/Light2D.cs:457-461 | every feather quad has its path corners in the interior colour and its feather corners in the same colour with alpha 0 |
| ShapeMesh.InterpCustomVertexData | com.unity.render-pipelines.lightweight/Runtime/2D/Light2D.cs:432-435 | the callback's result is the data of one of the vertex's contributors; it documents the callback, and the mesh proofs assume it through KeepsInputData |
| ShapeMesh.Offset | com.unity.render-pipelines.lightweight/Runtime/2D/Light2D.cs:484 | the feather index list keeps its length; that each index is shifted past the interior vertices is stated by CombinedTrianglesPreserved |
| ShapeMesh.CombinedTrianglesPreserved | com.unity.render-pipelines.lightweight/Runtime/2D/Light2D.cs:480-508 | the combined mesh has one colour and one volume value per vertex, every index in range, and each triangle index naming the vertex and colour its own tessellation meant |
| ShapeMesh.MeshColours | com.unity.render-pipelines.lightweight/Runtime/2D/Light2D.cs:440-441 | with a tessellator that passes on input data, the interior is entirely in the light colour, the feather ring only in that colour and its transparent variant, and the volume channel is the volume opacity everywhere |
| ShapeMesh.Path2D | com.unity.render-pipelines.lightweight/Runtime/2D/Light2D.cs:446 | the contour positions are the path's x and y, point for point |
| ShapeMesh.Positions | com.unity.render-pipelines.lightweight/Runtime/2D/Light2D.cs:404-406 | the positions the feather walk reads are the contour vertices' positions |
| ShapeMesh.FreeformMeshBuildsIff | com.unity.render-pipelines.lightweight/Runtime/2D/Light2D.cs:438-511 | the freeform mesh builds exactly when the path exists, is non-empty and no point is skipped by the feathering; then there is one feather vertex per path point |
| ShapeMesh.OnePointPathNeverBuilds | com.unity.render-pipelines.lightweight/Runtime/2D/Light2D.cs:398-411 | with geometry that calls a zero-length edge short, a one-point path, being its own neighbour on both sides, is skipped and the freeform mesh always throws on the empty feathered list |
| Culling.SpheresAfterNone | com.unity.render-pipelines.lightweight/Runtime/2D/Light2D.cs:293 | before the walk every sphere slot is at its default |
| Culling.SpheresAfterStep | com.unity.render-pipelines.lightweight/Runtime/2D/Light2D.cs:300-305 | a live entry fills the next free slot with its sphere; a dead entry changes nothing |
| Culling.SurvivorAt | com.unity.render-pipelines.lightweight/Runtime/2D/Light2D.cs:301-304 | a live entry's culling index is below the final count, and the slot of that index holds its sphere |
| Culling.SurvivorsAreLive | com.unity.render-pipelines.lightweight/Runtime/2D/Light2D.cs:301-304 | every index below the live count is taken by a live entry of the walk |
| Culling.RanksDistinct | com.unity.render-pipelines.lightweight/Runtime/2D/Light2D.cs:304 | two different live entries get different culling indices, in walk order |
| Culling.AssignedIndexOfLive | com.unity.render-pipelines.lightweight/Runtime/2D/Light2D.cs:296-307 | without duplicate entries every live light ends with the number of live entries before it, and its sphere sits in that slot |
| Culling.AssignedIndexOfAbsent | com.unity.render-pipelines.lightweight/Runtime/2D/Light2D.cs:301 | a light with no live entry keeps the culling index it had |
| Culling.SpheresHoldLiveEntries | com.unity.render-pipelines.lightweight/Runtime/2D/Light2D.cs:293-309 | the first live-count slots hold live lights, the rest are default, and the live count is at most the array length |
| Materials.ClearCookieAndPointSlots | com.unity.render-pipelines.lightweight/Runtime/2D/Light2D.cs:692-696 | UpdateMaterial nulls exactly the three sprite-cookie slots and the two point slots, keeping every other slot, the handle counter and the log |
| Materials.FillSlotKeepsCache | com.unity.render-pipelines.lightweight/Runtime/2D/Light2D.cs:571-582 | a lazy fill keeps the cache well formed, never replaces a cached material, touches no other slot, gives a new material the texture, and fills the slot exactly when it was filled or its shader exists |
| Materials.FillSettled | com.unity.render-pipelines.lightweight/Runtime/2D/Light2D.cs:606-613 | filling a slot that is cached, or whose shader is missing, changes no slot and makes no material |
| Materials.FillPairKeepsCache | com.unity.render-pipelines.lightweight/Runtime/2D/Light2D.cs:571-595 | filling the additive then the alpha-blend slot fills nothing outside the pair and leaves both settled |
| Materials.FillPairSettled | com.unity.render-pipelines.lightweight/Runtime/2D/Light2D.cs:606-622 | filling an already settled pair again changes no slot |
| Materials.ResolveMaterialKeepsCache | com.unity.render-pipelines.lightweight/Runtime/2D/Light2D.cs:564-645 | GetMaterial keeps the cache well formed, never replaces a cached material, and can only fill the two slots of the light's own pair |
| Materials.ResolveMaterialResult | com.unity.render-pipelines.lightweight/Runtime/2D/Light2D.cs:564-645 | GetMaterial returns a material exactly when the slot chosen by projection, cookie style and overlap mode was cached or could be filled (a sprite slot needing a usable sprite), made from that slot's shader |
| Materials.ResolveMaterialContract | com.unity.render-pipelines.lightweight/Runtime/2D/Light2D.cs:564-645 | both halves of GetMaterial's contract together |
| Materials.ResolveMaterialTexture | com.unity.render-pipelines.lightweight/Runtime/2D/Light2D.cs:576-591 | a newly made cookie material carries the sprite's texture as _MainTex; vertex-coloured and point materials carry none |
| Materials.ResolveMaterialIdempotent | com.unity.render-pipelines.lightweight/Runtime/2D/Light2D.cs:564-645 | resolving twice changes no slot and returns the same material: the slots are a cache |
| Materials.ResolveVolumeMaterialContract | com.unity.render-pipelines.lightweight/Runtime/2D/Light2D.cs:513-562 | GetVolumeMaterial fills at most its one slot, returns a material exactly when it was cached or could be filled, and the point volume slot never logs |
| Materials.UpdateMaterialKeepsVertexColored | com.unity.render-pipelines.lightweight/Runtime/2D/Light2D.cs:690-698 | UpdateMaterial keeps every cached vertex-coloured material |
| Materials.ClearKeepsVertexColored | com.unity.render-pipelines.lightweight/Runtime/2D/Light2D.cs:692-696 | the clearing step alone leaves the vertex-coloured slots as they were |
| Materials.UpdateMaterialRefillsOwnPairOnly | com.unity.render-pipelines.lightweight/Runtime/2D/Light2D.cs:690-698 | after UpdateMaterial the only filled sprite-cookie or point slots are the ones GetMaterial refilled for this light |
| Lights.DistinctLightsNumbered | com.unity.render-pipelines.lightweight/Runtime/2D/Light2D.cs:296-307 | when no light is listed twice, every live light's culling index is the number of live lights before it in bucket-major order, below the array length, and its slot holds its sphere |
| Lights.InsertByOrder | com.unity.render-pipelines.lightweight/Runtime/2D/Light2D.cs:312-320 | the sorted insert grows the bucket by one; where the light lands and what stays sorted is InsertByOrderSorted |
| Lights.InsertByOrderSorted | com.unity.render-pipelines.lightweight/Runtime/2D/Light2D.cs:312-320 | InsertLight keeps a sorted bucket sorted, adds exactly the light, and puts it behind smaller orders and in front of equal ones |
| Lights.InsertByOrderKeepsSorted | com.unity.render-pipelines.lightweight/Runtime/2D/Light2D.cs:312-320 | a sorted bucket stays sorted by order |
| Lights.InsertByOrderAddsLight | com.unity.render-pipelines.lightweight/Runtime/2D/Light2D.cs:319 | the bucket gains one copy of the light and nothing else |
| Lights.InsertByOrderPlacesLight | com.unity.render-pipelines.lightweight/Runtime/2D/Light2D.cs:316-319 | the light lands at the scan's stop index |
| Lights.Relocated | com.unity.render-pipelines.lightweight/Runtime/2D/Light2D.cs:326-329 | remove from one bucket, then sorted-insert into another, keeps the four buckets; what moves is RelocatedMovesLight and DirectEditLeavesStaleEntry |
| Lights.RelocatedMovesLight | com.unity.render-pipelines.lightweight/Runtime/2D/Light2D.cs:322-331 | through the property setter, a light once in its old bucket and absent from the new one ends absent from the old one, once in the new one, and no other bucket changes |
| Lights.DirectEditLeavesStaleEntry | com.unity.render-pipelines.lightweight/Runtime/2D/Light2D.cs:322-331 | after a direct edit of m_LightOperation, LateUpdate's call removes from the new bucket, so the light stays in its old bucket while it is also inserted in the new one |
| Lights.Reapplied | com.unity.render-pipelines.lightweight/Runtime/2D/Light2D.cs:849-850 | re-applying type and operation keeps the four buckets; the bucket contents are tied to it by ReapplyTypeAndOperation |
| Lights.RegisterInto | com.unity.render-pipelines.lightweight/Runtime/2D/Light2D.cs:738-740 | registration keeps the four buckets; presence and idempotence are RegisterIntoOnce |
| Lights.RegisterIntoOnce | com.unity.render-pipelines.lightweight/Runtime/2D/Light2D.cs:734-742 | registration leaves the light exactly once in its bucket, touches no other bucket, and registering again changes nothing |
| Lights.RemovedEverywhere | com.unity.render-pipelines.lightweight/Runtime/2D/Light2D.cs:706-710 | removing a light present at most once per bucket leaves it in none |
| Lights.Light2D.constructor | com.unity.render-pipelines.lightweight/Runtime/2D/Light2D.cs:86-243 | a new light has the component's field initialisers |
| Lights.Light2D.SetupLightArray | com.unity.render-pipelines.lightweight/Runtime/2D/Light2D.cs:251-259 | one empty list per Light2DType, four in all |
| Lights.Light2D.InsertLight | com.unity.render-pipelines.lightweight/Runtime/2D/Light2D.cs:312-320 | the light's own operation bucket becomes the sorted insert of the light (the parameter is ignored); no other bucket changes |
| Lights.Light2D.UpdateLightOperation | com.unity.render-pipelines.lightweight/Runtime/2D/Light2D.cs:322-331 | no change when the operation equals the previous one; otherwise the light is removed from the bucket of m_LightOperation, both fields take the operation, and it is sorted-inserted there; nothing else on the light changes |
| Lights.Light2D.UpdateLightProjectionType | com.unity.render-pipelines.lightweight/Runtime/2D/Light2D.cs:333-350 | no change when the type equals the previous one; otherwise the light is moved to the end of its bucket and both fields take the type |
| Lights.Light2D.RegisterLight | com.unity.render-pipelines.lightweight/Runtime/2D/Light2D.cs:734-742 | insert into the operation's bucket only when absent |
| Lights.Light2D.OnEnable | com.unity.render-pipelines.lightweight/Runtime/2D/Light2D.cs:755-764 | a culling group is created when there is none, then the light is registered |
| Lights.Light2D.OnDisable | com.unity.render-pipelines.lightweight/Runtime/2D/Light2D.cs:700-722 | the first occurrence of the light leaves every bucket; the culling group is disposed exactly when it existed and all buckets are empty; a light once per bucket is in none afterwards |
| Lights.Light2D.GetPointLights | com.unity.render-pipelines.lightweight/Runtime/2D/Light2D.cs:724-727 | the point bucket is always empty, since no LightOperation names it |
| Lights.Light2D.SetupCulling | com.unity.render-pipelines.lightweight/Runtime/2D/Light2D.cs:282-310 | no effect without a culling group; otherwise the group targets the camera and gets one slot per bucket entry, the live lights take consecutive distinct indices in bucket-major order and own the slots of those numbers |
| Lights.Light2D.CountLights | com.unity.render-pipelines.lightweight/Runtime/2D/Light2D.cs:289-291 | the total number of bucket entries |
| Lights.Light2D.NumberLights | com.unity.render-pipelines.lightweight/Runtime/2D/Light2D.cs:293-307 | the nested loops leave the sphere array and the culling indices as the bucket-major walk specifies |
| Lights.Light2D.NumberBucket | com.unity.render-pipelines.lightweight/Runtime/2D/Light2D.cs:298-306 | the inner loop numbers one bucket's entries, continuing the walk from where it stood |
| Lights.Light2D.NumberEntry | com.unity.render-pipelines.lightweight/Runtime/2D/Light2D.cs:300-305 | a live light writes its sphere to the next slot and takes that number; a dead entry is skipped |
| Lights.Light2D.IsLightVisible | com.unity.render-pipelines.lightweight/Runtime/2D/Light2D.cs:853-861 | visible exactly when active and enabled, and either there is no culling group or the group reports the light's culling index visible, and in the editor the camera renders the light; fail-open without a group |
| Lights.Light2D.IsLitLayer | com.unity.render-pipelines.lightweight/Runtime/2D/Light2D.cs:680-683 | a layer is lit exactly when it is among the sorting layers; a null array lights nothing |
| Lights.Light2D.CheckForColorChange | com.unity.render-pipelines.lightweight/Runtime/2D/Light2D.cs:766-771 | reports a change exactly when the colours differ or one has a NaN channel; the snapshot takes the current value |
| Lights.Light2D.CheckForVector2Change | com.unity.render-pipelines.lightweight/Runtime/2D/Light2D.cs:773-778 | reports a change exactly when the vectors differ or one has a NaN component; the snapshot takes the current value |
| Lights.Light2D.CheckForSpriteChange | com.unity.render-pipelines.lightweight/Runtime/2D/Light2D.cs:780-795 | both null is no change, exactly one null is a change, two sprites differ by instance id; the snapshot takes the current value |
| Lights.Light2D.CheckForChangeInt | com.unity.render-pipelines.lightweight/Runtime/2D/Light2D.cs:797-802 | an int change is reported exactly when the values differ; the snapshot takes the current value |
| Lights.Light2D.CheckForChangeFloat | com.unity.render-pipelines.lightweight/Runtime/2D/Light2D.cs:797-802 | a float change is reported exactly when the values differ under CompareTo, NaN equal to NaN |
| Lights.Light2D.GetShapePathHash | com.unity.render-pipelines.lightweight/Runtime/2D/Light2D.cs:373-391 | the loop computes 0 for a null path and the FNV fold over the points otherwise |
| Lights.Light2D.PathEditTriggersRebuild | com.unity.render-pipelines.lightweight/Runtime/2D/Light2D.cs:830-839 | in the editor, editing one point of the path so that its hash changes always triggers a mesh rebuild |
| Lights.Light2D.MeshRequest | com.unity.render-pipelines.lightweight/Runtime/2D/Light2D.cs:648-678 | the freeform generator runs exactly for a parametric freeform shape light, the sprite generator exactly for a sprite-cookie shape light, the parametric one otherwise |
| Lights.Light2D.ShapeMeshArguments | com.unity.render-pipelines.lightweight/Runtime/2D/Light2D.cs:655-669 | a shape light's generator call: the parametric one with radius 0.5, the light's offset, sides, feathering, colour and volume opacity; the sprite one with the cookie sprite, colour, volume opacity and scale 1; or the freeform builder with the colour |
| Lights.Light2D.PointMeshIgnoresShapeSettings | com.unity.render-pipelines.lightweight/Runtime/2D/Light2D.cs:671-674 | a point light's mesh is the four-sided parametric one of radius 1.412135 with no offset or feathering; only colour and volume opacity reach it |
| Lights.Light2D.UpdateFeatheredShapeLightMesh | com.unity.render-pipelines.lightweight/Runtime/2D/Light2D.cs:396-430 | the feathered contour of the first contourPointCount points, at most one vertex per point |
| Lights.Light2D.FeatherCandidate | com.unity.render-pipelines.lightweight/Runtime/2D/Light2D.cs:399-426 | one turn of the feather loop: the feather vertex of point i from its cyclic neighbours, or none when it is skipped |
| Lights.Light2D.UpdateShapeLightMesh | com.unity.render-pipelines.lightweight/Runtime/2D/Light2D.cs:438-511 | the mesh and bounds become the assembled freeform mesh, or the method throws (null path, empty path, a skipped feather vertex, null mesh) and leaves both as they were |
| Lights.Light2D.ContourInputs | com.unity.render-pipelines.lightweight/Runtime/2D/Light2D.cs:443-446 | the path as a contour, every vertex in the feather colour |
| Lights.Light2D.FeatherRing | com.unity.render-pipelines.lightweight/Runtime/2D/Light2D.cs:454-474 | one feather quad per edge and the interior contour, or the exception the indexing raises for an empty path or a skipped feather vertex |
| Lights.Light2D.VolumeColors | com.unity.render-pipelines.lightweight/Runtime/2D/Light2D.cs:499-501 | one volume value `(1, 1, 1, m_LightVolumeOpacity)` per vertex |
| Lights.Light2D.GetMesh | com.unity.render-pipelines.lightweight/Runtime/2D/Light2D.cs:648-678 | with a mesh present and no force, nothing changes; otherwise the mesh is created if needed and the selected generator's build is stored |
| Lights.Light2D.UpdateMesh | com.unity.render-pipelines.lightweight/Runtime/2D/Light2D.cs:685-688 | always rebuilds with the selected generator |
| Lights.Light2D.GetMaterial | com.unity.render-pipelines.lightweight/Runtime/2D/Light2D.cs:564-645 | the static slots and the returned material are those of ResolveMaterial, whose choice of slot and fill rules ResolveMaterialResult and ResolveMaterialKeepsCache state |
| Lights.Light2D.GetVolumeMaterial | com.unity.render-pipelines.lightweight/Runtime/2D/Light2D.cs:513-562 | the static slots and the returned volume material are those of ResolveVolumeMaterial, stated by ResolveVolumeMaterialContract |
| Lights.Light2D.UpdateMaterial | com.unity.render-pipelines.lightweight/Runtime/2D/Light2D.cs:690-698 | the five slots are cleared, then GetMaterial refills |
| Lights.Light2D.ReorderOnOrderChange | com.unity.render-pipelines.lightweight/Runtime/2D/Light2D.cs:806-812 | a shape light is re-inserted by order exactly when its order changed; the order snapshot is refreshed either way |
| Lights.Light2D.Reinsert | com.unity.render-pipelines.lightweight/Runtime/2D/Light2D.cs:810-811 | the light is removed from its bucket and sorted-inserted back |
| Lights.Light2D.DetectMeshChange | com.unity.render-pipelines.lightweight/Runtime/2D/Light2D.cs:822-834 | every mesh check runs and refreshes its snapshot; a rebuild is due exactly when any of them (or the editor path hash) saw a change |
| Lights.Light2D.RebuildOnChange | com.unity.render-pipelines.lightweight/Runtime/2D/Light2D.cs:822-839 | the mesh checks, then the rebuild exactly when one saw a change |
| Lights.Light2D.RefreshMaterialOnSpriteChange | com.unity.render-pipelines.lightweight/Runtime/2D/Light2D.cs:841-847 | the materials are reset exactly when the cookie sprite identity changed; the sprite snapshot is refreshed |
| Lights.Light2D.SortAndRebuild | com.unity.render-pipelines.lightweight/Runtime/2D/Light2D.cs:806-839 | the sorting step and the mesh step, leaving the material and registry fields alone |
| Lights.Light2D.ReapplyTypeAndOperation | com.unity.render-pipelines.lightweight/Runtime/2D/Light2D.cs:849-850 | re-applying the current type and operation keeps both fields, refreshes their snapshots, and moves the light as the two update methods do |
| Lights.Light2D.FinishFrame | com.unity.render-pipelines.lightweight/Runtime/2D/Light2D.cs:841-850 | the material step, then the projection type and operation are re-applied |
| Lights.Light2D.LateUpdate | com.unity.render-pipelines.lightweight/Runtime/2D/Light2D.cs:804-851 | every snapshot refreshes; reorder, mesh rebuild and material reset happen exactly when their snapshots changed; a throwing rebuild ends the frame; the designer-facing fields are left as they were |
| Lights.LightRegistry.constructor | com.unity.render-pipelines.lightweight/Runtime/2D/Light2D.cs:80 | the static initialiser gives four empty buckets and no culling group |
| Lights.MaterialCache.constructor | com.unity.render-pipelines.lightweight/Runtime/2D/Light2D.cs:71-78 | every material slot starts null |
| Lights.MaterialCache.Fill | com.unity.render-pipelines.lightweight/Runtime/2D/Light2D.cs:571-582 | the lazy fill of one slot: a fresh material when empty and the shader exists, a log line when the shader is missing |
| Lights.MaterialCache.Get | com.unity.render-pipelines.lightweight/Runtime/2D/Light2D.cs:598-601 | reading a slot gives its material or null |
| Lights.MaterialCache.Clear | com.unity.render-pipelines.lightweight/Runtime/2D/Light2D.cs:692 | nulling a slot removes only that slot |

## Left out

- `Vector3.GetHashCode` is a parameter, so which distinct points it maps to the same hash is not modelled. Under any such collision, `SinglePointEditHashIff` shows that the path hash is unchanged and the edit triggers no rebuild.
- `GetBoundingSphere` computes a sphere from the transform and `m_LocalBounds` in floating point. A sphere slot records only which light's sphere it holds.
- `Awake`, which turns the spline into a path and sets a default square path, is spline and serialization plumbing.
- The point-light angle, radius, distance and quality fields and `m_Spline`/`m_SplineHash` are plain accessors that no modelled operation reads.
- `GetLightProjectionType` and the property accessors are plain getters and setters. The `lightOperation` and `LightProjectionType` setters are `UpdateLightOperation` and `UpdateLightProjectionType`.
- `Lights.Light2D.GetShapeLights` returns a bucket. It has no property beyond that, so there is no row for it.
- Event wiring (`RenderPipeline.beginCameraRendering`), `CullingGroup.Dispose`, gizmos and `StageUtility` are engine and editor plumbing. The group's lifetime is `Some`/`None`, and the editor test is a parameter.
- Floats are exact reals or NaN: single-precision rounding and the infinities are not modelled. The change checks only compare for equality, and an infinity compares like any other value under both `!=` and `CompareTo`.
- Floating-point geometry is out: edge lengths, normals and bisectors in the feather walk are the `Geometry` oracles, and only the skip rule and the cyclic indexing are kept.
- LibTessDotNet is the `Tessellator` function. `MeshColours` assumes it passes on its inputs' vertex data, as `InterpCustomVertexData` does for the vertices it creates.
- `LightUtility.GenerateParametricMesh`, `GenerateSpriteMesh` and `CalculateBoundingSphere` are not part of this model. The model records which generator is called, with which arguments, and the bounds the `Engine` returns.
- `Shader.Find`, `new Material`, `SetTexture` and `Debug.LogError` are modelled as follows: a set of shader names, a fresh handle drawn from a counter, a `mainTex` field and an appended log line.
- PathHash: a 32-bit value is its unsigned bit pattern, an integer in [0, 2^32). Unchecked multiplication is the explicit `% 2^32` and `^` is a bitwise exclusive or written out bit by bit, giving the same values as 32-bit arithmetic.
- Enumerations are limited to their declared values. A `LightOperation` outside 0..2, or another cookie style cast from an int, is not modelled.
- Unity's truthiness of a destroyed cookie sprite or texture is not modelled. A sprite is either absent or present, with an optional texture.
- Lights.Light2D.UpdateFeatheredShapeLightMesh: requires `contourPointCount <= |contourPoints|`, since its only caller passes the array's length. A larger count, which would throw, is not modelled.
- Lights.Light2D.FeatherRing: requires at most one feather vertex per path point, which `UpdateFeatheredShapeLightMesh` guarantees.
- Lights.Light2D.SetupCulling: the consecutive-numbering property (`LiveLightsNumbered`) is stated only when no light is listed twice. With duplicates the contract gives the exact last-occurrence numbering (`IndicesAssigned`) instead.
- Concurrency is not modelled: Unity calls these methods on the main thread.
