/**
 * The eight static material slots of Light2D and how GetMaterial,
 * GetVolumeMaterial and UpdateMaterial fill, pick and clear them. Shader.Find is
 * the set of shader names the project contains; `new Material` is a fresh handle
 * drawn from a counter; Debug.LogError appends to a log.
 */
module Materials {
  import opened Values

  /** The static material fields, one per slot. */
  datatype Slot =
    | PointLight | PointLightVolume
    | ShapeCookieSpriteAlphaBlend | ShapeCookieSpriteAdditive | ShapeCookieSpriteVolume
    | ShapeVertexColoredAlphaBlend | ShapeVertexColoredAdditive | ShapeVertexColoredVolume

  /** The shader each slot's material is made from. */
  function ShaderName(s: Slot): string {
    match s
    case PointLight => "Hidden/Light2D-Point"
    case PointLightVolume => "Hidden/Light2d-Point-Volumetric"
    case ShapeCookieSpriteAlphaBlend => "Hidden/Light2D-Sprite-Superimpose"
    case ShapeCookieSpriteAdditive => "Hidden/Light2D-Sprite-Additive"
    case ShapeCookieSpriteVolume => "Hidden/Light2d-Sprite-Volumetric"
    case ShapeVertexColoredAlphaBlend => "Hidden/Light2D-Shape-Superimpose"
    case ShapeVertexColoredAdditive => "Hidden/Light2D-Shape-Additive"
    case ShapeVertexColoredVolume => "Hidden/Light2d-Shape-Volumetric"
  }

  /** What is logged when a slot's shader is missing; the point volume slot logs nothing. */
  function MissingShaderLog(s: Slot): seq<string> {
    match s
    case PointLight => ["Missing shader Light2D-Point"]
    case PointLightVolume => []
    case ShapeCookieSpriteAlphaBlend => ["Missing shader Light2d-Sprite-Superimpose"]
    case ShapeCookieSpriteAdditive => ["Missing shader Light2d-Sprite-Additive"]
    case ShapeCookieSpriteVolume => ["Missing shader Light2d-Sprite-Volumetric"]
    case ShapeVertexColoredAlphaBlend => ["Missing shader Light2d-Shape-Superimpose"]
    case ShapeVertexColoredAdditive => ["Missing shader Light2d-Shape-Additive"]
    case ShapeVertexColoredVolume => ["Missing shader Light2d-Shape-Volumetric"]
  }

  predicate IsSpriteSlot(s: Slot) {
    s == ShapeCookieSpriteAlphaBlend || s == ShapeCookieSpriteAdditive || s == ShapeCookieSpriteVolume
  }

  predicate IsVertexColoredSlot(s: Slot) {
    s == ShapeVertexColoredAlphaBlend || s == ShapeVertexColoredAdditive || s == ShapeVertexColoredVolume
  }

  /** A material handle: its identity, its shader and its _MainTex. */
  datatype Material = Material(id: nat, shader: string, mainTex: Option<Texture>)

  /** The static material state: the filled slots, the next fresh handle, the error log. */
  datatype CacheState = CacheState(slots: map<Slot, Material>, nextId: nat, log: seq<string>)

  /** Every cached material was made from its slot's shader, with a handle already drawn, and no two slots share one. */
  predicate WellFormed(st: CacheState) {
    && (forall s :: s in st.slots ==> st.slots[s].shader == ShaderName(s) && st.slots[s].id < st.nextId)
    && (forall s, t :: s in st.slots && t in st.slots && s != t ==> st.slots[s].id != st.slots[t].id)
  }

  /** The light fields material resolution depends on. */
  datatype MaterialRequest = MaterialRequest(
    projection: LightProjectionType, style: CookieStyle, overlap: LightOverlapMode, sprite: Option<Sprite>)

  /** `m_LightCookieSprite && m_LightCookieSprite.texture != null`. */
  predicate SpriteUsable(sprite: Option<Sprite>) {
    sprite.Some? && sprite.value.texture.Some?
  }

  /**
   * One lazy slot fill: an empty slot gets a fresh material of its shader (with the
   * given texture) when the shader exists, or an error log line when it does not;
   * a filled slot is left alone.
   */
  function FillSlot(st: CacheState, s: Slot, shaders: set<string>, texture: Option<Texture>): CacheState {
    if s in st.slots then st
    else if ShaderName(s) in shaders then
      CacheState(st.slots[s := Material(st.nextId, ShaderName(s), texture)], st.nextId + 1, st.log)
    else
      CacheState(st.slots, st.nextId, st.log + MissingShaderLog(s))
  }

  /** A slot as the C# static field reads: the material, or null. */
  function Lookup(st: CacheState, s: Slot): Option<Material> {
    if s in st.slots then Some(st.slots[s]) else None
  }

  /** The slot GetMaterial returns for the request. */
  function MaterialSlot(req: MaterialRequest): Slot {
    match req.projection
    case Point => PointLight
    case Shape =>
      match req.style
      case SpriteCookie => if req.overlap == Additive then ShapeCookieSpriteAdditive else ShapeCookieSpriteAlphaBlend
      case Parametric => if req.overlap == Additive then ShapeVertexColoredAdditive else ShapeVertexColoredAlphaBlend
  }

  /** The slot GetVolumeMaterial returns for the request. */
  function VolumeMaterialSlot(req: MaterialRequest): Slot {
    match req.projection
    case Point => PointLightVolume
    case Shape =>
      match req.style
      case SpriteCookie => ShapeCookieSpriteVolume
      case Parametric => ShapeVertexColoredVolume
  }

  /** The state after resolution and the material returned. */
  datatype Resolved = Resolved(state: CacheState, material: Option<Material>)

  /** The additive and alpha-blend slots of a shape light's style. */
  function PairOf(style: CookieStyle): (Slot, Slot) {
    match style
    case SpriteCookie => (ShapeCookieSpriteAdditive, ShapeCookieSpriteAlphaBlend)
    case Parametric => (ShapeVertexColoredAdditive, ShapeVertexColoredAlphaBlend)
  }

  /** Two lazy fills in a row, additive slot first. */
  function FillPair(st: CacheState, pair: (Slot, Slot), shaders: set<string>, texture: Option<Texture>): CacheState {
    FillSlot(FillSlot(st, pair.0, shaders, texture), pair.1, shaders, texture)
  }

  /**
   * GetMaterial: a shape light fills both slots of its pair (the sprite pair only with
   * a usable sprite, whose texture they take), then returns the one its overlap mode
   * names; a point light fills and returns the point slot.
   */
  function ResolveMaterial(st: CacheState, req: MaterialRequest, shaders: set<string>): Resolved {
    match req.projection
    case Point =>
      var st1 := FillSlot(st, PointLight, shaders, None);
      Resolved(st1, Lookup(st1, PointLight))
    case Shape =>
      var st2 :=
        match req.style
        case SpriteCookie =>
          if SpriteUsable(req.sprite) then FillPair(st, PairOf(SpriteCookie), shaders, req.sprite.value.texture) else st
        case Parametric => FillPair(st, PairOf(Parametric), shaders, None);
      Resolved(st2, Lookup(st2, MaterialSlot(req)))
  }

  /** GetVolumeMaterial: fills and returns the one volume slot of the request. */
  function ResolveVolumeMaterial(st: CacheState, req: MaterialRequest, shaders: set<string>): Resolved {
    var s := VolumeMaterialSlot(req);
    var st1 :=
      if req.projection == Shape && req.style == SpriteCookie then
        (if SpriteUsable(req.sprite) then FillSlot(st, s, shaders, req.sprite.value.texture) else st)
      else FillSlot(st, s, shaders, None);
    Resolved(st1, Lookup(st1, s))
  }

  /** The slots UpdateMaterial nulls: the three sprite-cookie slots and the two point slots. */
  predicate ClearedOnUpdate(s: Slot) {
    IsSpriteSlot(s) || s == PointLight || s == PointLightVolume
  }

  /** The slot-clearing half of UpdateMaterial. */
  function ClearCookieAndPointSlots(st: CacheState): (r: CacheState)
    ensures forall s :: s in r.slots <==> s in st.slots && !ClearedOnUpdate(s)
    ensures forall s :: s in r.slots ==> r.slots[s] == st.slots[s]
    ensures r.nextId == st.nextId && r.log == st.log
  {
    CacheState(map s | s in st.slots && !ClearedOnUpdate(s) :: st.slots[s], st.nextId, st.log)
  }

  /**
   * A slot fill keeps the cache well formed, never replaces a cached material,
   * touches no other slot, and leaves the slot filled exactly when it was filled or
   * its shader exists.
   */
  lemma FillSlotKeepsCache(st: CacheState, s: Slot, shaders: set<string>, texture: Option<Texture>)
    requires WellFormed(st)
    ensures var r := FillSlot(st, s, shaders, texture);
      && WellFormed(r) && st.nextId <= r.nextId
      && (forall t :: t in st.slots ==> t in r.slots && r.slots[t] == st.slots[t])
      && (forall t :: t in r.slots && t !in st.slots ==> t == s && r.slots[t].mainTex == texture)
      && (s in r.slots <==> s in st.slots || ShaderName(s) in shaders)
  {
  }

  /** A slot that is filled, or whose shader is missing, stays as it is under FillSlot. */
  predicate Settled(st: CacheState, s: Slot, shaders: set<string>) {
    s in st.slots || ShaderName(s) !in shaders
  }

  /** Filling a settled slot changes no slot and draws no handle. */
  lemma FillSettled(st: CacheState, s: Slot, shaders: set<string>, texture: Option<Texture>)
    requires Settled(st, s, shaders)
    ensures FillSlot(st, s, shaders, texture).slots == st.slots
    ensures FillSlot(st, s, shaders, texture).nextId == st.nextId
  {
  }

  /**
   * Filling a pair keeps the cache well formed, never replaces a cached material,
   * fills nothing outside the pair, gives what it fills the texture, and settles
   * both slots.
   */
  lemma FillPairKeepsCache(st: CacheState, pair: (Slot, Slot), shaders: set<string>, texture: Option<Texture>)
    requires WellFormed(st) && pair.0 != pair.1
    ensures var r := FillPair(st, pair, shaders, texture);
      && WellFormed(r)
      && (forall t :: t in st.slots ==> t in r.slots && r.slots[t] == st.slots[t])
      && (forall t :: t in r.slots && t !in st.slots ==> (t == pair.0 || t == pair.1) && r.slots[t].mainTex == texture)
      && (pair.0 in r.slots <==> pair.0 in st.slots || ShaderName(pair.0) in shaders)
      && (pair.1 in r.slots <==> pair.1 in st.slots || ShaderName(pair.1) in shaders)
      && Settled(r, pair.0, shaders) && Settled(r, pair.1, shaders)
  {
    var st1 := FillSlot(st, pair.0, shaders, texture);
    FillSlotKeepsCache(st, pair.0, shaders, texture);
    FillSlotKeepsCache(st1, pair.1, shaders, texture);
  }

  /** Filling an already settled pair again changes no slot. */
  lemma FillPairSettled(st: CacheState, pair: (Slot, Slot), shaders: set<string>, texture: Option<Texture>)
    requires Settled(st, pair.0, shaders) && Settled(st, pair.1, shaders)
    ensures FillPair(st, pair, shaders, texture).slots == st.slots
    ensures FillPair(st, pair, shaders, texture).nextId == st.nextId
  {
    FillSettled(st, pair.0, shaders, texture);
    FillSettled(FillSlot(st, pair.0, shaders, texture), pair.1, shaders, texture);
  }

  /**
   * GetMaterial keeps the cache well formed and never replaces a cached material;
   * only the slots of the request's own pair can become filled.
   */
  lemma ResolveMaterialKeepsCache(st: CacheState, req: MaterialRequest, shaders: set<string>)
    requires WellFormed(st)
    ensures var r := ResolveMaterial(st, req, shaders);
      && WellFormed(r.state)
      && (forall t :: t in st.slots ==> t in r.state.slots && r.state.slots[t] == st.slots[t])
      && (forall t :: t in r.state.slots && t !in st.slots ==>
            MaterialSlot(req.(overlap := Additive)) == t || MaterialSlot(req.(overlap := AlphaBlend)) == t)
  {
    var r := ResolveMaterial(st, req, shaders);
    match req.projection
    case Point =>
      FillSlotKeepsCache(st, PointLight, shaders, None);
      assert r.state == FillSlot(st, PointLight, shaders, None);
    case Shape =>
      var pair := PairOf(req.style);
      assert MaterialSlot(req.(overlap := Additive)) == pair.0 && MaterialSlot(req.(overlap := AlphaBlend)) == pair.1;
      if req.style == Parametric {
        FillPairKeepsCache(st, pair, shaders, None);
        assert r.state == FillPair(st, pair, shaders, None);
      } else if SpriteUsable(req.sprite) {
        FillPairKeepsCache(st, pair, shaders, req.sprite.value.texture);
        assert r.state == FillPair(st, pair, shaders, req.sprite.value.texture);
      } else {
        assert r.state == st;
      }
  }

  /**
   * GetMaterial returns a material exactly when the selected slot was cached or
   * could be filled, which for a sprite slot needs a usable sprite; what it returns
   * is the selected slot's entry, made from that slot's shader.
   */
  lemma ResolveMaterialResult(st: CacheState, req: MaterialRequest, shaders: set<string>)
    requires WellFormed(st)
    ensures var r := ResolveMaterial(st, req, shaders);
      var s := MaterialSlot(req);
      && (r.material.Some? <==>
            s in st.slots || (ShaderName(s) in shaders && (IsSpriteSlot(s) ==> SpriteUsable(req.sprite))))
      && (r.material.Some? ==> r.material.value.shader == ShaderName(s) && r.material == Lookup(r.state, s))
  {
    var r := ResolveMaterial(st, req, shaders);
    var s := MaterialSlot(req);
    match req.projection
    case Point =>
      FillSlotKeepsCache(st, PointLight, shaders, None);
      assert s == PointLight && !IsSpriteSlot(s);
    case Shape =>
      var pair := PairOf(req.style);
      assert s == if req.overlap == Additive then pair.0 else pair.1;
      if req.style == Parametric {
        FillPairKeepsCache(st, pair, shaders, None);
        assert r.state == FillPair(st, pair, shaders, None) && !IsSpriteSlot(s);
        assert s in r.state.slots <==> s in st.slots || ShaderName(s) in shaders;
      } else if SpriteUsable(req.sprite) {
        FillPairKeepsCache(st, pair, shaders, req.sprite.value.texture);
        assert r.state == FillPair(st, pair, shaders, req.sprite.value.texture);
        assert s in r.state.slots <==> s in st.slots || ShaderName(s) in shaders;
      } else {
        assert r.state == st && IsSpriteSlot(s);
      }
  }

  /** The two halves together: GetMaterial's whole contract on the cache state. */
  lemma ResolveMaterialContract(st: CacheState, req: MaterialRequest, shaders: set<string>)
    requires WellFormed(st)
    ensures var r := ResolveMaterial(st, req, shaders);
      var s := MaterialSlot(req);
      && WellFormed(r.state)
      && (forall t :: t in st.slots ==> t in r.state.slots && r.state.slots[t] == st.slots[t])
      && (forall t :: t in r.state.slots && t !in st.slots ==>
            MaterialSlot(req.(overlap := Additive)) == t || MaterialSlot(req.(overlap := AlphaBlend)) == t)
      && (r.material.Some? <==>
            s in st.slots || (ShaderName(s) in shaders && (IsSpriteSlot(s) ==> SpriteUsable(req.sprite))))
      && (r.material.Some? ==> r.material.value.shader == ShaderName(s) && r.material == Lookup(r.state, s))
  {
    ResolveMaterialKeepsCache(st, req, shaders);
    ResolveMaterialResult(st, req, shaders);
  }

  /**
   * A cookie material made for a usable sprite carries that sprite's texture as
   * _MainTex; vertex-coloured and point materials carry none.
   */
  lemma ResolveMaterialTexture(st: CacheState, req: MaterialRequest, shaders: set<string>)
    requires WellFormed(st)
    requires MaterialSlot(req) !in st.slots
    requires ResolveMaterial(st, req, shaders).material.Some?
    ensures var m := ResolveMaterial(st, req, shaders).material.value;
      m.mainTex == if IsSpriteSlot(MaterialSlot(req)) then req.sprite.value.texture else None
  {
    match req.projection
    case Point =>
    case Shape =>
      var pair := PairOf(req.style);
      if req.style == Parametric {
        FillPairKeepsCache(st, pair, shaders, None);
      } else {
        FillPairKeepsCache(st, pair, shaders, req.sprite.value.texture);
      }
  }

  /**
   * Resolving again changes no slot and returns the same material: the slots are
   * a cache. Only the error log can grow, when a shader is missing.
   */
  lemma ResolveMaterialIdempotent(st: CacheState, req: MaterialRequest, shaders: set<string>)
    requires WellFormed(st)
    ensures var r1 := ResolveMaterial(st, req, shaders);
      var r2 := ResolveMaterial(r1.state, req, shaders);
      r2.state.slots == r1.state.slots && r2.state.nextId == r1.state.nextId && r2.material == r1.material
  {
    var r1 := ResolveMaterial(st, req, shaders);
    match req.projection
    case Point =>
      FillSettled(r1.state, PointLight, shaders, None);
    case Shape =>
      var pair := PairOf(req.style);
      if req.style == Parametric {
        FillPairKeepsCache(st, pair, shaders, None);
        FillPairSettled(r1.state, pair, shaders, None);
      } else if SpriteUsable(req.sprite) {
        FillPairKeepsCache(st, pair, shaders, req.sprite.value.texture);
        FillPairSettled(r1.state, pair, shaders, req.sprite.value.texture);
      }
  }

  /** GetVolumeMaterial returns a material exactly when its slot was cached or could be filled. */
  lemma ResolveVolumeMaterialContract(st: CacheState, req: MaterialRequest, shaders: set<string>)
    requires WellFormed(st)
    ensures var r := ResolveVolumeMaterial(st, req, shaders);
      var s := VolumeMaterialSlot(req);
      && WellFormed(r.state)
      && (forall t :: t in st.slots ==> t in r.state.slots && r.state.slots[t] == st.slots[t])
      && (forall t :: t in r.state.slots && t !in st.slots ==> t == s)
      && (r.material.Some? <==>
            s in st.slots || (ShaderName(s) in shaders && (IsSpriteSlot(s) ==> SpriteUsable(req.sprite))))
      && (r.material.Some? ==> r.material.value.shader == ShaderName(s))
      && (s == PointLightVolume ==> r.state.log == st.log)
  {
    var s := VolumeMaterialSlot(req);
    if req.projection == Shape && req.style == SpriteCookie {
      if SpriteUsable(req.sprite) {
        FillSlotKeepsCache(st, s, shaders, req.sprite.value.texture);
      }
    } else {
      FillSlotKeepsCache(st, s, shaders, None);
    }
  }

  /**
   * UpdateMaterial (clear, then GetMaterial) keeps every cached vertex-coloured
   * material, so a sprite change never rebuilds those.
   */
  lemma UpdateMaterialKeepsVertexColored(st: CacheState, req: MaterialRequest, shaders: set<string>)
    requires WellFormed(st)
    ensures var r := ResolveMaterial(ClearCookieAndPointSlots(st), req, shaders);
      forall t :: t in st.slots && IsVertexColoredSlot(t) ==> t in r.state.slots && r.state.slots[t] == st.slots[t]
  {
    var cleared := ClearCookieAndPointSlots(st);
    var r := ResolveMaterial(cleared, req, shaders);
    assert forall t :: t in cleared.slots ==> t in r.state.slots && r.state.slots[t] == cleared.slots[t] by {
      ClearKeepsWellFormed(st);
      ResolveMaterialKeepsCache(cleared, req, shaders);
    }
    ClearKeepsVertexColored(st);
  }

  /** UpdateMaterial's clearing step leaves the vertex-coloured slots alone. */
  lemma ClearKeepsVertexColored(st: CacheState)
    ensures var cleared := ClearCookieAndPointSlots(st);
      forall t :: t in st.slots && IsVertexColoredSlot(t) ==> t in cleared.slots && cleared.slots[t] == st.slots[t]
  {
  }

  /**
   * After UpdateMaterial no sprite-cookie or point slot is filled except the ones
   * GetMaterial refills for this light.
   */
  lemma UpdateMaterialRefillsOwnPairOnly(st: CacheState, req: MaterialRequest, shaders: set<string>)
    requires WellFormed(st)
    ensures var r := ResolveMaterial(ClearCookieAndPointSlots(st), req, shaders);
      forall t :: t in r.state.slots && ClearedOnUpdate(t) ==>
        t == MaterialSlot(req.(overlap := Additive)) || t == MaterialSlot(req.(overlap := AlphaBlend))
  {
    var cleared := ClearCookieAndPointSlots(st);
    ClearKeepsWellFormed(st);
    ResolveMaterialKeepsCache(cleared, req, shaders);
    var r := ResolveMaterial(cleared, req, shaders);
    forall t | t in r.state.slots && ClearedOnUpdate(t)
      ensures t == MaterialSlot(req.(overlap := Additive)) || t == MaterialSlot(req.(overlap := AlphaBlend))
    {
      assert t !in cleared.slots;
    }
  }

  /** Clearing slots keeps the cache well formed. */
  lemma ClearKeepsWellFormed(st: CacheState)
    requires WellFormed(st)
    ensures WellFormed(ClearCookieAndPointSlots(st))
  {
  }
}
