/** The CPU side of the compute-shader light culling pass with Z-bins
    (ClusterLightZbinPlus.cs): the sizes of its buffers, fixed when it is
    built, the staging of the frame's visible lights into a fixed array of
    32 `LightInfo` slots, and the sphere/frustum test the culling uses. */
module ClusterLightZbin {
  import opened ClusterBase

  /** Threads per compute group along x and along y (`m_CSThreadCount`). */
  const ThreadCountX: int32 := 8
  const ThreadCountY: int32 := 8

  /** Capacity of the light array (`m_MaxLightCount`). */
  const MaxLightCount: int32 := 32

  /** Upper bounds on the group counts (`m_MaxTileCountX/Y`). */
  const MaxTileCountX: int32 := 32
  const MaxTileCountY: int32 := 32

  /** Number of Z-bins (the initial value of `m_zbinCount`). */
  const ZbinCount: int32 := 32

  // ---------------------------------------------------------------------
  // Visible lights

  datatype LightType = Spot | Directional | Point | Rectangle | Disc

  /** The parts of Unity's `VisibleLight` the staging reads: the light's
      position, its final colour, its type and its range. */
  datatype VisibleLight = VisibleLight(position: Vec3, finalColor: Color, lightType: LightType, range: real)

  /** The `LightInfo` staged for one visible light (lines 126-131). */
  function LightInfoOf(v: VisibleLight): LightInfo
  {
    LightInfo(v.finalColor, v.position, if v.lightType == Directional then 0.0 else v.range)
  }

  /** A staged light keeps its position and colour, and its range reads 0
      exactly for directional lights, provided every other light has a
      positive range. */
  lemma StagedLightDecodes(v: VisibleLight)
    requires v.lightType != Directional ==> v.range > 0.0
    ensures LightInfoOf(v).pos == v.position && LightInfoOf(v).color == v.finalColor
    ensures LightInfoOf(v).range == 0.0 <==> v.lightType == Directional
    ensures v.lightType != Directional ==> LightInfoOf(v).range == v.range
  {
  }

  /** Without that proviso the staged range is ambiguous: a point, spot or
      area light of range 0 is staged exactly as a directional light with
      the same position and colour. */
  lemma ZeroRangeLooksDirectional(v: VisibleLight, range: real)
    requires v.lightType != Directional && v.range == 0.0
    ensures LightInfoOf(v) == LightInfoOf(VisibleLight(v.position, v.finalColor, Directional, range))
  {
  }

  // ---------------------------------------------------------------------
  // Sphere against frustum (lines 269-288)

  /** Signed distance of `q` from the plane, positive on the inner side. */
  function SignedDistance(p: Plane, q: Vec3): real
  {
    Dot(p.normal, q) + p.dis2Origin
  }

  /** The frustum's faces in the order the test visits them. */
  function Faces(f: Frustum): (faces: seq<Plane>)
    ensures |faces| == 6
    ensures faces[0] == f.top && faces[1] == f.down && faces[2] == f.left
    ensures faces[3] == f.right && faces[4] == f.forward && faces[5] == f.back
  {
    [f.top, f.down, f.left, f.right, f.forward, f.back]
  }

  /** The conservative culling test (lines 269-288, without the log call):
      the sphere is kept unless its centre lies more than `radius` outside
      one of the planes. */
  function IntersectSphere(center: Vec3, radius: real, frustum: Frustum): bool
  {
    var dis0 := Dot(frustum.top.normal, center) + frustum.top.dis2Origin;
    var dis1 := Dot(frustum.down.normal, center) + frustum.down.dis2Origin;
    var dis2 := Dot(frustum.left.normal, center) + frustum.left.dis2Origin;
    var dis3 := Dot(frustum.right.normal, center) + frustum.right.dis2Origin;
    var dis4 := Dot(frustum.forward.normal, center) + frustum.forward.dis2Origin;
    var dis5 := Dot(frustum.back.normal, center) + frustum.back.dis2Origin;
    var ret0 := true;
    var ret1 := ret0 && dis0 >= -radius;
    var ret2 := ret1 && dis1 >= -radius;
    var ret3 := ret2 && dis2 >= -radius;
    var ret4 := ret3 && dis3 >= -radius;
    var ret5 := ret4 && dis4 >= -radius;
    var ret6 := ret5 && dis5 >= -radius;
    ret6
  }

  /** The test keeps the sphere exactly when no face has the centre more
      than `radius` outside it. */
  lemma IntersectSphereAllPlanes(center: Vec3, radius: real, frustum: Frustum)
    ensures IntersectSphere(center, radius, frustum) <==>
      forall i | 0 <= i < 6 :: SignedDistance(Faces(frustum)[i], center) >= -radius
  {
    var faces := Faces(frustum);
    assert faces == [frustum.top, frustum.down, frustum.left, frustum.right, frustum.forward, frustum.back];
  }

  /** A single plane with the centre more than `radius` outside it culls the
      light. */
  lemma PlaneRejects(center: Vec3, radius: real, frustum: Frustum, i: int)
    requires 0 <= i < 6 && SignedDistance(Faces(frustum)[i], center) < -radius
    ensures !IntersectSphere(center, radius, frustum)
  {
    IntersectSphereAllPlanes(center, radius, frustum);
  }

  function Sub(a: Vec3, b: Vec3): Vec3
  {
    Vec3(a.x - b.x, a.y - b.y, a.z - b.z)
  }

  /** The squared length of `v`. */
  function LengthSq(v: Vec3): real
  {
    Dot(v, v)
  }

  /** Cauchy-Schwarz in three dimensions, by Lagrange's identity. */
  lemma CauchySchwarz(a: Vec3, b: Vec3)
    ensures Dot(a, b) * Dot(a, b) <= LengthSq(a) * LengthSq(b)
  {
    var cx, cy, cz := a.y * b.z - a.z * b.y, a.z * b.x - a.x * b.z, a.x * b.y - a.y * b.x;
    assert LengthSq(a) * LengthSq(b) - Dot(a, b) * Dot(a, b) == cx * cx + cy * cy + cz * cz;
  }

  lemma PositiveProduct(a: real, b: real)
    requires 0.0 < a && 0.0 < b
    ensures 0.0 < a * b
  {
  }

  /** A value whose square is at most `r * r` is at most `r`. */
  lemma SquareBound(x: real, r: real)
    requires 0.0 <= r && x * x <= r * r
    ensures x <= r
  {
    if x > r {
      PositiveProduct(x - r, x + r);
    }
  }

  /** The test never culls a light that reaches into the frustum: when the
      planes have unit normals and some point inside every plane lies within
      `radius` of the centre, the sphere is kept. */
  lemma IntersectSphereConservative(center: Vec3, radius: real, frustum: Frustum, q: Vec3)
    requires 0.0 <= radius
    requires forall i | 0 <= i < 6 :: LengthSq(Faces(frustum)[i].normal) == 1.0
    requires forall i | 0 <= i < 6 :: SignedDistance(Faces(frustum)[i], q) >= 0.0
    requires LengthSq(Sub(q, center)) <= radius * radius
    ensures IntersectSphere(center, radius, frustum)
  {
    forall i | 0 <= i < 6
      ensures SignedDistance(Faces(frustum)[i], center) >= -radius
    {
      var n := Faces(frustum)[i].normal;
      var d := Sub(q, center);
      CauchySchwarz(n, d);
      SquareBound(Dot(n, d), radius);
      assert SignedDistance(Faces(frustum)[i], center) == SignedDistance(Faces(frustum)[i], q) - Dot(n, d);
    }
    IntersectSphereAllPlanes(center, radius, frustum);
  }

  // ---------------------------------------------------------------------
  // The pass object

  class ClusterLightZbinPlus {
    /** Tile size in pixels and number of compute groups, per screen axis
        (`m_perTileSizeX/Y`, `m_groupCountX/Y`). */
    const perTileSizeX: int32
    const perTileSizeY: int32
    const groupCountX: int32
    const groupCountY: int32

    /** Element counts of the frustum, light, tile and Z-bin buffers. */
    const frustumBufferCount: int32
    const lightBufferCount: int32
    const tileBufferCount: int32
    const zbinBufferCount: int32

    /** `m_zbinCount`. */
    const zbinCount: int32

    /** `m_lights`: the staging array, one slot per possible light. */
    const lights: array<LightInfo>

    /** `m_lightCount`: how many slots hold this frame's lights. */
    var lightCount: int32

    predicate Valid()
      reads this
    {
      && lights.Length == MaxLightCount as int
      && 0 <= lightCount <= MaxLightCount
      && 0 < zbinCount && zbinCount % 8 == 0
    }

    /** Builds the pass for a camera of `pixelWidth` by `pixelHeight` pixels
        (lines 47-73, without the shader and buffer objects): the group
        counts and tile sizes come from the tile size search, the frustum
        and tile buffers hold one element per tile thread, and the light
        array starts cleared. */
    constructor(pixelWidth: int32, pixelHeight: int32)
      requires pixelWidth <= 0x4000_0000 && pixelHeight <= 0x4000_0000
      ensures Valid() && fresh(lights)
      ensures groupCountX == 4 && groupCountY == 4
      ensures perTileSizeX as int == TileSizeFor(pixelWidth as int, 32, 8)
      ensures perTileSizeY as int == TileSizeFor(pixelHeight as int, 32, 8)
      ensures pixelWidth as int <= groupCountX as int * ThreadCountX as int * perTileSizeX as int
      ensures pixelHeight as int <= groupCountY as int * ThreadCountY as int * perTileSizeY as int
      ensures frustumBufferCount == 1024 && tileBufferCount == 1024
      ensures lightBufferCount == MaxLightCount && zbinBufferCount == 32 && zbinCount == 32
      ensures lightCount == 0
      ensures forall i | 0 <= i < lights.Length :: lights[i] == DefaultLightInfo
    {
      var tileX, groupsX := CountPerTileSize(pixelWidth, ThreadCountX, MaxTileCountX, 8);
      var tileY, groupsY := CountPerTileSize(pixelHeight, ThreadCountY, MaxTileCountY, 8);
      TileSizeCovers(pixelWidth as int, 32, 8);
      TileSizeCovers(pixelHeight as int, 32, 8);
      perTileSizeX, groupCountX := tileX, groupsX;
      perTileSizeY, groupCountY := tileY, groupsY;
      var bufferCount := groupsX * ThreadCountX * groupsY * ThreadCountY;
      frustumBufferCount := bufferCount;
      zbinCount := ZbinCount;
      lights := new LightInfo[MaxLightCount](_ => DefaultLightInfo);
      lightBufferCount := MaxLightCount;
      tileBufferCount := bufferCount;
      zbinBufferCount := ZbinCount;
      lightCount := 0;
    }

    /** Number of groups the Z-bin culling kernel is dispatched with
        (line 157): `m_zbinCount / 8`, which divides exactly. */
    function ZbinDispatchGroups(): (groups: int32)
      requires Valid()
      reads this
      ensures 0 < groups && groups as int * 8 == zbinCount as int
    {
      zbinCount / 8
    }

    /** Stages the frame's visible lights (lines 119-134, without the upload
        to the GPU buffer): the array is cleared, then slot `i` receives
        light `i`. Slots past the last light hold the zero `LightInfo`. */
    method PrepareLights(visible: seq<VisibleLight>)
      requires Valid() && |visible| <= MaxLightCount as int
      modifies this, lights
      ensures Valid()
      ensures lightCount as int == |visible|
      ensures forall i | 0 <= i < |visible| :: lights[i] == LightInfoOf(visible[i])
      ensures forall i | |visible| <= i < lights.Length :: lights[i] == DefaultLightInfo
    {
      lightCount := |visible| as int32;
      forall i | 0 <= i < MaxLightCount as int {
        lights[i] := DefaultLightInfo;
      }
      var i: int32 := 0;
      while i < lightCount
        modifies lights
        invariant 0 <= i <= lightCount
        invariant forall j | 0 <= j < i as int :: lights[j] == LightInfoOf(visible[j])
        invariant forall j | i as int <= j < lights.Length :: lights[j] == DefaultLightInfo
      {
        lights[i] := LightInfoOf(visible[i]);
        i := i + 1;
      }
    }
  }

  /** The pass built for a 1920 by 1080 camera: 4 by 4 groups of 64-pixel
      tiles, 1024 tile threads, 32 Z-bins in 4 groups of 8. */
  method ScreenSizes() returns (pass: ClusterLightZbinPlus)
    ensures pass.perTileSizeX == 64 && pass.perTileSizeY == 64
    ensures pass.groupCountX == 4 && pass.groupCountY == 4
    ensures pass.frustumBufferCount == 1024 && pass.zbinBufferCount == 32
    ensures pass.Valid() && pass.ZbinDispatchGroups() == 4
  {
    ScreenExample();
    pass := new ClusterLightZbinPlus(1920, 1080);
  }
}
