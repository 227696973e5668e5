/** The record types shared by the clustered-lighting passes (ClusterBase.cs)
    and the search that sizes their screen-space tiles: the number of thread
    groups is fixed first, then the tile size is doubled until the groups
    cover the screen extent. */
module ClusterBase {

  /** A C# `int`: every intermediate value must stay in this range. */
  newtype int32 = x: int | -0x8000_0000 <= x < 0x8000_0000

  // ---------------------------------------------------------------------
  // Records (lines 13-33)

  datatype Vec3 = Vec3(x: real, y: real, z: real)

  function Dot(a: Vec3, b: Vec3): real
  {
    a.x * b.x + a.y * b.y + a.z * b.z
  }

  datatype Color = Color(r: real, g: real, b: real, a: real)

  /** A plane by its normal and its distance from the origin along the
      normal: point `q` is on its inner side when `Dot(normal, q) + dis2Origin >= 0`. */
  datatype Plane = Plane(normal: Vec3, dis2Origin: real)

  /** The six faces of a view frustum. */
  datatype Frustum = Frustum(top: Plane, down: Plane, left: Plane, right: Plane, forward: Plane, back: Plane)

  /** One light as the culling shaders see it; `range` 0 marks a
      directional light. */
  datatype LightInfo = LightInfo(color: Color, pos: Vec3, range: real)

  /** The all-zero `LightInfo` a cleared array holds. */
  const DefaultLightInfo := LightInfo(Color(0.0, 0.0, 0.0, 0.0), Vec3(0.0, 0.0, 0.0), 0.0)

  // ---------------------------------------------------------------------
  // Tile size search (lines 78-88)

  /** `t` doubled `k` times. */
  function Doubled(t: int, k: nat): int
  {
    if k == 0 then t else 2 * Doubled(t, k - 1)
  }

  /** `span` groups of tiles of size `t` cover an extent of `total`. */
  predicate Covers(total: int, span: int, t: int)
  {
    total <= span * t
  }

  /** The tile size the doubling loop stops at, starting from `t`, where
      `span` is `baseSize * groupCount`. In exact arithmetic the loop ends
      only when the start already covers or both factors are positive. */
  function TileSizeFor(total: int, span: int, t: int): int
    requires Covers(total, span, t) || (0 < span && 0 < t)
    decreases if Covers(total, span, t) then 0 else total - span * t
  {
    if Covers(total, span, t) then t
    else
      assert span * (2 * t) == 2 * (span * t);
      TileSizeFor(total, span, 2 * t)
  }

  lemma {:induction false} DoubledShift(t: int, k: nat)
    ensures Doubled(2 * t, k) == Doubled(t, k + 1)
  {
    if k > 0 {
      DoubledShift(t, k - 1);
    }
  }

  /** Doubling a positive size makes it grow. */
  lemma {:induction false} DoubledGrows(t: int, k: nat)
    requires 0 < t
    ensures t <= Doubled(t, k)
  {
    if k > 0 {
      DoubledGrows(t, k - 1);
    }
  }

  /** The final tile size covers the extent. */
  lemma {:induction false} TileSizeCovers(total: int, span: int, t: int)
    requires Covers(total, span, t) || (0 < span && 0 < t)
    ensures Covers(total, span, TileSizeFor(total, span, t))
    decreases if Covers(total, span, t) then 0 else total - span * t
  {
    if !Covers(total, span, t) {
      assert span * (2 * t) == 2 * (span * t);
      TileSizeCovers(total, span, 2 * t);
    }
  }

  /** The final tile size is the start doubled some number of times. */
  lemma {:induction false} TileSizeIsDoubling(total: int, span: int, t: int)
    requires Covers(total, span, t) || (0 < span && 0 < t)
    ensures exists k: nat :: TileSizeFor(total, span, t) == Doubled(t, k)
    decreases if Covers(total, span, t) then 0 else total - span * t
  {
    if Covers(total, span, t) {
      assert TileSizeFor(total, span, t) == Doubled(t, 0);
    } else {
      assert span * (2 * t) == 2 * (span * t);
      TileSizeIsDoubling(total, span, 2 * t);
      var k: nat :| TileSizeFor(total, span, 2 * t) == Doubled(2 * t, k);
      DoubledShift(t, k);
    }
  }

  /** The final tile size is the least doubling that covers: a start that
      covers is kept, every smaller doubling of the start falls short, and in
      particular half the final size does unless no doubling happened. */
  lemma {:induction false} TileSizeMinimal(total: int, span: int, t: int)
    requires 0 < t && (Covers(total, span, t) || 0 < span)
    ensures var r := TileSizeFor(total, span, t);
      && (Covers(total, span, t) ==> r == t)
      && (r == t || !Covers(total, span, r / 2))
      && (forall k: nat :: Doubled(t, k) < r ==> !Covers(total, span, Doubled(t, k)))
    decreases if Covers(total, span, t) then 0 else total - span * t
  {
    var r := TileSizeFor(total, span, t);
    if Covers(total, span, t) {
      forall k: nat
        ensures t <= Doubled(t, k)
      {
        DoubledGrows(t, k);
      }
    } else {
      assert span * (2 * t) == 2 * (span * t);
      TileSizeMinimal(total, span, 2 * t);
      assert r == TileSizeFor(total, span, 2 * t);
      forall k: nat | Doubled(t, k) < r
        ensures !Covers(total, span, Doubled(t, k))
      {
        if k > 0 {
          DoubledShift(t, k - 1);
        }
      }
    }
  }

  /** One doubling doubles the covered extent, and a positive tile size is
      at most the extent it covers. */
  lemma DoubleStep(span: int, t: int)
    requires 0 < span && 0 < t
    ensures span * (2 * t) == 2 * (span * t) && t <= span * t
  {
  }

  /** `baseSize` groups of `maxGroupCount / baseSize` fit in `maxGroupCount`. */
  lemma GroupSpan(maxGroupCount: int, baseSize: int)
    requires 0 < baseSize && 0 <= maxGroupCount
    ensures 0 <= baseSize * (maxGroupCount / baseSize) <= maxGroupCount
  {
    assert maxGroupCount == baseSize * (maxGroupCount / baseSize) + maxGroupCount % baseSize;
  }

  /** The tile size search. `groupCount` is the largest group count the
      base size allows; the initial tile size is then doubled until
      `baseSize * groupCount * tileSize` reaches `totleSize`.
      The caller must make the loop end (a group count of at least one and a
      positive tile size, unless the start already covers) and keep the
      products inside a C# `int`. */
  method CountPerTileSize(totleSize: int32, baseSize: int32, maxGroupCount: int32, initialTileSize: int32)
    returns (tileSize: int32, groupCount: int32)
    requires 0 < baseSize && 0 <= maxGroupCount && totleSize <= 0x4000_0000
    requires -0x8000_0000 <= baseSize as int * (maxGroupCount / baseSize) as int * initialTileSize as int < 0x8000_0000
    requires var span := baseSize as int * (maxGroupCount / baseSize) as int;
      Covers(totleSize as int, span, initialTileSize as int) || (0 < span && 0 < initialTileSize)
    ensures groupCount == maxGroupCount / baseSize
    ensures tileSize as int == TileSizeFor(totleSize as int, baseSize as int * groupCount as int, initialTileSize as int)
  {
    groupCount := maxGroupCount / baseSize;
    ghost var span := baseSize as int * groupCount as int;
    GroupSpan(maxGroupCount as int, baseSize as int);
    tileSize := initialTileSize;
    while totleSize > baseSize * groupCount * tileSize
      invariant -0x8000_0000 <= span * tileSize as int < 0x8000_0000
      invariant Covers(totleSize as int, span, tileSize as int) || (0 < span && 0 < tileSize)
      invariant TileSizeFor(totleSize as int, span, tileSize as int) ==
                TileSizeFor(totleSize as int, span, initialTileSize as int)
      decreases totleSize as int - span * tileSize as int
    {
      DoubleStep(span, tileSize as int);
      tileSize := tileSize * 2;  // tileSize <<= 1
    }
  }

  /** The screen sizes the Z-bin pass is built for: with base size 8 and at
      most 32 groups there are 4 groups, and both a 1920 and a 1080 pixel
      extent get 64-pixel tiles from a start of 8. */
  lemma ScreenExample()
    ensures 32 / 8 == 4
    ensures TileSizeFor(1920, 8 * 4, 8) == 64
    ensures TileSizeFor(1080, 8 * 4, 8) == 64
  {
  }
}
