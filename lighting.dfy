/** Per-vertex lighting of the floor: two point lights, each contributing
    its colour scaled by the clamped dot product of the tangent-space normal
    with the light direction, attenuated by distance; the sum is taken to
    the square root (a cheap gamma) and rounded to a 15-bit colour. */
module Lighting {
  import opened Common
  import opened FixedPoint

  /** A point light: `lightPos` and `lightCol`, in 20.12 fixed point. */
  datatype Light = Light(pos: Vec3, col: Vec3)

  /** The white light (`l1Pos`, `l1Col`) as the program starts; the input
      handling moves it afterwards, so the lighting takes lights as
      parameters. */
  const Light1 := Light(Vec3(-4096, 3172, -4096), Vec3(8192, 8192, 8192))

  /** The red light (`l2Pos`, `l2Col`) as the program starts. */
  const Light2 := Light(Vec3(4096, 4096, 4096), Vec3(8192, 0, 0))

  /** `min(a, b)`. */
  function Min(a: int, b: int): (m: int)
    ensures m <= a && m <= b
    ensures m == a || m == b
  {
    if a < b then a else b
  }

  /** `max(a, b)`. */
  function Max(a: int, b: int): (m: int)
    ensures m >= a && m >= b
    ensures m == a || m == b
  {
    if a > b then a else b
  }

  predicate NonNegative(v: Vec3) {
    v.x >= 0 && v.y >= 0 && v.z >= 0
  }

  /** The lights the program starts with: a white light of twice unit
      intensity above the floor, and a red one; both colours are
      non-negative. */
  lemma InitialLightsNonNegative()
    ensures NonNegative(Light1.col) && NonNegative(Light2.col)
    ensures Light1.col.x == Light1.col.y == Light1.col.z == 2 * One
    ensures Light2.col.x == 2 * One && Light2.col.y == 0 && Light2.col.z == 0
    ensures Light1.pos.y > 0 && Light2.pos.y > 0
  {
  }

  /** `lightPos - (x, y, z)`. */
  function ToLight(light: Light, p: Vec3): (d: Vec3)
    ensures p.x + d.x == light.pos.x && p.y + d.y == light.pos.y && p.z + d.z == light.pos.z
  {
    Vec3(light.pos.x - p.x, light.pos.y - p.y, light.pos.z - p.z)
  }

  /** `dist = dotf32(lightDir, lightDir)`: the squared distance. */
  function Dist(light: Light, p: Vec3): (dist: int)
    ensures dist >= 0
  {
    DotSelfNonNegative(ToLight(light, p));
    DotF32(ToLight(light, p), ToLight(light, p))
  }

  /** The direction divided by `dist`, then with y and z swapped to reach
      tangent space. */
  function TangentDir(light: Light, p: Vec3): (dir: Vec3)
    ensures Dist(light, p) > 0 ==>
      && (dir.x > 0 ==> light.pos.x > p.x) && (dir.x < 0 ==> light.pos.x < p.x)
      && (dir.y > 0 ==> light.pos.z > p.z) && (dir.y < 0 ==> light.pos.z < p.z)
      && (dir.z > 0 ==> light.pos.y > p.y) && (dir.z < 0 ==> light.pos.y < p.y)
  {
    var d, dist := ToLight(light, p), Dist(light, p);
    Vec3(DivF32(d.x, dist), DivF32(d.z, dist), DivF32(d.y, dist))
  }

  /** `max(0, dotf32(tNorm, lightDir))`. */
  function ClampedDot(light: Light, p: Vec3, normal: Vec3): (i: int)
    ensures i >= 0
  {
    Max(0, DotF32(normal, TangentDir(light, p)))
  }

  /** The intensity after `divf32(intensity, mulf32(dist, dist))`. */
  function Intensity(light: Light, p: Vec3, normal: Vec3): (i: int)
    ensures MulF32(Dist(light, p), Dist(light, p)) > 0 ==> i >= 0
    ensures MulF32(Dist(light, p), Dist(light, p)) > 0 && ClampedDot(light, p, normal) == 0 ==> i == 0
    ensures MulF32(Dist(light, p), Dist(light, p)) <= 0 ==> i == -1
  {
    var dist := Dist(light, p);
    DivF32Spec(ClampedDot(light, p, normal), MulF32(dist, dist));
    DivF32(ClampedDot(light, p, normal), MulF32(dist, dist))
  }

  /** What one light adds to the accumulator: its colour times the
      intensity, channel by channel. */
  function Contribution(light: Light, p: Vec3, normal: Vec3): (c: Vec3)
    ensures Intensity(light, p, normal) == 0 ==> c == Vec3(0, 0, 0)
  {
    var i := Intensity(light, p, normal);
    Vec3(MulF32(light.col.x, i), MulF32(light.col.y, i), MulF32(light.col.z, i))
  }

  /** A light with a non-negative colour, away from the surface (positive
      attenuation), never takes light away. */
  lemma ContributionNonNegative(light: Light, p: Vec3, normal: Vec3)
    ensures NonNegative(light.col) && MulF32(Dist(light, p), Dist(light, p)) > 0 ==>
      NonNegative(Contribution(light, p, normal))
  {
    var i := Intensity(light, p, normal);
    MulF32Sign(light.col.x, i);
    MulF32Sign(light.col.y, i);
    MulF32Sign(light.col.z, i);
  }

  /** A light facing away from the normal (clamped dot 0) adds nothing; if
      the light sits on the surface (zero attenuation) the divider's -1
      makes it add at most zero. */
  lemma DarkContribution(light: Light, p: Vec3, normal: Vec3)
    requires NonNegative(light.col) && ClampedDot(light, p, normal) == 0
    ensures var c := Contribution(light, p, normal); c.x <= 0 && c.y <= 0 && c.z <= 0
    ensures MulF32(Dist(light, p), Dist(light, p)) != 0 ==> Contribution(light, p, normal) == Vec3(0, 0, 0)
  {
    var i := Intensity(light, p, normal);
    assert i == 0 || i == -1;
    MulF32Sign(light.col.x, i);
    MulF32Sign(light.col.y, i);
    MulF32Sign(light.col.z, i);
    if i == -1 {
      MulByMinusOne(light.col.x);
      MulByMinusOne(light.col.y);
      MulByMinusOne(light.col.z);
    }
  }

  /** A light whose squared distance `dist` (in 20.12) to the vertex is
      below 64, that is one closer than about 512 units (1/8 of a tile),
      takes light away: `mulf32(dist, dist)` rounds down to 0, the
      divider's answer for a zero divisor is -1, and every positive colour
      channel then adds a negative amount. */
  lemma CloseLightDarkens(light: Light, p: Vec3, normal: Vec3)
    requires NonNegative(light.col) && Dist(light, p) < 64
    ensures Intensity(light, p, normal) == -1
    ensures var c := Contribution(light, p, normal);
      && (c.x < 0 <==> light.col.x > 0) && (c.y < 0 <==> light.col.y > 0) && (c.z < 0 <==> light.col.z > 0)
  {
    var dist := Dist(light, p);
    MulMonotone(dist, 63);
    assert MulF32(dist, dist) == 0;
    NegatedChannel(light.col.x);
    NegatedChannel(light.col.y);
    NegatedChannel(light.col.z);
  }

  /** A non-negative channel times -1 (in 20.12) is negative exactly when
      the channel is positive. */
  lemma NegatedChannel(c: int)
    requires c >= 0
    ensures MulF32(c, -1) < 0 <==> c > 0
  {
    MulByMinusOne(c);
    if c > 0 {
      assert c * -1 < 0;
    }
  }

  /** A concrete instance: a white light of twice unit intensity at the
      origin and a vertex 300 units away along x. The squared distance is
      21, and each channel of the light's contribution is -2. */
  lemma CloseLightExample()
    ensures var light, p := Light(Vec3(0, 0, 0), Vec3(2 * One, 2 * One, 2 * One)), Vec3(300, 0, 0);
      && Dist(light, p) == 21
      && Contribution(light, p, Vec3(0, 0, One)) == Vec3(-2, -2, -2)
  {
    var light, p := Light(Vec3(0, 0, 0), Vec3(2 * One, 2 * One, 2 * One)), Vec3(300, 0, 0);
    assert ToLight(light, p) == Vec3(-300, 0, 0);
    assert MulF32(-300, -300) == 21;
    assert MulF32(21, 21) == 0;
    assert MulF32(2 * One, -1) == -2;
  }

  lemma MulByMinusOne(c: int)
    requires c >= 0
    ensures MulF32(c, -1) <= 0
  {
    assert c * -1 <= 0;
  }

  /** `calcLight`: adds one light's contribution to `col[0..3]`. With a
      non-negative light colour and a positive attenuation, no channel of
      the accumulator decreases. */
  method CalcLight(col: array<int>, p: Vec3, normal: Vec3, light: Light)
    requires col.Length == 3
    modifies col
    ensures var c := Contribution(light, p, normal);
      col[0] == old(col[0]) + c.x && col[1] == old(col[1]) + c.y && col[2] == old(col[2]) + c.z
    ensures NonNegative(light.col) && MulF32(Dist(light, p), Dist(light, p)) > 0 ==>
      col[0] >= old(col[0]) && col[1] >= old(col[1]) && col[2] >= old(col[2])
  {
    var lightDir := new int[3];
    lightDir[0], lightDir[1], lightDir[2] := light.pos.x - p.x, light.pos.y - p.y, light.pos.z - p.z;
    var dist := DotF32(Vec3(lightDir[0], lightDir[1], lightDir[2]), Vec3(lightDir[0], lightDir[1], lightDir[2]));

    lightDir[0] := DivF32(lightDir[0], dist);
    lightDir[1] := DivF32(lightDir[1], dist);
    lightDir[2] := DivF32(lightDir[2], dist);

    var tmp := lightDir[1];
    lightDir[1] := lightDir[2];
    lightDir[2] := tmp;

    var intensity := Max(0, DotF32(normal, Vec3(lightDir[0], lightDir[1], lightDir[2])));
    intensity := DivF32(intensity, MulF32(dist, dist));

    col[0] := col[0] + MulF32(light.col.x, intensity);
    col[1] := col[1] + MulF32(light.col.y, intensity);
    col[2] := col[2] + MulF32(light.col.z, intensity);

    if NonNegative(light.col) && MulF32(dist, dist) > 0 {
      ContributionNonNegative(light, p, normal);
    }
  }

  /** `min(31, (v + 64) >> 7)` for a 12-bit-fraction value v >= 0: v rounded
      to the nearest multiple of 128 (halves up), saturating at 31 exactly
      from 3904 on. */
  function To5Bit(v: nat): (r: channel5)
    ensures r == 31 <==> v >= 3904
    ensures r < 31 ==> 128 * r - 64 <= v < 128 * r + 64
  {
    Min(31, (v + 64) / 128)
  }

  /** Rounding keeps the order of values. */
  lemma To5BitMonotone(u: nat, v: nat)
    requires u <= v
    ensures To5Bit(u) <= To5Bit(v)
  {
    assert (u + 64) / 128 <= (v + 64) / 128;
  }

  /** An accumulated channel after `sqrtf32` and the 5-bit rounding. */
  function Level(v: int): (r: channel5)
    ensures v <= 0 ==> r == 0
  {
    To5Bit(SqrtF32(v))
  }

  /** More light never gives a darker channel. */
  lemma LevelMonotone(u: int, v: int)
    requires u <= v
    ensures Level(u) <= Level(v)
  {
    SqrtF32Monotone(u, v);
    To5BitMonotone(SqrtF32(u), SqrtF32(v));
  }

  /** Both lights' contributions summed into a zero accumulator. */
  function Accumulated(p: Vec3, normal: Vec3, l1: Light, l2: Light): (acc: Vec3)
  {
    var c1, c2 := Contribution(l1, p, normal), Contribution(l2, p, normal);
    Vec3(c1.x + c2.x, c1.y + c2.y, c1.z + c2.z)
  }

  /** With lights of non-negative colour that are not too close to the
      vertex, the accumulator `sqrtf32` receives is never negative. */
  lemma AccumulatedNonNegative(p: Vec3, normal: Vec3, l1: Light, l2: Light)
    requires NonNegative(l1.col) && NonNegative(l2.col)
    requires MulF32(Dist(l1, p), Dist(l1, p)) > 0 && MulF32(Dist(l2, p), Dist(l2, p)) > 0
    ensures NonNegative(Accumulated(p, normal, l1, l2))
  {
    ContributionNonNegative(l1, p, normal);
    ContributionNonNegative(l2, p, normal);
  }

  /** The colour `calcLights` returns: `(b << 10) | (g << 5) | r` with bit
      15 clear, each channel the rounded root of its accumulator and
      recoverable by shift and mask. */
  function Shade(p: Vec3, normal: Vec3, l1: Light, l2: Light): (rgb: int)
    ensures 0 <= rgb < 0x8000
    ensures var acc := Accumulated(p, normal, l1, l2);
      rgb % 32 == Level(acc.x) && (rgb / 32) % 32 == Level(acc.y) && rgb / 1024 == Level(acc.z)
  {
    var acc := Accumulated(p, normal, l1, l2);
    Pack15(Level(acc.x), Level(acc.y), Level(acc.z))
  }

  /** The packed word of the three channel levels is the shade. */
  lemma ShadeOfLevels(p: Vec3, normal: Vec3, l1: Light, l2: Light, r: int, g: int, b: int)
    requires var c1, c2 := Contribution(l1, p, normal), Contribution(l2, p, normal);
      r == Level(0 + c1.x + c2.x) && g == Level(0 + c1.y + c2.y) && b == Level(0 + c1.z + c2.z)
    ensures b * 1024 + g * 32 + r == Shade(p, normal, l1, l2)
  {
    var acc := Accumulated(p, normal, l1, l2);
    assert r == Level(acc.x) && g == Level(acc.y) && b == Level(acc.z);
  }

  /** A surface both lights face away from is black. */
  lemma ShadeDark(p: Vec3, normal: Vec3, l1: Light, l2: Light)
    requires NonNegative(l1.col) && NonNegative(l2.col)
    requires ClampedDot(l1, p, normal) == 0 && ClampedDot(l2, p, normal) == 0
    ensures Shade(p, normal, l1, l2) == 0
  {
    DarkContribution(l1, p, normal);
    DarkContribution(l2, p, normal);
  }

  /** The tail of `calcLights`: each accumulated channel is replaced by
      `sqrtf32` of itself and then by its rounded 5-bit level. */
  method GammaAndRound(result: array<int>)
    requires result.Length == 3
    modifies result
    ensures result[0] == Level(old(result[0])) && result[1] == Level(old(result[1])) && result[2] == Level(old(result[2]))
  {
    result[0] := SqrtF32(result[0]);
    result[1] := SqrtF32(result[1]);
    result[2] := SqrtF32(result[2]);

    result[0] := Min(31, (result[0] + 64) / 128);
    result[1] := Min(31, (result[1] + 64) / 128);
    result[2] := Min(31, (result[2] + 64) / 128);
  }

  /** `calcLights`: a zeroed `result[3]`, both lights added by
      `calcLight`, then square root, rounding and packing in place. */
  method CalcLights(p: Vec3, normal: Vec3, l1: Light, l2: Light) returns (rgb: int)
    ensures rgb == Shade(p, normal, l1, l2)
    ensures 0 <= rgb < 0x8000
  {
    var result := new int[3];
    result[0], result[1], result[2] := 0, 0, 0;

    CalcLight(result, p, normal, l1);
    CalcLight(result, p, normal, l2);
    GammaAndRound(result);

    rgb := result[2] * 1024 + result[1] * 32 + result[0];
    ShadeOfLevels(p, normal, l1, l2, result[0], result[1], result[2]);
  }
}
