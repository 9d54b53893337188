/** The runtime's scene: a 3x3 floor of textured quads, lit per vertex, drawn
    once with a flat normal or, with normal mapping on, three times, once
    per basis direction, blended by the texture's alpha factors. The GL
    calls become records: a `Vertex` per `glColor`/`glTexCoord2t16`/
    `glVertex3v16` triple and a `Pass` per floor drawn with its polygon
    format and texture. */
module SceneRenderer {
  import opened Common
  import opened FixedPoint
  import opened Lighting
  import opened PaletteQuantizer
  import opened BasisEncoder
  import opened AssetPacker
  import opened Texconv
  import opened SizeCode
  import opened AssetLoader

  /** Where a vertex goes and which point of the texture it shows: texture
      coordinates s, t (12.4 fixed point) and a position (`v16`, 4.12 fixed
      point). */
  datatype Site = Site(s: int, t: int, pos: Vec3)

  /** A vertex as emitted: the `glColor` in effect, then its site. */
  datatype Vertex = Vertex(color: int, site: Site)

  /** `inttot16(n)`: texels to 12.4 texture coordinates. */
  function IntToT16(n: int): (t: int)
    ensures t % 16 == 0 && t / 16 == n
  {
    n * 16
  }

  /** Corner k of a horizontal plane, in `addPlane`'s order: (minX, maxZ),
      (maxX, maxZ), (maxX, minZ), (minX, minZ). */
  function Corner(minX: int, maxX: int, y: int, minZ: int, maxZ: int, k: nat): (v: Vec3)
    requires k < 4
    ensures v.y == y && (v.x == minX || v.x == maxX) && (v.z == minZ || v.z == maxZ)
  {
    if k == 0 then Vec3(minX, y, maxZ)
    else if k == 1 then Vec3(maxX, y, maxZ)
    else if k == 2 then Vec3(maxX, y, minZ)
    else Vec3(minX, y, minZ)
  }

  /** Site k of a plane: corner k with texture coordinates (0, H), (W, H),
      (W, 0), (0, 0) for k = 0..3. */
  function PlaneSite(minX: int, maxX: int, y: int, minZ: int, maxZ: int, texW: int, texH: int, k: nat): (site: Site)
    requires k < 4
    ensures site.pos == Corner(minX, maxX, y, minZ, maxZ, k)
    ensures minX < maxX ==> site.s == (if site.pos.x == maxX then IntToT16(texW) else 0)
    ensures minZ < maxZ ==> site.t == (if site.pos.z == maxZ then IntToT16(texH) else 0)
  {
    Site(if k == 1 || k == 2 then IntToT16(texW) else 0,
         if k <= 1 then IntToT16(texH) else 0,
         Corner(minX, maxX, y, minZ, maxZ, k))
  }

  /** The four sites of a plane, in emission order. */
  function PlaneSites(minX: int, maxX: int, y: int, minZ: int, maxZ: int, texW: int, texH: int): (sites: seq<Site>)
    ensures |sites| == 4
  {
    [PlaneSite(minX, maxX, y, minZ, maxZ, texW, texH, 0), PlaneSite(minX, maxX, y, minZ, maxZ, texW, texH, 1),
     PlaneSite(minX, maxX, y, minZ, maxZ, texW, texH, 2), PlaneSite(minX, maxX, y, minZ, maxZ, texW, texH, 3)]
  }

  /** Each site of a plane lies on one of its corners at height y, and the
      texture is stretched once over the plane: s is W at maxX and 0 at
      minX, t is H at maxZ and 0 at minZ. The four corners are distinct. */
  lemma PlaneMapping(minX: int, maxX: int, y: int, minZ: int, maxZ: int, texW: int, texH: int, j: nat, k: nat)
    requires minX < maxX && minZ < maxZ && j < 4 && k < 4
    ensures var sites := PlaneSites(minX, maxX, y, minZ, maxZ, texW, texH);
      var v := sites[k];
      && v.pos.y == y && (v.pos.x == minX || v.pos.x == maxX) && (v.pos.z == minZ || v.pos.z == maxZ)
      && v.s == (if v.pos.x == maxX then IntToT16(texW) else 0)
      && v.t == (if v.pos.z == maxZ then IntToT16(texH) else 0)
      && (j != k ==> sites[j].pos != v.pos)
  {
  }

  /** Where each vertex of a run goes. */
  function SitesOf(verts: seq<Vertex>): (sites: seq<Site>)
    ensures |sites| == |verts|
  {
    seq(|verts|, k requires 0 <= k < |verts| => verts[k].site)
  }

  /** The colour each vertex of a run carries. */
  function ColorsOf(verts: seq<Vertex>): (colors: seq<int>)
    ensures |colors| == |verts|
  {
    seq(|verts|, k requires 0 <= k < |verts| => verts[k].color)
  }

  /** The colours `calcLights` gives at a run of sites. */
  function Shades(sites: seq<Site>, normal: Vec3, l1: Light, l2: Light): (colors: seq<int>)
    ensures |colors| == |sites|
  {
    seq(|sites|, k requires 0 <= k < |sites| => Shade(sites[k].pos, normal, l1, l2))
  }

  /** The vertices sit at the given sites, one each, and every vertex has
      the colour `calcLights` gives at its own position. */
  predicate Lit(verts: seq<Vertex>, sites: seq<Site>, normal: Vec3, l1: Light, l2: Light) {
    SitesOf(verts) == sites && ColorsOf(verts) == Shades(sites, normal, l1, l2)
  }

  /** Vertex k of a lit run: at site k, with the colour lit there. */
  lemma LitAt(verts: seq<Vertex>, sites: seq<Site>, normal: Vec3, l1: Light, l2: Light, k: nat)
    requires Lit(verts, sites, normal, l1, l2) && k < |sites|
    ensures k < |verts| && verts[k].site == sites[k] && verts[k].color == Shade(sites[k].pos, normal, l1, l2)
  {
    assert SitesOf(verts)[k] == sites[k];
    assert ColorsOf(verts)[k] == Shades(sites, normal, l1, l2)[k];
  }

  /** Emitting one lit run after another gives a lit run. */
  lemma LitAppend(a: seq<Vertex>, sa: seq<Site>, b: seq<Vertex>, sb: seq<Site>, normal: Vec3, l1: Light, l2: Light)
    requires Lit(a, sa, normal, l1, l2) && Lit(b, sb, normal, l1, l2)
    ensures Lit(a + b, sa + sb, normal, l1, l2)
  {
    AppendViews(a, b);
    ShadesAppend(sa, sb, normal, l1, l2);
  }

  lemma AppendViews(a: seq<Vertex>, b: seq<Vertex>)
    ensures SitesOf(a + b) == SitesOf(a) + SitesOf(b)
    ensures ColorsOf(a + b) == ColorsOf(a) + ColorsOf(b)
  {
    assert SitesOf(a + b) == SitesOf(a) + SitesOf(b);
    assert ColorsOf(a + b) == ColorsOf(a) + ColorsOf(b);
  }

  lemma ShadesAppend(sa: seq<Site>, sb: seq<Site>, normal: Vec3, l1: Light, l2: Light)
    ensures Shades(sa + sb, normal, l1, l2) == Shades(sa, normal, l1, l2) + Shades(sb, normal, l1, l2)
  {
    var whole, left, right := Shades(sa + sb, normal, l1, l2), Shades(sa, normal, l1, l2), Shades(sb, normal, l1, l2);
    forall k | 0 <= k < |whole| ensures whole[k] == (left + right)[k] {
      if k < |sa| {
        assert (sa + sb)[k] == sa[k];
      } else {
        assert (sa + sb)[k] == sb[k - |sa|];
      }
    }
  }

  /** `addPlane`: four `calcLights` calls, one per corner, each followed by
      the corner's texture coordinate and position. */
  method AddPlane(minX: int, maxX: int, y: int, minZ: int, maxZ: int, normal: Vec3,
                  texW: int, texH: int, l1: Light, l2: Light) returns (quad: seq<Vertex>)
    ensures Lit(quad, PlaneSites(minX, maxX, y, minZ, maxZ, texW, texH), normal, l1, l2)
  {
    var c0 := CalcLights(Vec3(minX, y, maxZ), normal, l1, l2);
    var s0 := Site(0, IntToT16(texH), Vec3(minX, y, maxZ));
    LitOne(c0, s0, normal, l1, l2);
    quad := [Vertex(c0, s0)];

    var c1 := CalcLights(Vec3(maxX, y, maxZ), normal, l1, l2);
    var s1 := Site(IntToT16(texW), IntToT16(texH), Vec3(maxX, y, maxZ));
    LitOne(c1, s1, normal, l1, l2);
    LitAppend(quad, [s0], [Vertex(c1, s1)], [s1], normal, l1, l2);
    quad := quad + [Vertex(c1, s1)];

    var c2 := CalcLights(Vec3(maxX, y, minZ), normal, l1, l2);
    var s2 := Site(IntToT16(texW), 0, Vec3(maxX, y, minZ));
    LitOne(c2, s2, normal, l1, l2);
    LitAppend(quad, [s0] + [s1], [Vertex(c2, s2)], [s2], normal, l1, l2);
    quad := quad + [Vertex(c2, s2)];

    var c3 := CalcLights(Vec3(minX, y, minZ), normal, l1, l2);
    var s3 := Site(0, 0, Vec3(minX, y, minZ));
    LitOne(c3, s3, normal, l1, l2);
    LitAppend(quad, [s0] + [s1] + [s2], [Vertex(c3, s3)], [s3], normal, l1, l2);
    quad := quad + [Vertex(c3, s3)];

    assert PlaneSites(minX, maxX, y, minZ, maxZ, texW, texH) == [s0] + [s1] + [s2] + [s3];
  }

  /** One vertex coloured with the shade at its own site is a lit run. */
  lemma LitOne(c: int, s: Site, normal: Vec3, l1: Light, l2: Light)
    requires c == Shade(s.pos, normal, l1, l2)
    ensures Lit([Vertex(c, s)], [s], normal, l1, l2)
  {
    assert SitesOf([Vertex(c, s)]) == [s];
    assert ColorsOf([Vertex(c, s)]) == [c];
    assert Shades([s], normal, l1, l2) == [c];
  }

  /** Column or row c (0..2) of the floor spans [QuadMin(c), QuadMax(c)]:
      `-2048 + (c - 1) * 4096` to `2048 + (c - 1) * 4096`. */
  function QuadMin(c: int): (lo: int)
    ensures lo % 4096 == 2048
  {
    -2048 + (c - 1) * 4096
  }

  function QuadMax(c: int): (hi: int)
    ensures hi % 4096 == 2048 && hi - QuadMin(c) == 4096
  {
    2048 + (c - 1) * 4096
  }

  /** The sites of quad i = 3*xx + zz of the floor, at y = 0. */
  function FloorQuad(i: nat, texW: int, texH: int): (sites: seq<Site>)
    requires i < 9
    ensures |sites| == 4
  {
    PlaneSites(QuadMin(i / 3), QuadMax(i / 3), 0, QuadMin(i % 3), QuadMax(i % 3), texW, texH)
  }

  /** The sites of the first m quads, in the loops' order. */
  function FloorPrefix(m: nat, texW: int, texH: int): (sites: seq<Site>)
    requires m <= 9
    ensures |sites| == 4 * m
  {
    if m == 0 then [] else FloorPrefix(m - 1, texW, texH) + FloorQuad(m - 1, texW, texH)
  }

  /** All 36 sites of the floor. */
  function Floor(texW: int, texH: int): (sites: seq<Site>)
    ensures |sites| == 36
  {
    FloorPrefix(9, texW, texH)
  }

  /** Quad i sits at sites 4i..4i+3 of every prefix that contains it. */
  lemma {:induction false} FloorQuadAt(m: nat, i: nat, texW: int, texH: int)
    requires i < m <= 9
    ensures FloorPrefix(m, texW, texH)[4 * i..4 * i + 4] == FloorQuad(i, texW, texH)
    decreases m
  {
    var prev, whole := FloorPrefix(m - 1, texW, texH), FloorPrefix(m, texW, texH);
    if i < m - 1 {
      FloorQuadAt(m - 1, i, texW, texH);
      assert whole[4 * i..4 * i + 4] == prev[4 * i..4 * i + 4];
    } else {
      assert whole[4 * i..4 * i + 4] == whole[|prev|..];
    }
  }

  /** Quad 3*xx + zz of the floor is the plane over column xx and row zz. */
  lemma FloorNextQuad(texW: int, texH: int, xx: nat, zz: nat)
    requires xx < 3 && zz < 3
    ensures FloorPrefix(3 * xx + zz + 1, texW, texH) ==
      FloorPrefix(3 * xx + zz, texW, texH) + PlaneSites(QuadMin(xx), QuadMax(xx), 0, QuadMin(zz), QuadMax(zz), texW, texH)
  {
    var i := 3 * xx + zz;
    DivModUnique(i, 3, xx, zz);
    assert i / 3 == xx && i % 3 == zz;
    assert FloorQuad(i, texW, texH) == PlaneSites(QuadMin(xx), QuadMax(xx), 0, QuadMin(zz), QuadMax(zz), texW, texH);
  }

  /** One more quad of the loops: the sites of quad (xx, zz) follow those
      of the 3*xx + zz quads before it, so emitting it lit extends a lit
      prefix. */
  lemma FloorStep(texW: int, texH: int, xx: nat, zz: nat, verts: seq<Vertex>, quad: seq<Vertex>,
                  normal: Vec3, l1: Light, l2: Light)
    requires xx < 3 && zz < 3
    requires Lit(verts, FloorPrefix(3 * xx + zz, texW, texH), normal, l1, l2)
    requires Lit(quad, PlaneSites(-2048 + (xx - 1) * 4096, 2048 + (xx - 1) * 4096, 0,
                                  -2048 + (zz - 1) * 4096, 2048 + (zz - 1) * 4096, texW, texH), normal, l1, l2)
    ensures Lit(verts + quad, FloorPrefix(3 * xx + zz + 1, texW, texH), normal, l1, l2)
  {
    assert -2048 + (xx - 1) * 4096 == QuadMin(xx) && 2048 + (xx - 1) * 4096 == QuadMax(xx);
    assert -2048 + (zz - 1) * 4096 == QuadMin(zz) && 2048 + (zz - 1) * 4096 == QuadMax(zz);
    FloorNextQuad(texW, texH, xx, zz);
    LitAppend(verts, FloorPrefix(3 * xx + zz, texW, texH), quad,
              PlaneSites(QuadMin(xx), QuadMax(xx), 0, QuadMin(zz), QuadMax(zz), texW, texH), normal, l1, l2);
  }

  /** `renderFloor`: the `xx`/`zz` double loop, one `addPlane` per quad
      with `offsetX = (xx - 1) * 4096` and `offsetZ = (zz - 1) * 4096`. The
      36 vertices sit at the floor's sites, each lit at its own position. */
  method RenderFloor(texW: int, texH: int, normal: Vec3, l1: Light, l2: Light) returns (verts: seq<Vertex>)
    ensures Lit(verts, Floor(texW, texH), normal, l1, l2)
  {
    verts := [];
    for xx := 0 to 3
      invariant Lit(verts, FloorPrefix(3 * xx, texW, texH), normal, l1, l2)
    {
      for zz := 0 to 3
        invariant Lit(verts, FloorPrefix(3 * xx + zz, texW, texH), normal, l1, l2)
      {
        var offsetX := (xx - 1) * 4096;
        var offsetZ := (zz - 1) * 4096;
        var quad := AddPlane(-2048 + offsetX, 2048 + offsetX, 0, -2048 + offsetZ, 2048 + offsetZ,
                             normal, texW, texH, l1, l2);
        FloorStep(texW, texH, xx, zz, verts, quad, normal, l1, l2);
        verts := verts + quad;
      }
      assert FloorPrefix(3 * xx + 3, texW, texH) == FloorPrefix(3 * (xx + 1), texW, texH);
    }
  }

  /** Site k of quad (xx, zz) is site k of the plane over
      [QuadMin(xx), QuadMax(xx)] x [QuadMin(zz), QuadMax(zz)] at y = 0. */
  lemma FloorLayout(texW: int, texH: int, xx: nat, zz: nat, k: nat)
    requires xx < 3 && zz < 3 && k < 4
    ensures 4 * (3 * xx + zz) + k < 36
    ensures Floor(texW, texH)[4 * (3 * xx + zz) + k] ==
      PlaneSite(QuadMin(xx), QuadMax(xx), 0, QuadMin(zz), QuadMax(zz), texW, texH, k)
  {
    var i := 3 * xx + zz;
    FloorQuadAt(9, i, texW, texH);
    DivModUnique(i, 3, xx, zz);
    assert Floor(texW, texH)[4 * i + k] == FloorQuad(i, texW, texH)[k];
  }

  /** The column (or row) whose span holds coordinate v of [-6144, 6144]. */
  function CellOf(v: int): (c: nat)
    ensures c < 3
  {
    if v <= -2048 then 0 else if v <= 2048 then 1 else 2
  }

  /** The spans tile [-6144, 6144]: every coordinate there is in the span of
      CellOf, and a coordinate strictly inside a span is in no other. Each
      span is 4096 wide and the spans meet end to end. */
  lemma SpansTile(v: int, c: nat)
    requires c < 3
    ensures -6144 <= v <= 6144 ==> QuadMin(CellOf(v)) <= v <= QuadMax(CellOf(v))
    ensures QuadMin(c) < v < QuadMax(c) ==> c == CellOf(v)
    ensures QuadMax(c) - QuadMin(c) == 4096
    ensures c < 2 ==> QuadMax(c) == QuadMin(c + 1)
    ensures QuadMin(0) == -6144 && QuadMax(2) == 6144
  {
  }

  /** Every point of [-6144, 6144]^2 is covered by the floor quad
      (CellOf(x), CellOf(z)), between its sites 3 and 1 in x and its sites
      2 and 0 in z. */
  lemma FloorCovers(texW: int, texH: int, x: int, z: int)
    requires -6144 <= x <= 6144 && -6144 <= z <= 6144
    ensures var sites, i := Floor(texW, texH), 3 * CellOf(x) + CellOf(z);
      && 4 * i + 3 < 36
      && sites[4 * i + 3].pos.x <= x <= sites[4 * i + 1].pos.x
      && sites[4 * i + 2].pos.z <= z <= sites[4 * i].pos.z
  {
    var xx, zz := CellOf(x), CellOf(z);
    SpansTile(x, xx);
    SpansTile(z, zz);
    FloorLayout(texW, texH, xx, zz, 0);
    FloorLayout(texW, texH, xx, zz, 1);
    FloorLayout(texW, texH, xx, zz, 2);
    FloorLayout(texW, texH, xx, zz, 3);
  }

  /** Neighbouring quads share their edges: the right edge of quad (xx, zz)
      (its sites 1 and 2) is the left edge of quad (xx + 1, zz) (its sites
      0 and 3). */
  lemma FloorSharedEdgesX(texW: int, texH: int, xx: nat, zz: nat)
    requires xx < 2 && zz < 3
    ensures var sites, i := Floor(texW, texH), 3 * xx + zz;
      && sites[4 * i + 1].pos == sites[4 * (i + 3)].pos
      && sites[4 * i + 2].pos == sites[4 * (i + 3) + 3].pos
  {
    assert 3 * xx + zz + 3 == 3 * (xx + 1) + zz;
    FloorLayout(texW, texH, xx, zz, 1);
    FloorLayout(texW, texH, xx, zz, 2);
    FloorLayout(texW, texH, xx + 1, zz, 0);
    FloorLayout(texW, texH, xx + 1, zz, 3);
  }

  /** The far edge of quad (xx, zz) (its sites 0 and 1, at maxZ) is the
      near edge of quad (xx, zz + 1) (its sites 3 and 2, at minZ). */
  lemma FloorSharedEdgesZ(texW: int, texH: int, xx: nat, zz: nat)
    requires xx < 3 && zz < 2
    ensures var sites, i := Floor(texW, texH), 3 * xx + zz;
      && sites[4 * i].pos == sites[4 * (i + 1) + 3].pos
      && sites[4 * i + 1].pos == sites[4 * (i + 1) + 2].pos
  {
    assert 3 * xx + zz + 1 == 3 * xx + (zz + 1);
    FloorLayout(texW, texH, xx, zz, 0);
    FloorLayout(texW, texH, xx, zz, 1);
    FloorLayout(texW, texH, xx, zz + 1, 2);
    FloorLayout(texW, texH, xx, zz + 1, 3);
  }

  /** Every floor site lies at y = 0 inside [-6144, 6144]^2, well within
      the `v16` range. */
  lemma FloorInRange(texW: int, texH: int, k: nat)
    requires k < 36
    ensures var v := Floor(texW, texH)[k];
      && v.pos.y == 0 && -6144 <= v.pos.x <= 6144 && -6144 <= v.pos.z <= 6144
      && -32768 <= v.pos.x < 32768 && -32768 <= v.pos.z < 32768
  {
    var i := k / 4;
    DivModUnique(i, 3, i / 3, i % 3);
    FloorLayout(texW, texH, i / 3, i % 3, k % 4);
    assert k == 4 * (3 * (i / 3) + i % 3) + k % 4;
  }

  /** The three basis directions of the normal-mapping passes (60 degrees
      from the vertical, at 0, 120 and 240 degrees around it), one per
      texel alpha factor: `bases[basis*3 + 0..2]`. */
  const Bases: seq<Vec3> := [Vec3(3547, 0, 2048), Vec3(-1774, 3072, 2048), Vec3(-1774, -3072, 2048)]

  /** The pseudo-normal of the flat pass without normal mapping. */
  const FlatNormal := Vec3(0, 0, 4096)

  /** Length within rounding of one unit: the squared length lies strictly
      between (One - 1)^2 and (One + 1)^2. */
  predicate NearUnit(v: Vec3)
  {
    (One - 1) * (One - 1) < v.x * v.x + v.y * v.y + v.z * v.z < (One + 1) * (One + 1)
  }

  /** The bases are unit vectors to within rounding. */
  lemma BasesNearUnit()
    ensures |Bases| == 3
    ensures NearUnit(Bases[0]) && NearUnit(Bases[1]) && NearUnit(Bases[2])
  {
    var b0, b1, b2 := Bases[0], Bases[1], Bases[2];
    assert b0 == Vec3(3547, 0, 2048) && b1 == Vec3(-1774, 3072, 2048) && b2 == Vec3(-1774, -3072, 2048);
    assert b0.x * b0.x + b0.y * b0.y + b0.z * b0.z == 16775513;
    assert b1.x * b1.x + b1.y * b1.y + b1.z * b1.z == 16778564;
    assert b2.x * b2.x + b2.y * b2.y + b2.z * b2.z == 16778564;
  }

  /** Each basis is 60 degrees from the flat normal, the unit vertical of
      tangent space: its vertical part is one half. The three are spread
      evenly around the normal: their horizontal parts sum to zero, to
      within rounding. */
  lemma BasesAroundNormal()
    ensures FlatNormal.x == 0 && FlatNormal.y == 0 && FlatNormal.z == One
    ensures |Bases| == 3
    ensures Bases[0].z == Bases[1].z == Bases[2].z == One / 2
    ensures -1 <= Bases[0].x + Bases[1].x + Bases[2].x <= 1
    ensures Bases[0].y + Bases[1].y + Bases[2].y == 0
  {
    assert One / 2 == 2048;
  }

  /** How one floor is drawn: the polygon ID and whether the depth test is
      "equal" (`1 << 14`), both from `glPolyFmt`; the texture bound; how
      the hardware reads its texels (`RGB256` with alpha ignored,
      `RGB32_A3` with alpha); and the normal the floor is lit with. */
  datatype PassSetup = PassSetup(polyId: nat, depthEqual: bool, texture: int, format: Format, normal: Vec3)

  /** One floor drawn: its setup and its vertices. */
  datatype Pass = Pass(setup: PassSetup, vertices: seq<Vertex>)

  /** The setups `renderScene` draws the floor with, in order. With normal
      mapping, pass 0 draws tex1 opaque (alpha ignored) with the first
      basis; passes 1 and 2 redraw where the depth equals pass 0's, with
      alpha from tex1 and from tex2 (binding tex2 brings back its own
      `RGB32_A3` format). Without it, one flat pass on tex1. */
  function Schedule(tex1: int, tex2: int, normalmapping: bool): (setups: seq<PassSetup>)
    ensures |setups| == if normalmapping then 3 else 1
  {
    if normalmapping then
      [PassSetup(0, false, tex1, RGB256, Bases[0]),
       PassSetup(1, true, tex1, RGB32_A3, Bases[1]),
       PassSetup(2, true, tex2, RGB32_A3, Bases[2])]
    else
      [PassSetup(0, false, tex1, RGB256, FlatNormal)]
  }

  /** `renderScene` after the light cubes: the passes follow the schedule,
      and each draws the whole floor lit with its pass's normal. */
  method RenderScene(tex1: int, tex2: int, texW: int, texH: int, normalmapping: bool, l1: Light, l2: Light)
    returns (passes: seq<Pass>)
    ensures |passes| == |Schedule(tex1, tex2, normalmapping)|
    ensures forall b :: 0 <= b < |passes| ==>
      passes[b].setup == Schedule(tex1, tex2, normalmapping)[b] &&
      Lit(passes[b].vertices, Floor(texW, texH), passes[b].setup.normal, l1, l2)
  {
    if normalmapping {
      passes := [];
      for basis := 0 to 3
        invariant |passes| == basis
        invariant forall b :: 0 <= b < basis ==>
          passes[b].setup == Schedule(tex1, tex2, true)[b] &&
          Lit(passes[b].vertices, Floor(texW, texH), passes[b].setup.normal, l1, l2)
      {
        var polyId, depthEqual, texture, format;
        if basis == 0 {
          polyId, depthEqual, texture, format := 0, false, tex1, RGB256;
        } else if basis == 1 {
          polyId, depthEqual, texture, format := 1, true, tex1, RGB32_A3;
        } else {
          polyId, depthEqual, texture, format := 2, true, tex2, RGB32_A3;
        }
        var normal := Bases[basis];
        var verts := RenderFloor(texW, texH, normal, l1, l2);
        passes := passes + [Pass(PassSetup(polyId, depthEqual, texture, format, normal), verts)];
      }
    } else {
      var verts := RenderFloor(texW, texH, FlatNormal, l1, l2);
      passes := [Pass(PassSetup(0, false, tex1, RGB256, FlatNormal), verts)];
    }
  }

  /** What each pass shows at texel p of a converted and loaded asset.
      Every pass, whichever texture and format it reads, shows the 15-bit
      form of the texel's original colour; the passes that read alpha see
      the second basis' factor (pass 1) and the third's (pass 2). Pass 0 is
      opaque, the others draw only where the depth equals pass 0's. */
  lemma PassTexel(texture: Image, normalMap: Image, allocOk: bool, alphaOf: Color -> AlphaPair,
                  tex1: int, tex2: int, normalmapping: bool, b: nat, p: nat)
    requires WellFormed(texture) && WellFormed(normalMap) && SameSize(texture, normalMap)
    requires Supported(texture.width) && Supported(texture.height)
    requires Encode(texture, normalMap, allocOk, alphaOf).Ok? && p < texture.width * texture.height
    requires tex1 != tex2 && b < (if normalmapping then 3 else 1)
    ensures var r := LoadTexture(Encode(texture, normalMap, allocOk, alphaOf).value);
      && r.Ok? && p < |r.value.tex1.texels| && p < |r.value.tex2.texels|
      && |r.value.tex1.colors| == 256 && |r.value.tex2.colors| == 256
      && var pass := Schedule(tex1, tex2, normalmapping)[b];
      && var t := if pass.texture == tex1 then r.value.tex1 else r.value.tex2;
      && pass.polyId == b && pass.depthEqual == (b > 0)
      && pass.normal == (if normalmapping then Bases[b] else FlatNormal)
      && TexelColor(t, pass.format, p) == ColorWord(PixelAt(texture.rgba, p))
      && (pass.format == RGB32_A3 <==> b > 0)
      && (b == 1 ==> t.texels[p] / 32 == alphaOf(PixelAt(normalMap.rgba, p)).a2)
      && (b == 2 ==> t.texels[p] / 32 == alphaOf(PixelAt(normalMap.rgba, p)).a3)
  {
    EncodeThenLoad(texture, normalMap, allocOk, alphaOf, p);
  }
}
