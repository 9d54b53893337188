/** The encoder's per-texel packing: the palette index of each texel and the
    two 3-bit alpha factors of its normal become one byte in each of two
    planes. */
module BasisEncoder {
  import opened Common
  import opened PaletteQuantizer

  /** A 3-bit alpha factor, `(int) roundf(alpha * 7)` for a fraction in 0..1. */
  type alpha3 = x: int | 0 <= x < 8

  /** The factors of the second and third basis for one texel:
      `adp2_3b` and `adp3_3b`. */
  datatype AlphaPair = AlphaPair(a2: alpha3, a3: alpha3)

  /** `(alpha << 5) | index`: the alpha factor in the top three bits and the
      palette index in the low five. The fields do not overlap, so the `|`
      is a sum. The byte unpacks as `byte >> 5 == alpha`, `byte & 31 == index`. */
  function PackTexel(alpha: alpha3, index: int): (b: byte)
    requires 0 <= index < 32
    ensures b / 32 == alpha && b % 32 == index
  {
    alpha * 32 + index
  }

  /** The two planes for n texels, plane 0 then plane 1: texel p's byte in
      plane 0 carries the second basis' factor, in plane 1 the third's, and
      both carry the texel's palette index. `alphaOf` maps a normal-map
      pixel to its two factors. */
  function Planes(indices: seq<nat>, normals: seq<Color>, alphaOf: Color -> AlphaPair): (out: seq<byte>)
    requires |indices| == |normals|
    requires forall p :: 0 <= p < |indices| ==> indices[p] < 32
    ensures |out| == 2 * |indices|
  {
    seq(2 * |indices|, k requires 0 <= k < 2 * |indices| => PlaneByte(indices, normals, alphaOf, k))
  }

  /** Byte k of the two planes. */
  function PlaneByte(indices: seq<nat>, normals: seq<Color>, alphaOf: Color -> AlphaPair, k: nat): (b: byte)
    requires |indices| == |normals| && k < 2 * |indices|
    requires forall p :: 0 <= p < |indices| ==> indices[p] < 32
    ensures b % 32 == indices[if k < |indices| then k else k - |indices|]
  {
    var n := |indices|;
    if k < n then PackTexel(alphaOf(normals[k]).a2, indices[k])
    else PackTexel(alphaOf(normals[k - n]).a3, indices[k - n])
  }

  /** Texel p's bytes: both planes unpack to the texel's palette index, and
      the alpha bits are the texel's two factors. */
  lemma PlanesUnpack(indices: seq<nat>, normals: seq<Color>, alphaOf: Color -> AlphaPair, p: nat)
    requires |indices| == |normals| && p < |indices|
    requires forall q :: 0 <= q < |indices| ==> indices[q] < 32
    ensures var out, n := Planes(indices, normals, alphaOf), |indices|;
      && out[p] % 32 == indices[p] && out[p + n] % 32 == indices[p]
      && out[p] / 32 == alphaOf(normals[p]).a2 && out[p + n] / 32 == alphaOf(normals[p]).a3
  {
  }

  /** Row-major position arithmetic: texel (x, y) of a w-wide image sits at
      x + y*w, inside the w*h texels, and is the only (x, y) there. */
  lemma RowMajor(x: nat, y: nat, w: nat, h: nat)
    requires x < w && y < h
    ensures 0 <= x + y * w < w * h
    ensures (x + y * w) % w == x && (x + y * w) / w == y
  {
    assert y * w <= (h - 1) * w by {
      assert y <= h - 1;
    }
    assert (h - 1) * w == h * w - w;
    var p := x + y * w;
    assert p == y * w + x;
    DivModUnique(p, w, y, x);
  }

  /** Texel p has been visited once the column loop has passed its column
      x, or is in its column and the row loop has passed its row y. */
  ghost predicate Visited(p: nat, w: nat, x: int, y: int)
    requires w > 0
  {
    p % w < x || (p % w == x && p / w < y)
  }

  /** Both planes of `out` agree with `want` on every visited texel. */
  ghost predicate Agrees(out: seq<byte>, want: seq<byte>, n: nat, w: nat, x: int, y: int)
    requires w > 0 && |out| == 2 * n && |want| == 2 * n
  {
    forall p: nat :: p < n && Visited(p, w, x, y) ==> out[p] == want[p] && out[n + p] == want[n + p]
  }

  /** Before the loops nothing is visited, so every buffer agrees. */
  lemma AgreesInitially(out: seq<byte>, want: seq<byte>, n: nat, w: nat)
    requires 0 < w && |out| == 2 * n && |want| == 2 * n
    ensures Agrees(out, want, n, w, 0, 0)
  {
    forall p: nat | p < n ensures !Visited(p, w, 0, 0) {
      QuotientNonNegative(p, w);
    }
  }

  lemma QuotientNonNegative(p: nat, w: nat)
    requires 0 < w
    ensures p / w >= 0 && p % w >= 0
  {
  }

  /** After the loops every texel is visited: both planes are `want`. */
  lemma AgreesFinally(out: seq<byte>, want: seq<byte>, n: nat, w: nat)
    requires 0 < w && |out| == 2 * n && |want| == 2 * n
    requires Agrees(out, want, n, w, w, 0)
    ensures out == want
  {
    forall k | 0 <= k < 2 * n ensures out[k] == want[k] {
      var p := if k < n then k else k - n;
      assert Visited(p, w, w, 0);
    }
  }

  /** Storing texel (x, y)'s two bytes extends agreement to row y + 1. */
  lemma AgreesStep(out: seq<byte>, want: seq<byte>, w: nat, h: nat, x: nat, y: nat, lo: byte, hi: byte)
    requires 0 < w && x < w && y < h && |out| == 2 * (w * h) && |want| == 2 * (w * h)
    requires Agrees(out, want, w * h, w, x, y)
    requires x + y * w < w * h && lo == want[x + y * w] && hi == want[w * h + x + y * w]
    ensures var n, pos := w * h, x + y * w;
      Agrees(out[pos := lo][n + pos := hi], want, n, w, x, y + 1)
  {
    RowMajor(x, y, w, h);
    var n, pos := w * h, x + y * w;
    var out', y' := out[pos := lo][n + pos := hi], y + 1;
    forall p: nat | p < n && Visited(p, w, x, y')
      ensures out'[p] == want[p] && out'[n + p] == want[n + p]
    {
      if p != pos {
        assert p == w * (p / w) + p % w;
        assert Visited(p, w, x, y);
      }
    }
  }

  /** Finishing column x (all h rows) is the same as starting column x + 1. */
  lemma AgreesNextColumn(out: seq<byte>, want: seq<byte>, n: nat, w: nat, h: nat, x: nat)
    requires 0 < w && n == w * h && |out| == 2 * n && |want| == 2 * n
    requires Agrees(out, want, n, w, x, h)
    ensures Agrees(out, want, n, w, x + 1, 0)
  {
    var x' := x + 1;
    forall p: nat | p < n && Visited(p, w, x', 0)
      ensures out[p] == want[p] && out[n + p] == want[n + p]
    {
      RowBelowHeight(p, w, h);
      assert Visited(p, w, x, h);
    }
  }

  lemma RowBelowHeight(p: nat, w: nat, h: nat)
    requires 0 < w && p < w * h
    ensures p / w < h
  {
    if p / w >= h {
      MulAtLeast(p / w - h + 1, w);
      assert false;
    }
  }

  /** The two bytes the planes want for texel pos of an index buffer and
      an RGBA normal map. */
  lemma TexelBytes(indices: seq<byte>, normalRgba: seq<byte>, alphaOf: Color -> AlphaPair, pos: nat)
    requires |normalRgba| == 4 * |indices| && pos < |indices|
    requires forall p :: 0 <= p < |indices| ==> indices[p] < 32
    ensures 4 * pos + 3 < |normalRgba|
    ensures var want, a := Planes(indices, Pixels(normalRgba), alphaOf), alphaOf(PixelAt(normalRgba, pos));
      want[pos] == PackTexel(a.a2, indices[pos]) && want[|indices| + pos] == PackTexel(a.a3, indices[pos])
  {
    assert Pixels(normalRgba)[pos] == PixelAt(normalRgba, pos);
  }

  /** `outIdx[pos] = lo; outIdx[pos + n] = hi;` */
  method StoreTexel(outIdx: array<byte>, n: nat, pos: nat, lo: byte, hi: byte)
    requires pos < n && outIdx.Length == 2 * n
    modifies outIdx
    ensures outIdx[..] == old(outIdx[..])[pos := lo][n + pos := hi]
  {
    outIdx[pos] := lo;
    outIdx[pos + n] := hi;
  }

  /** The body of the double loop for texel (x, y): `pxPos = x + y*w`,
      the texel's palette index from the quantised buffer packed with its
      two factors into `outIdx[pxPos]` and `outIdx[pxPos + w*h]`. */
  method EncodeTexel(image: array<byte>, normalRgba: seq<byte>, w: nat, h: nat, alphaOf: Color -> AlphaPair,
                     outIdx: array<byte>, x: nat, y: nat, ghost want: seq<byte>)
    requires image != outIdx && 0 < w && x < w && y < h
    requires w * h <= image.Length && |normalRgba| == 4 * (w * h) && outIdx.Length == 2 * (w * h)
    requires forall p :: 0 <= p < w * h ==> image[p] < 32
    requires want == Planes(image[..w * h], Pixels(normalRgba), alphaOf)
    requires Agrees(outIdx[..], want, w * h, w, x, y)
    modifies outIdx
    ensures Agrees(outIdx[..], want, w * h, w, x, y + 1)
  {
    RowMajor(x, y, w, h);
    var pxPos := x + y * w;
    TexelBytes(image[..w * h], normalRgba, alphaOf, pxPos);
    var normal := PixelAt(normalRgba, pxPos);
    var alphas := alphaOf(normal);
    var colIdx := image[pxPos];
    var lo, hi := PackTexel(alphas.a2, colIdx), PackTexel(alphas.a3, colIdx);
    AgreesStep(outIdx[..], want, w, h, x, y, lo, hi);
    StoreTexel(outIdx, w * h, pxPos, lo, hi);
  }

  /** The encoder's double loop over columns x and rows y: for texel
      `pxPos = x + y*w` it packs the texel's index (from the quantised
      buffer) with its two factors into `outIdx[pxPos]` and
      `outIdx[pxPos + w*h]`. The result is exactly the two planes. */
  method PackPlanes(image: array<byte>, normalRgba: seq<byte>, w: nat, h: nat,
                    alphaOf: Color -> AlphaPair) returns (outIdx: array<byte>)
    requires 0 < w && w * h <= image.Length && |normalRgba| == 4 * (w * h)
    requires forall p :: 0 <= p < w * h ==> image[p] < 32
    ensures fresh(outIdx)
    ensures outIdx[..] == Planes(image[..w * h], Pixels(normalRgba), alphaOf)
  {
    var n := w * h;
    ghost var want := Planes(image[..n], Pixels(normalRgba), alphaOf);
    outIdx := new byte[2 * n];
    AgreesInitially(outIdx[..], want, n, w);
    for x := 0 to w
      invariant Agrees(outIdx[..], want, n, w, x, 0)
    {
      for y := 0 to h
        invariant Agrees(outIdx[..], want, n, w, x, y)
      {
        EncodeTexel(image, normalRgba, w, h, alphaOf, outIdx, x, y, want);
      }
      AgreesNextColumn(outIdx[..], want, n, w, h, x);
    }
    AgreesFinally(outIdx[..], want, n, w);
  }
}
