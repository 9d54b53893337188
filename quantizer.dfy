/** The encoder's palette quantiser: a palette of at most 32 colours grown in
    first-seen order, and the RGBA buffer rewritten in place into one palette
    index per pixel. */
module PaletteQuantizer {
  import opened Common

  /** An RGBA pixel as the PNG decoder delivers it. */
  datatype Color = Color(r: byte, g: byte, b: byte, a: byte)

  /** The value of an unused slot of `Color palette[32] = {0}`. */
  const Blank := Color(0, 0, 0, 0)

  /** The palette holds at most this many colours. */
  const MaxColors := 32

  /** Two pixels map to the same palette entry when their RGB agree; alpha
      is ignored. */
  predicate SameRgb(c: Color, d: Color)
  {
    c.r == d.r && c.g == d.g && c.b == d.b
  }

  /** Pixel i of an RGBA buffer: bytes 4i, 4i+1, 4i+2, 4i+3. */
  function PixelAt(rgba: seq<byte>, i: nat): (c: Color)
    requires 4 * i + 3 < |rgba|
  {
    Color(rgba[4 * i], rgba[4 * i + 1], rgba[4 * i + 2], rgba[4 * i + 3])
  }

  /** The pixels of an RGBA buffer, in buffer order. */
  function Pixels(rgba: seq<byte>): (px: seq<Color>)
    requires |rgba| % 4 == 0
    ensures |px| == |rgba| / 4
    ensures forall i :: 0 <= i < |px| ==> px[i] == PixelAt(rgba, i)
  {
    seq(|rgba| / 4, i requires 0 <= i < |rgba| / 4 => PixelAt(rgba, i))
  }

  /** The first position in `cs` whose RGB matches `c`, or |cs| when there
      is none. Used both for the palette search and for first occurrences
      in the image. */
  function FindRgb(cs: seq<Color>, c: Color): (k: nat)
    ensures k <= |cs|
    ensures k < |cs| ==> SameRgb(cs[k], c)
  {
    if |cs| == 0 then 0
    else if SameRgb(cs[0], c) then 0
    else 1 + FindRgb(cs[1..], c)
  }

  /** `FindRgb` finds the first match: the entry it names has the RGB of
      `c` and no entry before it does. */
  lemma {:induction false} FindRgbFirst(cs: seq<Color>, c: Color)
    ensures FindRgb(cs, c) < |cs| ==> SameRgb(cs[FindRgb(cs, c)], c)
    ensures forall j :: 0 <= j < FindRgb(cs, c) ==> !SameRgb(cs[j], c)
  {
    if |cs| > 0 && !SameRgb(cs[0], c) {
      FindRgbFirst(cs[1..], c);
    }
  }

  /** Appending one colour leaves earlier first occurrences in place, and a
      colour seen for the first time is found at the new position. */
  lemma {:induction false} FindRgbExtend(cs: seq<Color>, d: Color, c: Color)
    ensures FindRgb(cs, c) < |cs| ==> FindRgb(cs + [d], c) == FindRgb(cs, c)
    ensures FindRgb(cs, c) == |cs| && SameRgb(d, c) ==> FindRgb(cs + [d], c) == |cs|
  {
    if |cs| > 0 {
      assert (cs + [d])[1..] == cs[1..] + [d];
      FindRgbExtend(cs[1..], d, c);
    }
  }

  /** The palette and the index of each pixel after the scan. */
  datatype Quantized = Quantized(palette: seq<Color>, indices: seq<nat>)

  /** What the quantisation loop has built after scanning `pixels`: a pixel
      whose RGB is in the palette gets the first matching index, a new RGB
      is appended at the end, and a 33rd distinct RGB fails (None). */
  function Quantize(pixels: seq<Color>): (r: Option<Quantized>)
    ensures r.Some? ==> |r.value.palette| <= MaxColors && |r.value.indices| == |pixels|
  {
    if |pixels| == 0 then Some(Quantized([], []))
    else
      match Quantize(pixels[..|pixels| - 1])
      case None => None
      case Some(q) =>
        var col := pixels[|pixels| - 1];
        var idx := FindRgb(q.palette, col);
        if idx < |q.palette| then Some(Quantized(q.palette, q.indices + [idx]))
        else if |q.palette| == MaxColors then None
        else Some(Quantized(q.palette + [col], q.indices + [|q.palette|]))
  }

  /** One step of the scan: the pixel either reuses the first matching
      entry, or is appended at index `colorsCount`, which grows by one. */
  lemma QuantizeStep(pixels: seq<Color>)
    requires |pixels| > 0 && Quantize(pixels).Some?
    ensures Quantize(pixels[..|pixels| - 1]).Some?
    ensures var q0, q, col := Quantize(pixels[..|pixels| - 1]).value, Quantize(pixels).value, pixels[|pixels| - 1];
      var idx := FindRgb(q0.palette, col);
      q.indices == q0.indices + [idx] &&
      (idx < |q0.palette| ==> q.palette == q0.palette) &&
      (idx == |q0.palette| ==> |q0.palette| < MaxColors && q.palette == q0.palette + [col])
  {
  }

  /** No two palette entries have the same RGB. */
  predicate RgbDistinct(pal: seq<Color>)
  {
    forall i, j :: 0 <= i < j < |pal| ==> !SameRgb(pal[i], pal[j])
  }

  /** Every pixel's index is in range and names an entry with its RGB. */
  predicate Resolves(q: Quantized, pixels: seq<Color>)
  {
    |q.indices| == |pixels| &&
    forall p :: 0 <= p < |pixels| ==>
      q.indices[p] < |q.palette| && SameRgb(q.palette[q.indices[p]], pixels[p])
  }

  /** The loop's end state is consistent: at most 32 entries, pairwise
      distinct in RGB, and every pixel's index names an entry with the
      pixel's RGB. */
  lemma {:induction false} QuantizeConsistent(pixels: seq<Color>)
    requires Quantize(pixels).Some?
    ensures |Quantize(pixels).value.palette| <= MaxColors
    ensures RgbDistinct(Quantize(pixels).value.palette)
    ensures Resolves(Quantize(pixels).value, pixels)
  {
    if |pixels| > 0 {
      var n := |pixels| - 1;
      var init := pixels[..n];
      var col := pixels[n];
      QuantizeStep(pixels);
      QuantizeConsistent(init);
      var q0 := Quantize(init).value;
      var q := Quantize(pixels).value;
      FindRgbFirst(q0.palette, col);
      forall p | 0 <= p < |pixels|
        ensures q.indices[p] < |q.palette| && SameRgb(q.palette[q.indices[p]], pixels[p])
      {
        if p < n {
          assert pixels[p] == init[p] && q.indices[p] == q0.indices[p];
          assert q.palette[q0.indices[p]] == q0.palette[q0.indices[p]];
        }
      }
    }
  }

  /** Every stored index names a palette entry. */
  lemma QuantizeIndicesInRange(pixels: seq<Color>)
    requires Quantize(pixels).Some?
    ensures var q := Quantize(pixels).value;
      forall p :: 0 <= p < |q.indices| ==> q.indices[p] < |q.palette| <= MaxColors
  {
    QuantizeConsistent(pixels);
  }

  /** Pixel p's index names an entry with the pixel's RGB. */
  lemma QuantizeResolvesAt(pixels: seq<Color>, p: nat)
    requires Quantize(pixels).Some? && p < |pixels|
    ensures var q := Quantize(pixels).value;
      p < |q.indices| && q.indices[p] < |q.palette| && SameRgb(q.palette[q.indices[p]], pixels[p])
  {
    QuantizeConsistent(pixels);
  }

  /** The pixel's index is the only entry with its RGB, so the first match
      the search stops at is the match. */
  lemma IndexIsUnique(pixels: seq<Color>, p: nat, j: nat)
    requires Quantize(pixels).Some? && p < |pixels|
    requires j < |Quantize(pixels).value.palette|
    requires SameRgb(Quantize(pixels).value.palette[j], pixels[p])
    ensures j == Quantize(pixels).value.indices[p]
  {
    QuantizeConsistent(pixels);
    var q := Quantize(pixels).value;
    var k := q.indices[p];
    if j != k {
      assert SameRgb(q.palette[j], q.palette[k]);
      assert false;
    }
  }

  /** Growth is append-only: the state after any prefix of the pixels is a
      prefix of the final state, so an index once written never changes and
      a palette entry once added never moves. */
  lemma {:induction false} QuantizePrefix(pixels: seq<Color>, k: nat)
    requires k <= |pixels| && Quantize(pixels).Some?
    ensures Quantize(pixels[..k]).Some?
    ensures var q, q' := Quantize(pixels).value, Quantize(pixels[..k]).value;
      q'.indices == q.indices[..k] && |q'.palette| <= |q.palette| && q'.palette == q.palette[..|q'.palette|]
  {
    if k < |pixels| {
      var init := pixels[..|pixels| - 1];
      QuantizeStep(pixels);
      assert init[..k] == pixels[..k];
      QuantizePrefix(init, k);
    } else {
      assert pixels[..k] == pixels;
    }
  }

  /** Once the scan has failed it stays failed: a 33rd distinct colour in a
      prefix rejects the whole image. */
  lemma QuantizeFailurePersists(pixels: seq<Color>, k: nat)
    requires k <= |pixels| && Quantize(pixels[..k]).None?
    ensures Quantize(pixels).None?
  {
    if Quantize(pixels).Some? {
      QuantizePrefix(pixels, k);
    }
  }

  /** A colour whose RGB is not in the palette does not occur among the
      pixels scanned so far. */
  lemma NewColorIsFirstSeen(pixels: seq<Color>, c: Color)
    requires Quantize(pixels).Some?
    requires FindRgb(Quantize(pixels).value.palette, c) == |Quantize(pixels).value.palette|
    ensures FindRgb(pixels, c) == |pixels|
  {
    var q := Quantize(pixels).value;
    QuantizeConsistent(pixels);
    FindRgbFirst(pixels, c);
    FindRgbFirst(q.palette, c);
    forall i | 0 <= i < |pixels| ensures !SameRgb(pixels[i], c) {
      assert SameRgb(q.palette[q.indices[i]], pixels[i]);
    }
  }

  /** Palette order is first-occurrence order: entry j is the pixel at the
      first position carrying its RGB, and entries appear in the order of
      those positions. */
  lemma {:induction false} QuantizeFirstSeen(pixels: seq<Color>)
    requires Quantize(pixels).Some?
    ensures var pal := Quantize(pixels).value.palette;
      forall j :: 0 <= j < |pal| ==>
        FindRgb(pixels, pal[j]) < |pixels| && pixels[FindRgb(pixels, pal[j])] == pal[j]
    ensures var pal := Quantize(pixels).value.palette;
      forall i, j :: 0 <= i < j < |pal| ==> FindRgb(pixels, pal[i]) < FindRgb(pixels, pal[j])
  {
    if |pixels| > 0 {
      var n := |pixels| - 1;
      var init := pixels[..n];
      var col := pixels[n];
      QuantizeStep(pixels);
      QuantizeFirstSeen(init);
      var q0 := Quantize(init).value;
      var pal := Quantize(pixels).value.palette;
      assert pixels == init + [col];
      forall j | 0 <= j < |q0.palette|
        ensures pal[j] == q0.palette[j] && FindRgb(pixels, pal[j]) == FindRgb(init, q0.palette[j])
      {
        FindRgbExtend(init, col, q0.palette[j]);
      }
      if |pal| > |q0.palette| {
        NewColorIsFirstSeen(init, col);
        FindRgbExtend(init, col, col);
      }
    }
  }

  /** The RGB triples that occur in `cs`. */
  function RgbSet(cs: seq<Color>): (s: set<(int, int, int)>)
  {
    set i | 0 <= i < |cs| :: (cs[i].r, cs[i].g, cs[i].b)
  }

  /** Adding one colour adds its RGB triple to the set. */
  lemma RgbSetSnoc(cs: seq<Color>, c: Color)
    ensures RgbSet(cs + [c]) == RgbSet(cs) + {(c.r, c.g, c.b)}
  {
    var s := cs + [c];
    forall t | t in RgbSet(s) ensures t in RgbSet(cs) + {(c.r, c.g, c.b)} {
      var i :| 0 <= i < |s| && t == (s[i].r, s[i].g, s[i].b);
      if i < |cs| { assert s[i] == cs[i]; }
    }
    forall t | t in RgbSet(cs) ensures t in RgbSet(s) {
      var i :| 0 <= i < |cs| && t == (cs[i].r, cs[i].g, cs[i].b);
      assert cs[i] == s[i];
    }
    assert s[|cs|] == c;
    assert (s[|cs|].r, s[|cs|].g, s[|cs|].b) in RgbSet(s);
  }

  /** An RGB triple is in the set exactly when `FindRgb` finds it. */
  lemma RgbSetFind(cs: seq<Color>, c: Color)
    ensures (c.r, c.g, c.b) in RgbSet(cs) <==> FindRgb(cs, c) < |cs|
  {
    FindRgbFirst(cs, c);
    if (c.r, c.g, c.b) in RgbSet(cs) {
      var i :| 0 <= i < |cs| && (c.r, c.g, c.b) == (cs[i].r, cs[i].g, cs[i].b);
      assert SameRgb(cs[i], c);
    }
    if FindRgb(cs, c) < |cs| {
      var f := FindRgb(cs, c);
      assert (cs[f].r, cs[f].g, cs[f].b) in RgbSet(cs);
    }
  }

  /** On success every pixel's RGB is an entry of the palette and every
      entry is some pixel's RGB. */
  lemma PaletteCoversImage(pixels: seq<Color>)
    requires Quantize(pixels).Some?
    ensures RgbSet(Quantize(pixels).value.palette) == RgbSet(pixels)
  {
    var q := Quantize(pixels).value;
    QuantizeConsistent(pixels);
    QuantizeFirstSeen(pixels);
    forall t | t in RgbSet(pixels) ensures t in RgbSet(q.palette) {
      var i :| 0 <= i < |pixels| && t == (pixels[i].r, pixels[i].g, pixels[i].b);
      var k := q.indices[i];
      assert t == (q.palette[k].r, q.palette[k].g, q.palette[k].b);
    }
    forall t | t in RgbSet(q.palette) ensures t in RgbSet(pixels) {
      var j :| 0 <= j < |q.palette| && t == (q.palette[j].r, q.palette[j].g, q.palette[j].b);
      var p := FindRgb(pixels, q.palette[j]);
      assert t == (pixels[p].r, pixels[p].g, pixels[p].b);
    }
  }

  /** An RGB-distinct sequence has as many distinct RGB values as entries. */
  lemma {:induction false} DistinctRgbCount(cs: seq<Color>)
    requires RgbDistinct(cs)
    ensures |RgbSet(cs)| == |cs|
  {
    if |cs| > 0 {
      var n := |cs| - 1;
      var init := cs[..n];
      assert cs == init + [cs[n]];
      assert RgbDistinct(init);
      DistinctRgbCount(init);
      RgbSetSnoc(init, cs[n]);
      RgbSetFind(init, cs[n]);
      FindRgbFirst(init, cs[n]);
      var f := FindRgb(init, cs[n]);
      if f < n {
        assert false;
      }
    }
  }

  lemma SubsetCard<T>(a: set<T>, b: set<T>)
    requires a <= b
    ensures |a| <= |b|
  {
    assert b == a + (b - a);
  }

  /** The scan fails exactly when the image has more than 32 distinct RGB
      values; on success the palette has one entry per distinct RGB. */
  lemma {:induction false} QuantizeFailsIffOverflow(pixels: seq<Color>)
    ensures Quantize(pixels).None? <==> |RgbSet(pixels)| > MaxColors
    ensures Quantize(pixels).Some? ==> |Quantize(pixels).value.palette| == |RgbSet(pixels)|
  {
    if Quantize(pixels).Some? {
      QuantizeConsistent(pixels);
      PaletteCoversImage(pixels);
      DistinctRgbCount(Quantize(pixels).value.palette);
    } else {
      var n := |pixels| - 1;
      var init := pixels[..n];
      var col := pixels[n];
      assert pixels == init + [col];
      RgbSetSnoc(init, col);
      SubsetCard(RgbSet(init), RgbSet(pixels));
      QuantizeFailsIffOverflow(init);
      if Quantize(init).Some? {
        var q0 := Quantize(init).value;
        PaletteCoversImage(init);
        RgbSetFind(q0.palette, col);
      }
    }
  }

  /** The palette as the encoder's fixed table: the colours found, then
      zero-initialised slots up to 32. */
  function PadPalette(pal: seq<Color>): (table: seq<Color>)
    requires |pal| <= MaxColors
    ensures |table| == MaxColors && table[..|pal|] == pal
    ensures forall j :: |pal| <= j < MaxColors ==> table[j] == Blank
  {
    pal + seq(MaxColors - |pal|, _ => Blank)
  }

  /** The scan state after one more pixel, in terms of the state before. */
  lemma QuantizeNext(px: seq<Color>, i: nat)
    requires i < |px| && Quantize(px[..i]).Some?
    ensures var q := Quantize(px[..i]).value;
      var idx := FindRgb(q.palette, px[i]);
      Quantize(px[..i + 1]) ==
        if idx < |q.palette| then Some(Quantized(q.palette, q.indices + [idx]))
        else if |q.palette| == MaxColors then None
        else Some(Quantized(q.palette + [px[i]], q.indices + [|q.palette|]))
  {
    assert px[..i + 1][..i] == px[..i];
  }

  /** The inner linear scan: the index of the first of the `count` palette
      entries with the RGB of `col`, or `count` when there is none. */
  method SearchPalette(pal: seq<Color>, count: nat, col: Color) returns (idx: nat)
    requires count <= |pal|
    ensures idx == FindRgb(pal[..count], col)
  {
    idx := 0;
    while idx < count
      invariant 0 <= idx <= count
      invariant forall j :: 0 <= j < idx ==> !SameRgb(pal[j], col)
    {
      if pal[idx].r == col.r && pal[idx].g == col.g && pal[idx].b == col.b {
        break;
      }
      idx := idx + 1;
    }
    FindRgbFirst(pal[..count], col);
  }

  /** The body of the scan for one pixel colour: reuse the first palette
      entry with its RGB, or append it at `count` (growing the count by one),
      or fail when all 32 slots are taken. */
  method AssignIndex(pal: seq<Color>, count: nat, col: Color)
    returns (ok: bool, pal': seq<Color>, count': nat, idx: nat)
    requires |pal| == MaxColors && count <= MaxColors
    ensures var k := FindRgb(pal[..count], col);
      && (ok <==> k < count || count < MaxColors)
      && (ok && k < count ==> idx == k && pal' == pal && count' == count)
      && (ok && k == count ==> idx == count && count' == count + 1 && pal' == pal[count := col])
  {
    pal', count' := pal, count;
    idx := SearchPalette(pal, count, col);
    ok := true;
    if idx == count {
      if count == MaxColors {
        ok := false;
        return;
      }
      pal' := pal[count := col];
      idx := count;
      count' := count + 1;
    }
  }

  /** One iteration of the scan: read pixel i (`col`), find or append its
      colour, and store its index in byte i. Nothing is written on failure. */
  method ScanPixel(image: array<byte>, i: nat, palette: seq<Color>, count: nat)
    returns (ok: bool, col: Color, palette': seq<Color>, count': nat)
    requires 4 * i + 3 < image.Length && |palette| == MaxColors && count <= MaxColors
    modifies image
    ensures col == Color(old(image[4 * i]), old(image[4 * i + 1]), old(image[4 * i + 2]), old(image[4 * i + 3]))
    ensures var k := FindRgb(palette[..count], col);
      && (ok <==> k < count || count < MaxColors)
      && (ok ==> image[i] == k)
      && (ok && k < count ==> palette' == palette && count' == count)
      && (ok && k == count ==> count' == count + 1 && palette' == palette[count := col])
    ensures forall m :: 0 <= m < image.Length && (m != i || !ok) ==> image[m] == old(image[m])
  {
    col := Color(image[i * 4], image[i * 4 + 1], image[i * 4 + 2], image[i * 4 + 3]);
    var idx;
    ok, palette', count', idx := AssignIndex(palette, count, col);
    if ok {
      image[i] := idx;
    }
  }

  /** What one iteration of the loop does to the scan state, as `Quantize`
      describes it for one more pixel. */
  lemma ScanStep(pixels: seq<Color>, i: nat, palette: seq<Color>, count: nat, indices: seq<nat>,
                 ok: bool, palette': seq<Color>, count': nat)
    requires i < |pixels| && |palette| == MaxColors && count <= MaxColors
    requires Quantize(pixels[..i]) == Some(Quantized(palette[..count], indices))
    requires var k := FindRgb(palette[..count], pixels[i]);
      && (ok <==> k < count || count < MaxColors)
      && (ok && k < count ==> palette' == palette && count' == count)
      && (ok && k == count ==> count' == count + 1 && palette' == palette[count := pixels[i]])
    ensures ok ==> (count' <= |palette'| &&
      Quantize(pixels[..i + 1]) == Some(Quantized(palette'[..count'], indices + [FindRgb(palette[..count], pixels[i])])))
    ensures !ok ==> Quantize(pixels[..i + 1]).None?
  {
    QuantizeNext(pixels, i);
    if ok && FindRgb(palette[..count], pixels[i]) == count {
      assert palette'[..count'] == palette[..count] + [pixels[i]];
    }
  }

  /** The quantisation loop over a decoded RGBA buffer of n pixels. It reads
      pixel i from bytes 4i..4i+3 and writes its index to byte i, so it never
      overwrites a byte it has still to read. `done` pixels are scanned: all
      of them on success, those before the 33rd colour on failure. Their
      indices (`scanned`, the state `Quantize` gives for that prefix) are in
      the first `done` bytes; bytes not yet reached keep their value. On
      success the palette table and the colour count are those of `Quantize`. */
  method QuantizeInPlace(image: array<byte>, n: nat)
    returns (ok: bool, palette: seq<Color>, count: nat,
             ghost pixels: seq<Color>, ghost done: nat, ghost scanned: Quantized)
    requires image.Length == 4 * n
    modifies image
    ensures pixels == Pixels(old(image[..]))
    ensures done <= n && Quantize(pixels[..done]) == Some(scanned)
    ensures forall p :: 0 <= p < done ==> image[p] == scanned.indices[p]
    ensures forall k :: done <= k < image.Length ==> image[k] == old(image[k])
    ensures ok <==> Quantize(pixels).Some?
    ensures ok ==> done == n && Quantize(pixels) == Some(scanned)
    ensures ok ==> count == |scanned.palette| && palette == PadPalette(scanned.palette)
  {
    pixels := Pixels(image[..]);
    ghost var indices: seq<nat> := [];
    palette := seq(MaxColors, _ => Blank);
    count := 0;
    ok := true;
    var i := 0;
    while i < n
      invariant 0 <= i <= n && count <= MaxColors && |palette| == MaxColors
      invariant forall k :: i <= k < image.Length ==> image[k] == old(image[k])
      invariant Quantize(pixels[..i]) == Some(Quantized(palette[..count], indices))
      invariant |indices| == i && forall p :: 0 <= p < i ==> image[p] == indices[p]
      invariant forall j :: count <= j < MaxColors ==> palette[j] == Blank
    {
      var found, col, pal', count' := ScanPixel(image, i, palette, count);
      assert col == pixels[i];
      ScanStep(pixels, i, palette, count, indices, found, pal', count');
      if !found {
        ok := false;
        QuantizeFailurePersists(pixels, i + 1);
        break;
      }
      indices := indices + [FindRgb(palette[..count], col)];
      palette, count := pal', count';
      i := i + 1;
    }
    if ok {
      assert pixels[..n] == pixels;
    }
    done, scanned := i, Quantized(palette[..count], indices);
  }
}
