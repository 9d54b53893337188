/** The runtime's `loadTexture`: the asset's header is decoded into the
    texture size, and the two planes become two textures that share the
    palette region as their 256-entry colour table. */
module AssetLoader {
  import opened Common
  import opened SizeCode
  import opened PaletteQuantizer
  import opened BasisEncoder
  import opened AssetPacker
  import opened Texconv

  /** How the hardware reads a texel byte: `RGB32_A3` takes the low five
      bits as the colour index and the top three as alpha; `RGB256` takes
      all eight bits as the colour index and ignores alpha. */
  datatype Format = RGB32_A3 | RGB256

  /** A texture as `glTexImage2D` and `glColorTableEXT` set it up. */
  datatype Texture = Texture(width: nat, height: nat, format: Format, texels: seq<byte>, colors: seq<int>)

  /** The two textures `loadTexture` creates, with the size it reports. */
  datatype Loaded = Loaded(width: nat, height: nat, tex1: Texture, tex2: Texture)

  /** Where the source stops on an `assert` or reads past the buffer, the
      model reports an error. */
  datatype LoadError = Truncated | BadSizeCode

  /** Entry j of the colour table at byte `offset`: a little-endian 16-bit
      word. */
  function ReadWord(data: seq<byte>, offset: nat): (word: int)
    requires offset + 1 < |data|
    ensures 0 <= word < 0x10000
  {
    data[offset] as int + 256 * (data[offset + 1] as int)
  }

  /** `glColorTableEXT(..., 256, ..., palette)`: 256 words from `offset`. */
  function ColorTable(data: seq<byte>, offset: nat): (table: seq<int>)
    requires offset + 512 <= |data|
    ensures |table| == 256
    ensures forall j :: 0 <= j < 256 ==> table[j] == ReadWord(data, offset + 2 * j)
  {
    seq(256, j requires 0 <= j < 256 => ReadWord(data, offset + 2 * j))
  }

  /** `loadTexture` on the bytes of the file: `w = 1 << (data[0] + 3)`,
      `h = 1 << (data[1] + 3)`, plane 0 at byte 2, plane 1 at `2 + w*h`,
      the colour table at `2 + w*h*2` (`2 + 2*n` for n texels); both textures are `RGB32_A3`. */
  function LoadTexture(data: seq<byte>): (r: Result<Loaded, LoadError>)
    ensures r.Ok? <==>
      |data| >= 2 && data[0] <= 7 && data[1] <= 7 &&
      |data| >= 2 + 2 * (Dimension(data[0]) * Dimension(data[1])) + PaletteBytes
    ensures r.Ok? ==> Supported(r.value.width) && Supported(r.value.height)
    ensures r.Ok? ==> GetSize(r.value.width) == data[0] && GetSize(r.value.height) == data[1]
  {
    if |data| < 2 then Err(Truncated)
    else if data[0] > 7 || data[1] > 7 then Err(BadSizeCode)
    else
      var w, h := Dimension(data[0]), Dimension(data[1]);
      CodesAreSizes(data[0]);
      CodesAreSizes(data[1]);
      var n := w * h;
      if |data| < 2 + 2 * n + PaletteBytes then Err(Truncated)
      else
        var colors := ColorTable(data, 2 + 2 * n);
        Ok(Loaded(w, h,
          Texture(w, h, RGB32_A3, data[2..2 + n], colors),
          Texture(w, h, RGB32_A3, data[2 + n..2 + 2 * n], colors)))
  }

  /** The colour shown for texel p under a format. */
  function TexelColor(t: Texture, format: Format, p: nat): (c: int)
    requires p < |t.texels| && |t.colors| == 256
    ensures format == RGB256 ==> c == t.colors[t.texels[p]]
    ensures format == RGB32_A3 ==> c == t.colors[t.texels[p] % 32]
  {
    match format
    case RGB256 => t.colors[t.texels[p]]
    case RGB32_A3 => t.colors[t.texels[p] % 32]
  }

  /** The colour table read from a written palette region is the 256
      palette words. */
  lemma ColorTableOfPalette(data: seq<byte>, offset: nat, table: seq<Color>)
    requires |table| == MaxColors && offset + PaletteBytes <= |data|
    requires data[offset..offset + PaletteBytes] == PaletteBlock(table)
    ensures ColorTable(data, offset) == PaletteWords(table)
  {
    var words := PaletteWords(table);
    forall j | 0 <= j < 256 ensures ColorTable(data, offset)[j] == words[j] {
      LittleEndianAt(words, j);
      WordBytesRoundTrip(words[j]);
      assert data[offset + 2 * j] == PaletteBlock(table)[2 * j];
      assert data[offset + 2 * j + 1] == PaletteBlock(table)[2 * j + 1];
    }
  }

  /** The loader inverts the serialiser: for every supported size, the
      header decodes to that size, plane 0 and plane 1 come back from the
      offsets they were written at, and the colour table is the palette's
      256 words. */
  lemma LoadRoundTrip(w: int, h: int, planes: seq<byte>, table: seq<Color>)
    requires Supported(w) && Supported(h) && |planes| == 2 * (w * h) && |table| == MaxColors
    ensures var n := w * h;
      LoadTexture(AssetBytes(GetSize(w), GetSize(h), planes, table)) ==
        Ok(Loaded(w, h,
          Texture(w, h, RGB32_A3, planes[..n], PaletteWords(table)),
          Texture(w, h, RGB32_A3, planes[n..], PaletteWords(table))))
  {
    var n := w * h;
    var file := AssetBytes(GetSize(w), GetSize(h), planes, table);
    GetSizeRoundTrip(w, w);
    GetSizeRoundTrip(h, h);
    LoadTextureOf(file, w, h, n);
    AssetRegions(GetSize(w), GetSize(h), planes, table, n);
    ColorTableOfPalette(file, 2 + 2 * n, table);
  }

  /** `loadTexture` on a long enough buffer with size codes 0..7. */
  lemma LoadTextureOf(data: seq<byte>, w: nat, h: nat, n: nat)
    requires |data| >= 2 && data[0] <= 7 && data[1] <= 7
    requires w == Dimension(data[0]) && h == Dimension(data[1]) && n == w * h
    requires |data| >= 2 + 2 * n + PaletteBytes
    ensures LoadTexture(data) == Ok(Loaded(w, h,
      Texture(w, h, RGB32_A3, data[2..2 + n], ColorTable(data, 2 + 2 * n)),
      Texture(w, h, RGB32_A3, data[2 + n..2 + 2 * n], ColorTable(data, 2 + 2 * n))))
  {
  }

  /** The three regions of an asset with n texels per plane. */
  lemma AssetRegions(codeW: byte, codeH: byte, planes: seq<byte>, table: seq<Color>, n: nat)
    requires |planes| == 2 * n && |table| == MaxColors
    ensures var file := AssetBytes(codeW, codeH, planes, table);
      && file[2..2 + n] == planes[..n]
      && file[2 + n..2 + 2 * n] == planes[n..]
      && file[2 + 2 * n..2 + 2 * n + PaletteBytes] == PaletteBlock(table)
  {
    var file := AssetBytes(codeW, codeH, planes, table);
    var region := file[2..2 + 2 * n];
    assert region == planes;
    assert file[2..2 + n] == region[..n];
    assert file[2 + n..2 + 2 * n] == region[n..];
    assert file[2 + 2 * n..] == PaletteBlock(table);
  }

  /** Entry j of a written colour table equals entry `j mod 32`: the table
      is 8 copies of the 32 palette words. */
  lemma PaletteWordsRepeat(table: seq<Color>, j: nat)
    requires |table| == MaxColors && j < 256
    ensures PaletteWords(table)[j] == PaletteWords(table)[j % 32] == ColorWord(table[j % 32])
  {
    var t := j % 32;
    DivModUnique(t, 32, 0, t);
  }

  /** For a table of 8 copies, a texel shows the same colour read as an
      8-bit index (alpha ignored) and read as a 5-bit index with alpha. */
  lemma ViewsAgree(t: Texture, table: seq<Color>, p: nat)
    requires |table| == MaxColors && t.colors == PaletteWords(table) && p < |t.texels|
    ensures TexelColor(t, RGB256, p) == TexelColor(t, RGB32_A3, p)
  {
    PaletteWordsRepeat(table, t.texels[p]);
    PaletteWordsRepeat(table, t.texels[p] % 32);
  }

  /** The encoder and the loader together, on validated images: what the
      tool writes loads back at the texture's size, and texel p of both
      textures shows the 15-bit form of its original colour under either
      format, with its two alpha factors in the top bits of the two planes. */
  lemma EncodeThenLoad(texture: Image, normalMap: Image, allocOk: bool, alphaOf: Color -> AlphaPair, p: nat)
    requires WellFormed(texture) && WellFormed(normalMap) && SameSize(texture, normalMap)
    requires Supported(texture.width) && Supported(texture.height)
    requires Encode(texture, normalMap, allocOk, alphaOf).Ok? && p < texture.width * texture.height
    ensures var r := LoadTexture(Encode(texture, normalMap, allocOk, alphaOf).value);
      && r.Ok? && r.value.width == texture.width && r.value.height == texture.height
      && p < |r.value.tex1.texels| && p < |r.value.tex2.texels|
      && |r.value.tex1.colors| == 256 && r.value.tex2.colors == r.value.tex1.colors
      && TexelColor(r.value.tex1, RGB256, p) == ColorWord(PixelAt(texture.rgba, p))
      && TexelColor(r.value.tex1, RGB32_A3, p) == ColorWord(PixelAt(texture.rgba, p))
      && TexelColor(r.value.tex2, RGB32_A3, p) == ColorWord(PixelAt(texture.rgba, p))
      && r.value.tex1.texels[p] / 32 == alphaOf(PixelAt(normalMap.rgba, p)).a2
      && r.value.tex2.texels[p] / 32 == alphaOf(PixelAt(normalMap.rgba, p)).a3
  {
    var pixels, normals := Pixels(texture.rgba), Pixels(normalMap.rgba);
    EncodeParts(texture, normalMap, allocOk, alphaOf);
    var q := Quantize(pixels).value;
    QuantizeResolvesAt(pixels, p);
    LoadAsset(texture.width, texture.height, q.indices, normals, alphaOf, q.palette, p);
    ColorWordRgb(q.palette[q.indices[p]], pixels[p]);
  }

  /** Loading an asset built from palette indices, normal-map pixels and a
      palette of at most 32 entries: texel p shows the colour word of its
      palette entry in both textures and under either format, and its two
      alpha factors sit in the top bits of the two planes. */
  lemma LoadAsset(w: int, h: int, indices: seq<nat>, normals: seq<Color>, alphaOf: Color -> AlphaPair,
                  pal: seq<Color>, p: nat)
    requires Supported(w) && Supported(h) && |indices| == |normals| == w * h && p < w * h
    requires |pal| <= MaxColors && forall i :: 0 <= i < |indices| ==> indices[i] < |pal|
    ensures var r := LoadTexture(AssetBytes(GetSize(w), GetSize(h), Planes(indices, normals, alphaOf), PadPalette(pal)));
      && r.Ok? && r.value.width == w && r.value.height == h
      && p < |r.value.tex1.texels| && p < |r.value.tex2.texels|
      && |r.value.tex1.colors| == 256 && r.value.tex2.colors == r.value.tex1.colors
      && TexelColor(r.value.tex1, RGB256, p) == ColorWord(pal[indices[p]])
      && TexelColor(r.value.tex1, RGB32_A3, p) == ColorWord(pal[indices[p]])
      && TexelColor(r.value.tex2, RGB32_A3, p) == ColorWord(pal[indices[p]])
      && r.value.tex1.texels[p] / 32 == alphaOf(normals[p]).a2
      && r.value.tex2.texels[p] / 32 == alphaOf(normals[p]).a3
  {
    var n := w * h;
    var planes, table := Planes(indices, normals, alphaOf), PadPalette(pal);
    LoadRoundTrip(w, h, planes, table);
    PlanesUnpack(indices, normals, alphaOf, p);
    var idx := indices[p];
    assert planes[..n][p] == planes[p] && planes[n..][p] == planes[n + p];
    PaletteWordsRepeat(table, idx);
    PaletteWordsRepeat(table, planes[p]);
    assert table[idx] == pal[idx];
  }

  /** The same end to end, from the tool's arguments: whenever the tool
      succeeds, its output loads, every texel shows its original colour in
      every view, and the two textures carry the normal map's two alpha
      factors. */
  lemma ConvertThenLoad(args: seq<string>, decode: string -> Result<Image, nat>, allocOk: bool,
                        alphaOf: Color -> AlphaPair, p: nat)
    requires Decoder(decode) && Convert(args, decode, allocOk, alphaOf).Ok?
    requires p < decode(args[1]).value.width * decode(args[1]).value.height
    ensures var texture, normalMap := decode(args[1]).value, decode(args[2]).value;
      var r := LoadTexture(Convert(args, decode, allocOk, alphaOf).value);
      && r.Ok? && r.value.width == texture.width && r.value.height == texture.height
      && p < |r.value.tex1.texels| && p < |r.value.tex2.texels|
      && |r.value.tex1.colors| == 256 && r.value.tex2.colors == r.value.tex1.colors
      && TexelColor(r.value.tex1, RGB256, p) == ColorWord(PixelAt(texture.rgba, p))
      && TexelColor(r.value.tex1, RGB32_A3, p) == ColorWord(PixelAt(texture.rgba, p))
      && TexelColor(r.value.tex2, RGB32_A3, p) == ColorWord(PixelAt(texture.rgba, p))
      && 4 * p + 3 < |normalMap.rgba|
      && r.value.tex1.texels[p] / 32 == alphaOf(PixelAt(normalMap.rgba, p)).a2
      && r.value.tex2.texels[p] / 32 == alphaOf(PixelAt(normalMap.rgba, p)).a3
  {
    EarlyFailures(args, decode, allocOk, alphaOf);
    EncodeThenLoad(decode(args[1]).value, decode(args[2]).value, allocOk, alphaOf, p);
  }
}
