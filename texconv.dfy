/** The encoder's `main`: argument and image validation, palette
    quantisation, plane packing and serialisation into `output.bin`. Image
    decoding is a parameter (`decode` stands for `lodepng_decode32_file`),
    and so is the outcome of the one allocation `main` checks. */
module Texconv {
  import opened Common
  import opened SizeCode
  import opened PaletteQuantizer
  import opened BasisEncoder
  import opened AssetPacker

  /** A decoded PNG: width, height, and four bytes (r, g, b, a) per pixel in
      row-major order. */
  datatype Image = Image(width: int, height: int, rgba: seq<byte>)

  predicate WellFormed(img: Image)
  {
    img.width >= 0 && img.height >= 0 && |img.rgba| == 4 * (img.width * img.height)
  }

  /** The decoder hands back well-formed images or an error code. */
  ghost predicate Decoder(decode: string -> Result<Image, nat>)
  {
    forall path :: decode(path).Ok? ==> WellFormed(decode(path).value)
  }

  /** Why the tool returns 1, in the order `main` checks. */
  datatype Failure =
    | Usage                        // argc != 3
    | TextureUnreadable(code: nat) // the texture does not decode
    | NormalMapUnreadable(code: nat)
    | ResolutionMismatch           // the normal map's size differs
    | UnsupportedResolution        // a side is not 8, 16, ..., 1024
    | PaletteOverflow              // a 33rd distinct RGB value
    | OutOfMemory                  // the malloc of the two planes fails

  predicate SameSize(a: Image, b: Image)
  {
    a.width == b.width && a.height == b.height
  }

  /** Every check before quantisation passes: two paths, both decode, the
      sizes agree and both sides are supported. */
  predicate Validated(args: seq<string>, decode: string -> Result<Image, nat>)
  {
    && |args| == 3 && decode(args[1]).Ok? && decode(args[2]).Ok?
    && SameSize(decode(args[1]).value, decode(args[2]).value)
    && Supported(decode(args[1]).value.width) && Supported(decode(args[1]).value.height)
  }

  /** The part of `main` after validation: quantise the texture, allocate
      the planes, pack them and serialise the asset. */
  function Encode(texture: Image, normalMap: Image, allocOk: bool, alphaOf: Color -> AlphaPair)
    : (r: Result<seq<byte>, Failure>)
    requires WellFormed(texture) && WellFormed(normalMap) && SameSize(texture, normalMap)
    requires Supported(texture.width) && Supported(texture.height)
    ensures r.Ok? ==> allocOk && |r.value| == 2 + 2 * (texture.width * texture.height) + PaletteBytes
    ensures r.Err? ==> r.error == PaletteOverflow || r.error == OutOfMemory
  {
    var pixels := Pixels(texture.rgba);
    match Quantize(pixels)
    case None => Err(PaletteOverflow)
    case Some(q) =>
      if !allocOk then Err(OutOfMemory)
      else
        QuantizeConsistent(pixels);
        Ok(AssetBytes(GetSize(texture.width), GetSize(texture.height),
                      Planes(q.indices, Pixels(normalMap.rgba), alphaOf), PadPalette(q.palette)))
  }

  /** What a run of the tool produces: the bytes of `output.bin`, or the
      reason it stopped. */
  function Convert(args: seq<string>, decode: string -> Result<Image, nat>, allocOk: bool,
                   alphaOf: Color -> AlphaPair): (r: Result<seq<byte>, Failure>)
    requires Decoder(decode)
    ensures r.Ok? ==> Validated(args, decode) && allocOk
  {
    if |args| != 3 then Err(Usage)
    else if decode(args[1]).Err? then Err(TextureUnreadable(decode(args[1]).error))
    else if decode(args[2]).Err? then Err(NormalMapUnreadable(decode(args[2]).error))
    else
      var texture, normalMap := decode(args[1]).value, decode(args[2]).value;
      if normalMap.width != texture.width || normalMap.height != texture.height then Err(ResolutionMismatch)
      else if GetSize(texture.width) == -1 || GetSize(texture.height) == -1 then Err(UnsupportedResolution)
      else Encode(texture, normalMap, allocOk, alphaOf)
  }

  /** The tool succeeds exactly when every validation passes, the texture
      has at most 32 distinct RGB values and the allocation succeeds; it
      reports a palette overflow exactly when it has more than 32. */
  lemma ConvertOutcome(args: seq<string>, decode: string -> Result<Image, nat>, allocOk: bool,
                       alphaOf: Color -> AlphaPair)
    requires Decoder(decode)
    ensures Convert(args, decode, allocOk, alphaOf).Ok? <==>
      Validated(args, decode) && |RgbSet(Pixels(decode(args[1]).value.rgba))| <= MaxColors && allocOk
    ensures Convert(args, decode, allocOk, alphaOf) == Err(PaletteOverflow) <==>
      Validated(args, decode) && |RgbSet(Pixels(decode(args[1]).value.rgba))| > MaxColors
  {
    if Validated(args, decode) {
      QuantizeFailsIffOverflow(Pixels(decode(args[1]).value.rgba));
    }
  }

  /** The failures that need no image data come first: a wrong argument
      count, an undecodable image, differing sizes and an unsupported size
      are each reported as such, whatever the pixels are. */
  lemma EarlyFailures(args: seq<string>, decode: string -> Result<Image, nat>, allocOk: bool,
                      alphaOf: Color -> AlphaPair)
    requires Decoder(decode)
    ensures |args| != 3 ==> Convert(args, decode, allocOk, alphaOf) == Err(Usage)
    ensures |args| == 3 && decode(args[1]).Err? ==>
      Convert(args, decode, allocOk, alphaOf) == Err(TextureUnreadable(decode(args[1]).error))
    ensures |args| == 3 && decode(args[1]).Ok? && decode(args[2]).Err? ==>
      Convert(args, decode, allocOk, alphaOf) == Err(NormalMapUnreadable(decode(args[2]).error))
    ensures (|args| == 3 && decode(args[1]).Ok? && decode(args[2]).Ok? &&
             !SameSize(decode(args[1]).value, decode(args[2]).value)) ==>
      Convert(args, decode, allocOk, alphaOf) == Err(ResolutionMismatch)
    ensures (|args| == 3 && decode(args[1]).Ok? && decode(args[2]).Ok? &&
             SameSize(decode(args[1]).value, decode(args[2]).value) &&
             (!Supported(decode(args[1]).value.width) || !Supported(decode(args[1]).value.height))) ==>
      Convert(args, decode, allocOk, alphaOf) == Err(UnsupportedResolution)
    ensures Validated(args, decode) ==>
      Convert(args, decode, allocOk, alphaOf) == Encode(decode(args[1]).value, decode(args[2]).value, allocOk, alphaOf)
  {
  }

  /** A successful encoding is the serialised asset of the scanned palette
      and of the planes of the scanned indices, every index in range. */
  lemma EncodeParts(texture: Image, normalMap: Image, allocOk: bool, alphaOf: Color -> AlphaPair)
    requires WellFormed(texture) && WellFormed(normalMap) && SameSize(texture, normalMap)
    requires Supported(texture.width) && Supported(texture.height)
    requires Encode(texture, normalMap, allocOk, alphaOf).Ok?
    ensures Quantize(Pixels(texture.rgba)).Some?
    ensures var q := Quantize(Pixels(texture.rgba)).value;
      && |q.indices| == |Pixels(normalMap.rgba)| == texture.width * texture.height
      && (forall i :: 0 <= i < |q.indices| ==> q.indices[i] < |q.palette|)
      && Encode(texture, normalMap, allocOk, alphaOf).value ==
         AssetBytes(GetSize(texture.width), GetSize(texture.height),
                    Planes(q.indices, Pixels(normalMap.rgba), alphaOf), PadPalette(q.palette))
  {
    QuantizeIndicesInRange(Pixels(texture.rgba));
  }

  /** Texel p of an asset: both planes hold its palette index, the alpha
      bits hold its two factors, and the palette word at its index reads
      back as the colour word of the palette entry. */
  lemma AssetTexel(codeW: byte, codeH: byte, indices: seq<nat>, normals: seq<Color>,
                   alphaOf: Color -> AlphaPair, pal: seq<Color>, p: nat)
    requires |indices| == |normals| && p < |indices| && |pal| <= MaxColors
    requires forall q :: 0 <= q < |indices| ==> indices[q] < |pal|
    ensures var file, n := AssetBytes(codeW, codeH, Planes(indices, normals, alphaOf), PadPalette(pal)), |indices|;
      && file[2 + p] % 32 == indices[p] && file[2 + n + p] % 32 == indices[p]
      && file[2 + p] / 32 == alphaOf(normals[p]).a2 && file[2 + n + p] / 32 == alphaOf(normals[p]).a3
      && file[2 + 2 * n + 2 * indices[p]] as int + 256 * (file[2 + 2 * n + 2 * indices[p] + 1] as int)
         == ColorWord(pal[indices[p]])
  {
    var n := |indices|;
    var planes, table := Planes(indices, normals, alphaOf), PadPalette(pal);
    var file := AssetBytes(codeW, codeH, planes, table);
    PlanesUnpack(indices, normals, alphaOf, p);
    assert file[2 + p] == planes[p] && file[2 + n + p] == planes[n + p];
    var idx := indices[p];
    assert table[idx] == pal[idx];
    PaletteBlockLayout(table, 0, idx, 2 * idx);
    assert file[2 + 2 * n + 2 * idx] == PaletteBlock(table)[2 * idx];
    assert file[2 + 2 * n + 2 * idx + 1] == PaletteBlock(table)[2 * idx + 1];
  }

  /** The layout of a successful output for texel p: the header decodes to
      the image size, both planes hold the texel's palette index with its two
      alpha factors, and the palette word at that index is the 15-bit form
      of the texel's original colour. */
  lemma EncodeLayout(texture: Image, normalMap: Image, allocOk: bool, alphaOf: Color -> AlphaPair, p: nat)
    requires WellFormed(texture) && WellFormed(normalMap) && SameSize(texture, normalMap)
    requires Supported(texture.width) && Supported(texture.height)
    requires Encode(texture, normalMap, allocOk, alphaOf).Ok? && p < texture.width * texture.height
    ensures var file, n := Encode(texture, normalMap, allocOk, alphaOf).value, texture.width * texture.height;
      && 0 <= file[0] <= 7 && Dimension(file[0]) == texture.width
      && 0 <= file[1] <= 7 && Dimension(file[1]) == texture.height
      && file[2 + p] % 32 == file[2 + n + p] % 32
      && file[2 + p] / 32 == alphaOf(PixelAt(normalMap.rgba, p)).a2
      && file[2 + n + p] / 32 == alphaOf(PixelAt(normalMap.rgba, p)).a3
      && file[2 + 2 * n + 2 * (file[2 + p] % 32)] as int + 256 * (file[2 + 2 * n + 2 * (file[2 + p] % 32) + 1] as int)
         == ColorWord(PixelAt(texture.rgba, p))
  {
    var pixels, normals := Pixels(texture.rgba), Pixels(normalMap.rgba);
    EncodeParts(texture, normalMap, allocOk, alphaOf);
    var q := Quantize(pixels).value;
    QuantizeResolvesAt(pixels, p);
    GetSizeRoundTrip(texture.width, texture.width);
    GetSizeRoundTrip(texture.height, texture.height);
    AssetTexel(GetSize(texture.width), GetSize(texture.height), q.indices, normals, alphaOf, q.palette, p);
    assert |q.indices| == texture.width * texture.height && normals[p] == PixelAt(normalMap.rgba, p);
    var idx := q.indices[p];
    assert ColorWord(q.palette[idx]) == ColorWord(PixelAt(texture.rgba, p)) by {
      ColorWordRgb(q.palette[idx], pixels[p]);
    }
  }

  /** The tail of `main` on validated images: the texture buffer is
      quantised in place, the planes are packed into a fresh buffer (when
      the allocation succeeds) and serialised. Returns the exit code and the
      bytes of `output.bin`, None when it is never opened. */
  method EncodeImages(texture: Image, normalMap: Image, allocOk: bool, alphaOf: Color -> AlphaPair)
    returns (exitCode: int, output: Option<seq<byte>>)
    requires WellFormed(texture) && WellFormed(normalMap) && SameSize(texture, normalMap)
    requires Supported(texture.width) && Supported(texture.height)
    ensures var r := Encode(texture, normalMap, allocOk, alphaOf);
      && (exitCode == 0 <==> r.Ok?) && (exitCode == 0 || exitCode == 1)
      && output == (if r.Ok? then Some(r.value) else None)
  {
    var w, h, rgba := texture.width, texture.height, texture.rgba;
    var image := new byte[|rgba|](i requires 0 <= i < |rgba| => rgba[i]);
    assert image[..] == rgba;
    var ok, palette, count, pixels, done, scanned := QuantizeInPlace(image, w * h);
    if !ok {
      return 1, None;
    }
    if !allocOk {
      return 1, None;
    }
    QuantizeConsistent(pixels);
    assert image[..w * h] == scanned.indices;
    var outIdx := PackPlanes(image, normalMap.rgba, w, h, alphaOf);
    var file := WriteAsset(w, h, outIdx, palette);
    return 0, Some(file);
  }

  /** `main`: the checks run in the source's order and every failure
      returns 1 before `output.bin` is opened. */
  method Run(args: seq<string>, decode: string -> Result<Image, nat>, allocOk: bool,
             alphaOf: Color -> AlphaPair) returns (exitCode: int, output: Option<seq<byte>>)
    requires Decoder(decode)
    ensures var r := Convert(args, decode, allocOk, alphaOf);
      && (exitCode == 0 || exitCode == 1)
      && (exitCode == 0 <==> r.Ok?)
      && output == (if r.Ok? then Some(r.value) else None)
  {
    if |args| != 3 {
      return 1, None;
    }
    var texture := decode(args[1]);
    if texture.Err? {
      return 1, None;
    }
    var normalMap := decode(args[2]);
    if normalMap.Err? {
      return 1, None;
    }
    var w, h := texture.value.width, texture.value.height;
    if normalMap.value.width != w || normalMap.value.height != h {
      return 1, None;
    }
    if GetSize(w) == -1 || GetSize(h) == -1 {
      return 1, None;
    }
    exitCode, output := EncodeImages(texture.value, normalMap.value, allocOk, alphaOf);
  }
}
