# NormalmappingDS in Dafny

NormalmappingDS shows radiosity normal mapping on the Nintendo DS. It has two parts:

- **texconv** is a host tool. It takes a colour texture and a normal map of the same size. It quantises the texture to a palette of at most 32 colours. It then writes `output.bin`, which holds:
  - two size codes;
  - two planes of texel bytes (a 5-bit palette index plus a 3-bit alpha factor, one factor per plane);
  - the palette as 15-bit DS colours, written eight times so that the same 512 bytes work as a 256-entry colour table.
- **The DS program** loads that asset as two textures that share the colour table. It lights a 3x3 floor per vertex with two point lights in 20.12 fixed point. With normal mapping on, it draws the floor three times, once per basis direction. The alpha factors blend the three passes.

This project models both parts:

| module | file | what it models |
|---|---|---|
| `SizeCode` | `sizecode.dfy` | `getSize` |
| `PaletteQuantizer` | `quantizer.dfy` | palette quantisation, both as a pure specification and as the in-place loop over the texture buffer |
| `BasisEncoder` | `encoder.dfy` | packing of the two index/alpha planes, as a loop over an array |
| `AssetPacker` | `packer.dfy` | the 15-bit colour words and the byte layout of `output.bin` |
| `Texconv` | `texconv.dfy` | texconv's `main`: validation order, exit codes and output |
| `AssetLoader` | `loader.dfy` | `loadTexture` |
| `FixedPoint` | `fixed.dfy` | the libnds fixed-point primitives the lighting uses |
| `Lighting` | `lighting.dfy` | `calcLight` and `calcLights` |
| `SceneRenderer` | `render.dfy` | `addPlane`, `renderFloor` and the floor passes of `renderScene` |

The central properties are proved for every pixel of every input the tool accepts:

- Encoding an image and then loading it shows each texel's original colour, as its 15-bit DS word, in every pass and format the renderer uses.
- Each pass reads the alpha factor of its own basis.
- The tool fails on the palette exactly when the texture has more than 32 distinct RGB values.
- The lit floor covers the 3x3 area with quads that share their edges.
- Every vertex colour is the shade that the two lights give at that vertex.

The lighting has one quirk that the model makes explicit. When the squared distance `dist` (in 20.12) from a light to a vertex is below 64, `mulf32(dist, dist)` rounds down to 0. That happens for a light closer than about 512 units, 1/8 of a floor tile. The divider's answer for a zero divisor is -1, so the light then takes light away from that vertex instead of adding it. `Lighting.CloseLightDarkens` states this in general and `Lighting.CloseLightExample` shows one instance. `Lighting.ContributionNonNegative` and `Lighting.AccumulatedNonNegative` therefore require `mulf32(dist, dist)` to be positive, not just the distance.

## Model

| member | source | states |
|---|---|---|
| SizeCode.GetSize | texconv/main.c:47-57 | the code is -1 exactly for the sizes the DS does not support; otherwise it is in 0..7 and 8 << code is the size |
| SizeCode.CodesAreSizes | texconv/main.c:47-57 | every code 0..7 belongs to a supported size, and that size maps back to the code |
| SizeCode.Dimension | source/main.c:27-28 | the loader's `1 << (code + 3)` is a side length of at least 8 and a multiple of 8, and for the codes 0..7 at most 1024 |
| SizeCode.GetSizeRoundTrip | texconv/main.c:47-57 | for supported sizes the code determines the size (injective), so the loader's `1 << (code + 3)` restores it |
| Common.Pack15 | source/main.c:126 | `(b << 10) \| (g << 5) \| r` of three 5-bit channels fits 15 bits, and each channel is recovered by shift and mask |
| PaletteQuantizer.Pixels | texconv/main.c:109-110 | the RGBA buffer read as one colour per 4 bytes, pixel i from bytes 4i..4i+3 |
| PaletteQuantizer.FindRgb | texconv/main.c:112-116 | the search stops at the palette's size or at an entry with the same RGB; `FindRgbFirst` states that no earlier entry matches |
| PaletteQuantizer.FindRgbFirst | texconv/main.c:112-116 | the palette search stops at the first entry with equal r, g, b (alpha ignored), and none before it matches |
| PaletteQuantizer.FindRgbExtend | texconv/main.c:112-116 | appending to the palette does not change where an existing colour is found |
| PaletteQuantizer.Quantize | texconv/main.c:105-132 | a successful quantisation has at most 32 palette entries and one index per pixel |
| PaletteQuantizer.QuantizeStep | texconv/main.c:109-132 | one pixel of the loop: a known colour reuses its index and keeps the palette; a new colour is appended, only while fewer than 32 are known |
| PaletteQuantizer.QuantizeNext | texconv/main.c:109-132 | the effect of pixel i on the state after pixels 0..i-1: reuse, overflow (failure) or append |
| PaletteQuantizer.QuantizeConsistent | texconv/main.c:105-132 | the palette has at most 32 entries with pairwise distinct RGB, and each pixel's index points to an entry with its RGB |
| PaletteQuantizer.QuantizeIndicesInRange | texconv/main.c:131 | every stored index is below the palette size, which is at most 32 |
| PaletteQuantizer.QuantizeResolvesAt | texconv/main.c:131 | pixel p's index is in range and its palette entry has pixel p's RGB |
| PaletteQuantizer.IndexIsUnique | texconv/main.c:112-116 | no other palette entry has that pixel's RGB, so the index is the only correct one |
| PaletteQuantizer.QuantizePrefix | texconv/main.c:109-132 | quantising a prefix gives the prefix of the indices and a prefix of the palette (the loop never rewrites earlier results) |
| PaletteQuantizer.QuantizeFailurePersists | texconv/main.c:119-124 | once a prefix overflows the palette, the whole image fails |
| PaletteQuantizer.NewColorIsFirstSeen | texconv/main.c:118-129 | a colour missing from the final palette appears nowhere in the image |
| PaletteQuantizer.QuantizeFirstSeen | texconv/main.c:118-129 | palette entries are the image's colours in order of first appearance, each equal to the pixel where it first appears |
| PaletteQuantizer.RgbSetSnoc | texconv/main.c:113-115 | the set of RGB values of a sequence grows by the appended colour's RGB |
| PaletteQuantizer.RgbSetFind | texconv/main.c:113-115 | the search finds a colour exactly when its RGB is in the set |
| PaletteQuantizer.PaletteCoversImage | texconv/main.c:105-132 | the palette has exactly the image's set of RGB values |
| PaletteQuantizer.DistinctRgbCount | texconv/main.c:113-115 | a palette with distinct RGB values has as many values as entries |
| PaletteQuantizer.QuantizeFailsIffOverflow | texconv/main.c:118-124 | quantisation fails exactly when the image has more than 32 distinct RGB values; otherwise the palette size is that number |
| PaletteQuantizer.PadPalette | texconv/main.c:106 | the 32-entry `palette` array: the found colours, then zero entries |
| PaletteQuantizer.SearchPalette | texconv/main.c:112-116 | the inner search loop returns the first matching entry among the first `count`, or `count` |
| PaletteQuantizer.AssignIndex | texconv/main.c:118-129 | reuse or append, failing exactly when the colour is new and 32 are already known |
| PaletteQuantizer.ScanPixel | texconv/main.c:110-131 | reads pixel i before overwriting byte i with its index; no other byte changes |
| PaletteQuantizer.ScanStep | texconv/main.c:109-132 | one iteration of the in-place loop keeps the state equal to the specification on the next prefix |
| PaletteQuantizer.QuantizeInPlace | texconv/main.c:105-132 | the loop over the buffer succeeds exactly when `Quantize` does; the first n bytes then hold the indices, the palette array is the padded palette, and the count is its size; on failure the indices written so far match the prefix |
| BasisEncoder.PackTexel | texconv/main.c:219-220 | `(alpha << 5) \| index` keeps the index in the low 5 bits and the alpha in the top 3 |
| BasisEncoder.Planes | texconv/main.c:180-222 | the two planes together are twice the texel count long |
| BasisEncoder.PlanesUnpack | texconv/main.c:218-220 | texel p of both planes carries the index of pixel p; plane 0 carries the first alpha factor and plane 1 the second |
| BasisEncoder.PlaneByte | texconv/main.c:218-220 | byte k of the planes carries in its low 5 bits the index of texel k (plane 0) or of texel k - n (plane 1) |
| BasisEncoder.RowMajor | texconv/main.c:182 | `x + y*w` is a valid position and gives back x and y |
| BasisEncoder.AgreesFinally | texconv/main.c:180-222 | after all columns every byte of the planes has its value |
| BasisEncoder.TexelBytes | texconv/main.c:182-220 | the two bytes written for position p are the packed texel of its index and of the normal map's alpha factors at p |
| BasisEncoder.StoreTexel | texconv/main.c:219-220 | writes exactly bytes p and n+p |
| BasisEncoder.EncodeTexel | texconv/main.c:181-221 | the body of the column loop fixes texel (x, y) and disturbs nothing already written |
| BasisEncoder.PackPlanes | texconv/main.c:135-222 | the column-major loop into a fresh buffer leaves it equal to `Planes` of the indices and the normal map |
| AssetPacker.Channel5 | texconv/main.c:240-242 | the channel rounded to the nearest of 32 levels (no ties occur) |
| AssetPacker.Channel5Range | texconv/main.c:240-242 | 0 goes to 0, 255 to 31, and rounding keeps order |
| AssetPacker.ColorWord | texconv/main.c:243 | the colour word has bit 15 set and fits 16 bits |
| AssetPacker.ColorWordFields | texconv/main.c:243 | bits 0-4, 5-9 and 10-14 are the rounded r, g, b; bit 15 is set |
| AssetPacker.ColorWordRgb | texconv/main.c:237-243 | alpha does not reach the word; an unused (zero) palette entry becomes 0x8000 |
| AssetPacker.WordByte | texconv/main.c:246-247 | `fputc` of the word and of the word shifted by 8: the low byte, then the high byte |
| AssetPacker.WordBytesRoundTrip | texconv/main.c:245-247 | the two bytes give back the word (little endian) |
| AssetPacker.LittleEndian | texconv/main.c:246-247 | each 16-bit word becomes two bytes, low byte first, so the encoding is twice as long as the word list |
| AssetPacker.LittleEndianAt | texconv/main.c:235-249 | word j of a sequence lands at bytes 2j and 2j+1 |
| AssetPacker.LittleEndianSnoc | texconv/main.c:246-247 | writing one more word appends its two bytes |
| AssetPacker.PaletteWords | texconv/main.c:235-249 | 256 words, each with bit 15 set |
| AssetPacker.PaletteBlock | texconv/main.c:233-249 | the palette block is 512 bytes |
| AssetPacker.PaletteBlockLayout | texconv/main.c:234-249 | each of the 8 copies repeats the first; entry t of every copy decodes to the colour word of palette entry t |
| AssetPacker.AssetBytes | texconv/main.c:224-249 | the file: the width and height codes, then the planes unchanged, then the palette block, and nothing else |
| AssetPacker.PaletteStep | texconv/main.c:236-248 | one inner iteration appends the two bytes of word `32*i + t` |
| AssetPacker.WritePalette | texconv/main.c:235-249 | the nested loop appends exactly the palette block |
| AssetPacker.WriteAsset | texconv/main.c:224-249 | writes the asset bytes of the size codes, the index buffer and the palette |
| Texconv.Encode | texconv/main.c:105-249 | on validated images, success gives a file of 2 + 2n + 512 bytes; the only failures are palette overflow and a failed allocation |
| Texconv.Convert | texconv/main.c:59-103 | the tool produces a file only when every validation passes and the allocation succeeds |
| Texconv.ConvertOutcome | texconv/main.c:59-132 | success exactly when validation passes, there are at most 32 distinct RGB values and the allocation succeeds; a palette failure exactly when there are more than 32 |
| Texconv.EarlyFailures | texconv/main.c:60-103 | each earlier check reports its own failure in the source's order: argument count, texture decode, normal-map decode, size mismatch, unsupported size; past them the result is `Encode`'s |
| Texconv.EncodeParts | texconv/main.c:105-249 | a successful encoding is the asset of the quantised palette and of the planes of the quantised indices |
| Texconv.AssetTexel | texconv/main.c:218-249 | in the file, texel p's two bytes hold its index and alpha factors, and the palette word that index points to is that entry's colour word |
| Texconv.EncodeLayout | texconv/main.c:224-249 | in the file, the header decodes to the image size; pixel p's two texel bytes share an index whose palette word is pixel p's colour word; their top bits are pixel p's alpha factors |
| Texconv.EncodeImages | texconv/main.c:105-251 | the in-place steps (quantise, allocate, pack, write) return 0 with the bytes of `Encode` exactly when it succeeds, and 1 with no file otherwise |
| Texconv.Run | texconv/main.c:59-251 | exit code 0 with output exactly when `Convert` succeeds, and the output is its bytes; otherwise 1 and no file |
| AssetLoader.ReadWord | source/main.c:38 | a colour table entry is a 16-bit word |
| AssetLoader.ColorTable | source/main.c:30-38 | the table has 256 entries; entry j is the little-endian word at offset + 2j |
| AssetLoader.LoadTexture | source/main.c:7-47 | loading succeeds exactly when the header codes are 0..7 and the data covers both planes and the palette; the size it reports has codes `data[0]` and `data[1]` |
| AssetLoader.TexelColor | source/main.c:37-43 | RGB256 looks up the whole byte; RGB32_A3 looks up its low 5 bits |
| AssetLoader.ColorTableOfPalette | source/main.c:30-44 | the colour table read from the palette block is the written palette words |
| AssetLoader.LoadRoundTrip | source/main.c:26-44 | loading a written asset gives back its size, plane 0 as tex1, plane 1 as tex2, and the palette words as both colour tables |
| AssetLoader.LoadTextureOf | source/main.c:26-44 | where each texture's texels and colour table come from in the file |
| AssetLoader.AssetRegions | source/main.c:30-43 | the loader's offsets 2, 2 + w*h and 2 + 2*w*h find the planes and the palette the tool wrote |
| AssetLoader.PaletteWordsRepeat | texconv/main.c:234 | colour table entry j equals entry j mod 32, the colour word of palette entry j mod 32 |
| AssetLoader.ViewsAgree | source/main.c:252-262 | on a written palette, reading a texel as RGB256 or as RGB32_A3 gives the same colour |
| AssetLoader.LoadAsset | source/main.c:26-44 | the loaded asset has the encoded size; in every view texel p shows its palette entry's colour word; each texture's top bits are that plane's alpha factor |
| AssetLoader.EncodeThenLoad | source/main.c:26-44 | after encoding and loading, texel p shows the 15-bit word of pixel p's colour in tex1 as RGB256, tex1 as RGB32_A3 and tex2 as RGB32_A3; tex1 carries the second basis' alpha and tex2 the third's |
| AssetLoader.ConvertThenLoad | source/main.c:26-44 | whenever the tool succeeds, its output loads with the texture's size. Texel p shows pixel p's 15-bit colour word in tex1 as RGB256, tex1 as RGB32_A3 and tex2 as RGB32_A3, and the two textures share the colour table. tex1's top bits are the normal map's first alpha factor at p and tex2's the second |
| FixedPoint.MulF32Floor | source/main.c:91-96 | `mulf32` is a*b/4096 rounded down |
| FixedPoint.MulF32 | source/main.c:91-96 | `mulf32` with a zero factor is zero |
| FixedPoint.TruncDiv | source/main.c:74-76 | a non-zero quotient has a non-zero dividend; a positive quotient has operands of the same sign, and a negative one has operands of different signs |
| FixedPoint.DivF32 | source/main.c:74-91 | division by zero gives -1 or +1. Otherwise a non-zero result means num is non-zero, a positive result means num and den have the same sign, and a negative one means they differ |
| FixedPoint.DotF32 | source/main.c:71 | `dotf32` with a zero vector is zero |
| FixedPoint.Isqrt | source/main.c:117-119 | the root of a positive number is positive |
| FixedPoint.MulF32Sign | source/main.c:91-96 | non-negative factors give a non-negative product; a zero factor gives zero |
| FixedPoint.TruncDivSpec | source/main.c:74-76 | the divider's quotient has the magnitude of the quotient of the magnitudes |
| FixedPoint.DivF32Spec | source/main.c:74-91 | `divf32` has the magnitude of \|num << 12\| / \|den\| rounded down, so it is the quotient rounded toward zero. A positive result means num and den have the same sign, and a negative one means they differ. Division by zero gives the divider's -1 or +1. Non-negative operands give a non-negative result, and a zero numerator gives zero |
| FixedPoint.DotSelfNonNegative | source/main.c:71 | `dist` is non-negative, and zero exactly when every component's square is below one unit |
| FixedPoint.IsqrtBounds | source/main.c:117-119 | the integer root is the largest r with r*r <= n |
| FixedPoint.IsqrtDouble | source/main.c:117-119 | the recursive step: twice the root of n/4 is within one of the root of n |
| FixedPoint.SqrtF32 | source/main.c:117-119 | the root is never negative, and 0 for a value that is not positive |
| FixedPoint.SqrtF32Bounds | source/main.c:117-119 | for a > 0, `sqrtf32(a)` is the root of a << 12 rounded down |
| FixedPoint.SqrtF32Monotone | source/main.c:117-119 | more light never gives a smaller root |
| Lighting.Min | source/main.c:49-51 | the smaller argument, at most both |
| Lighting.Max | source/main.c:53-55 | the larger argument, at least both |
| Lighting.InitialLightsNonNegative | source/main.c:57-61 | light 1 starts white at twice unit intensity, light 2 red at twice unit intensity; both sit above the floor and both colours are non-negative |
| Lighting.ToLight | source/main.c:70 | the vertex plus `lightDir` is the light's position |
| Lighting.Dist | source/main.c:71 | the squared distance `dotf32(lightDir, lightDir)` is never negative |
| Lighting.TangentDir | source/main.c:73-83 | when the squared distance is positive, each non-zero component of the tangent-space direction points strictly toward the light along its axis: x along x, and y and z swapped |
| Lighting.ClampedDot | source/main.c:89 | the clamped dot product is never negative |
| Lighting.Intensity | source/main.c:89-91 | the attenuated intensity is non-negative when `mulf32(dist, dist)` is positive, and zero if the light also faces away. When `mulf32(dist, dist)` is zero, it is the divider's -1 |
| Lighting.Contribution | source/main.c:93-96 | a light with zero intensity adds nothing |
| Lighting.ContributionNonNegative | source/main.c:63-97 | a light with a non-negative colour and a positive `mulf32(dist, dist)` never removes light |
| Lighting.DarkContribution | source/main.c:89-96 | a light facing away adds nothing (at most zero if the attenuation is zero) |
| Lighting.CloseLightDarkens | source/main.c:71-96 | a light with a non-negative colour whose squared distance to the vertex is below 64 has intensity -1. Every positive channel of it then takes light away |
| Lighting.CloseLightExample | source/main.c:70-96 | a light at the origin with colour 2.0 and a vertex 300 units along x: squared distance 21, contribution -2 in each channel |
| Lighting.AccumulatedNonNegative | source/main.c:101-105 | with non-negative light colours and both `mulf32(dist, dist)` positive, the accumulated channels are never negative |
| Lighting.CalcLight | source/main.c:63-97 | each accumulator channel grows by that light's colour channel times its intensity; with a non-negative colour and a positive attenuation, no channel decreases |
| Lighting.To5Bit | source/main.c:122-124 | `min(31, (v + 64) >> 7)` rounds to the nearest multiple of 128 and saturates at 31 exactly from 3904 |
| Lighting.To5BitMonotone | source/main.c:122-124 | rounding keeps order |
| Lighting.Level | source/main.c:117-124 | a non-positive accumulator gives level 0 |
| Lighting.LevelMonotone | source/main.c:117-124 | more accumulated light never gives a darker channel |
| Lighting.Shade | source/main.c:100-127 | the returned colour fits 15 bits; each 5-bit field is the level of that channel's accumulated light |
| Lighting.ShadeOfLevels | source/main.c:126 | packing the three levels gives the shade |
| Lighting.ShadeDark | source/main.c:100-127 | a vertex that both lights face away from is black |
| Lighting.GammaAndRound | source/main.c:117-124 | each channel is replaced by its level |
| Lighting.CalcLights | source/main.c:100-127 | a zeroed accumulator, both lights, root and rounding give exactly the shade, a 15-bit colour |
| SceneRenderer.IntToT16 | source/main.c:134-142 | `inttot16` scales texels to 12.4 coordinates (a multiple of 16 that gives back n) |
| SceneRenderer.Corner | source/main.c:135-147 | each corner lies at height y on the rectangle's x and z bounds |
| SceneRenderer.PlaneSite | source/main.c:133-147 | site k is corner k. On a proper rectangle its s coordinate is W exactly at maxX and its t coordinate H exactly at maxZ, and 0 otherwise |
| SceneRenderer.PlaneSites | source/main.c:129-148 | a plane emits four vertices |
| SceneRenderer.PlaneMapping | source/main.c:129-148 | all corners lie at height y on the rectangle's edges, pairwise distinct; s is W exactly at maxX and t is H exactly at maxZ |
| SceneRenderer.LitAt | source/main.c:133-147 | vertex k of a lit run is at site k with the shade at that position |
| SceneRenderer.LitAppend | source/main.c:150-167 | two lit runs concatenate into a lit run |
| SceneRenderer.AppendViews | source/main.c:150-167 | the sites and colours of concatenated runs are the concatenations |
| SceneRenderer.ShadesAppend | source/main.c:150-167 | shading distributes over concatenation |
| SceneRenderer.AddPlane | source/main.c:129-148 | the four vertices sit at the plane's sites in order, each with `calcLights` of its own position |
| SceneRenderer.LitOne | source/main.c:133-135 | one vertex coloured with the shade at its own position is a lit run |
| SceneRenderer.FloorQuad | source/main.c:156-162 | a quad has four sites |
| SceneRenderer.QuadMin | source/main.c:156-159 | a cell's low edge lies on an odd multiple of 2048 |
| SceneRenderer.QuadMax | source/main.c:156-159 | a cell's high edge lies on an odd multiple of 2048, 4096 above its low edge |
| SceneRenderer.FloorPrefix | source/main.c:154-164 | the first m quads have 4m sites |
| SceneRenderer.Floor | source/main.c:150-167 | the floor has 36 sites |
| SceneRenderer.FloorQuadAt | source/main.c:154-164 | quad i occupies sites 4i..4i+3 |
| SceneRenderer.FloorNextQuad | source/main.c:154-164 | iteration (xx, zz) appends the plane with offsets (xx-1)*4096 and (zz-1)*4096 |
| SceneRenderer.FloorStep | source/main.c:155-163 | one inner iteration extends the lit prefix by one quad |
| SceneRenderer.RenderFloor | source/main.c:150-167 | the double loop emits the 36 floor sites in order, each with the shade at its position |
| SceneRenderer.FloorLayout | source/main.c:154-164 | site k of quad (xx, zz) is corner k of that cell |
| SceneRenderer.CellOf | source/main.c:156-157 | a cell index is 0, 1 or 2 |
| SceneRenderer.SpansTile | source/main.c:156-159 | cells are 4096 wide, meet edge to edge, span -6144..6144, and a point inside a cell belongs to no other cell |
| SceneRenderer.FloorCovers | source/main.c:153-164 | every point of the 12288-square floor lies in the quad of its cell |
| SceneRenderer.FloorSharedEdgesX | source/main.c:153-164 | neighbouring quads along x share their edge vertices |
| SceneRenderer.FloorSharedEdgesZ | source/main.c:153-164 | neighbouring quads along z share their edge vertices |
| SceneRenderer.FloorInRange | source/main.c:156-159 | all floor coordinates lie in -6144..6144 at y = 0, inside the `v16` range |
| SceneRenderer.BasesNearUnit | source/main.c:238-243 | the three basis vectors have unit length to within rounding: the squared length lies strictly between 4095^2 and 4097^2 |
| SceneRenderer.BasesAroundNormal | source/main.c:238-282 | each basis has vertical part one half, so it is 60 degrees from the flat normal (0, 0, 1). Their horizontal parts cancel to within one unit, so the three are spread evenly around it |
| SceneRenderer.Schedule | source/main.c:229-283 | three passes with normal mapping, one without |
| SceneRenderer.RenderScene | source/main.c:229-283 | the passes follow the schedule (poly IDs, depth test, texture, format, basis or flat normal), and each draws the whole floor lit with its normal |
| SceneRenderer.PassTexel | source/main.c:245-283 | on an encoded asset, every pass shows pixel p's 15-bit colour; pass 0 is opaque with polygon ID 0; passes 1 and 2 use depth-equal and read the second and third basis' alpha factors |

## Left out

- The basis projection of the normal map (texconv/main.c:35-44, 143-216) is floating point. It is the parameter `alphaOf`, which maps a normal-map pixel to two 3-bit factors. Its range 0..7 holds because `roundf` of a factor in [0, 1] times 7 lies in 0..7.
- PNG decoding (`lodepng_decode32_file`) is the parameter `decode`; every decoded image has 4 bytes per pixel. The outcome of the `malloc` of the planes is the parameter `allocOk`. File reading and writing, `printf` messages and `free` are not modelled. The result of `fopen("output.bin")` is not checked in the source, and the model assumes it succeeds.
- Texconv.EncodeImages: the method copies the decoded texture into a fresh array before quantising it in place. The source quantises the decoder's own buffer; nothing else refers to that buffer, so the copy changes nothing observable.
- AssetLoader.LoadTexture: the source checks neither the header nor the file length; it only asserts that the file was read. With a size code above 7 it asks the hardware for a texture size it does not support (`TEXTURE_SIZE_8 + code`). A large enough code also makes `1 << (code + 3)` overflow. A file shorter than the header, the two planes and the 512-byte palette makes it read past the buffer. The model returns `BadSizeCode` for any code above 7. It returns `Truncated` when the file is shorter than 2 + 2*w*h + 512 bytes. It does not model what the hardware does with an unsupported size.
- The libnds GL state (`glGenTextures`, VRAM, `GFX_TEX_FORMAT`, the polygon format bits) is reduced to the abstract `Format` and the `PassSetup` record. The source writes the RGB256 format at source/main.c:254 and :280. Binding tex2 at :266 brings back tex2's own RGB32_A3 format.
- `renderCube` and the two light cubes (source/main.c:169-227) are not modelled. Neither is the final reset at :272-273 (`glPolyFmt` without an ID, `glBindTexture(0, 0)`).
- Input handling, the camera, the matrix stack and the frame loop in `main` (source/main.c:287 onward) are not modelled. The light positions and colours are therefore parameters. `Light1` and `Light2` hold their initial values.
- Lighting.CalcLight: does not model 32-bit wrap-around of the `int32` accumulator and intermediate values, because the model uses unbounded integers.
- Lighting.CalcLights: does not model 32-bit wrap-around either, for the same reason.
- Lighting.Shade: does not model 32-bit wrap-around either, for the same reason.
- SceneRenderer.RenderFloor: does not model 16-bit wrap-around of `v16` coordinates. Its coordinates stay in range anyway (`SceneRenderer.FloorInRange`).
- FixedPoint.DivF32: division by zero gives -1 for a non-negative numerator and +1 otherwise. This is the model's reading of the DS divider's result; the library code is not part of this model.
- FixedPoint.SqrtF32: gives 0 for a value that is not positive. The hardware root of a negative 64-bit value is not modelled.
- The tone-mapping block that is commented out (source/main.c:108-113) and the unused Valve bases (:233-237) are not modelled.
