/** The asset serialiser: two size-code bytes, the two index planes, and
    the 32-entry palette as Nintendo DS 15-bit colour words, written eight
    times over, low byte first. */
module AssetPacker {
  import opened Common
  import opened SizeCode
  import opened PaletteQuantizer

  /** Byte length of the palette region: 8 copies of 32 two-byte words. */
  const PaletteBytes := 512

  /** `roundf(c * 31 / 255.0f)`. The quotient is never exactly halfway
      between two integers (62c is even, 255(2k+1) is odd), so rounding is
      the same as `(62c + 255) / 510` in integers. */
  function Channel5(c: byte): (r: channel5)
    ensures 510 * r - 255 <= 62 * c < 510 * r + 255
  {
    (62 * c + 255) / 510
  }

  /** The rounding keeps both ends of the range and the order of levels. */
  lemma Channel5Range(c: byte, d: byte)
    ensures Channel5(0) == 0 && Channel5(255) == 31
    ensures c <= d ==> Channel5(c) <= Channel5(d)
  {
  }

  /** `(1 << 15) | (b << 10) | (g << 5) | r` over the rounded channels;
      alpha is not part of the word. */
  function ColorWord(col: Color): (w: int)
    ensures 0x8000 <= w < 0x10000
  {
    0x8000 + Pack15(Channel5(col.r), Channel5(col.g), Channel5(col.b))
  }

  /** The word has bit 15 set, and shifting and masking recovers each
      rounded channel. */
  lemma ColorWordFields(col: Color)
    ensures ColorWord(col) / 0x8000 == 1
    ensures ColorWord(col) % 32 == Channel5(col.r)
    ensures (ColorWord(col) / 32) % 32 == Channel5(col.g)
    ensures (ColorWord(col) / 1024) % 32 == Channel5(col.b)
  {
    var c := Pack15(Channel5(col.r), Channel5(col.g), Channel5(col.b));
    DivModUnique(ColorWord(col), 32, 1024 + c / 32, c % 32);
    DivModUnique(ColorWord(col) / 32, 32, 32 + c / 1024, (c / 32) % 32);
    DivModUnique(ColorWord(col) / 1024, 32, 1, c / 1024);
  }

  /** The word depends only on the colour's RGB; an unused (all-zero)
      palette slot is the bare `0x8000`. */
  lemma ColorWordRgb(c: Color, d: Color)
    ensures SameRgb(c, d) ==> ColorWord(c) == ColorWord(d)
    ensures ColorWord(Blank) == 0x8000
  {
  }

  /** `fputc(word)` then `fputc(word >> 8)`: byte `half` (0 low, 1 high) of
      a 16-bit word, as `fputc` truncates it to an `unsigned char`. */
  function WordByte(w: int, half: nat): (b: byte)
    requires 0 <= w < 0x10000 && half < 2
    ensures half == 0 ==> b == w % 256
    ensures half == 1 ==> b == w / 256
  {
    if half == 0 then w % 256 else (w / 256) % 256
  }

  /** The two bytes of a word, read back little-endian, give the word. */
  lemma WordBytesRoundTrip(w: int)
    requires 0 <= w < 0x10000
    ensures WordByte(w, 0) as int + 256 * (WordByte(w, 1) as int) == w
  {
  }

  /** 16-bit words written low byte first, one after another. */
  function LittleEndian(words: seq<int>): (bytes: seq<byte>)
    requires forall j :: 0 <= j < |words| ==> 0 <= words[j] < 0x10000
    ensures |bytes| == 2 * |words|
  {
    if words == [] then []
    else [WordByte(words[0], 0), WordByte(words[0], 1)] + LittleEndian(words[1..])
  }

  /** Word j sits at bytes 2j (low) and 2j + 1 (high). */
  lemma {:induction false} LittleEndianAt(words: seq<int>, j: nat)
    requires forall i :: 0 <= i < |words| ==> 0 <= words[i] < 0x10000
    requires j < |words|
    ensures LittleEndian(words)[2 * j] == WordByte(words[j], 0)
    ensures LittleEndian(words)[2 * j + 1] == WordByte(words[j], 1)
    decreases j
  {
    if j > 0 {
      LittleEndianAt(words[1..], j - 1);
    }
  }

  /** Appending a word appends its two bytes. */
  lemma {:induction false} LittleEndianSnoc(words: seq<int>, w: int)
    requires forall i :: 0 <= i < |words| ==> 0 <= words[i] < 0x10000
    requires 0 <= w < 0x10000
    ensures LittleEndian(words + [w]) == LittleEndian(words) + [WordByte(w, 0), WordByte(w, 1)]
    decreases |words|
  {
    if words != [] {
      assert (words + [w])[1..] == words[1..] + [w];
      LittleEndianSnoc(words[1..], w);
    }
  }

  /** The 256 words of the palette region: word j is the colour word of
      palette entry `j % 32`, so the 32 entries appear 8 times over. */
  function PaletteWords(table: seq<Color>): (words: seq<int>)
    requires |table| == MaxColors
    ensures |words| == 256
    ensures forall j :: 0 <= j < |words| ==> 0x8000 <= words[j] < 0x10000
  {
    seq(256, j requires 0 <= j < 256 => ColorWord(table[j % 32]))
  }

  /** The palette region: the 256 words, little-endian. */
  function PaletteBlock(table: seq<Color>): (block: seq<byte>)
    requires |table| == MaxColors
    ensures |block| == PaletteBytes
  {
    LittleEndian(PaletteWords(table))
  }

  /** The eight 64-byte copies are identical, and word t of each copy (at
      byte k) reads back little-endian as palette entry t's colour word. */
  lemma PaletteBlockLayout(table: seq<Color>, copy: nat, t: nat, k: nat)
    requires |table| == MaxColors && copy < 8 && t < MaxColors && k == 64 * copy + 2 * t
    ensures k + 1 < PaletteBytes
    ensures PaletteBlock(table)[k] == PaletteBlock(table)[2 * t]
    ensures PaletteBlock(table)[k + 1] == PaletteBlock(table)[2 * t + 1]
    ensures PaletteBlock(table)[k] as int + 256 * (PaletteBlock(table)[k + 1] as int) == ColorWord(table[t])
  {
    var words := PaletteWords(table);
    var j := 32 * copy + t;
    DivModUnique(j, 32, copy, t);
    DivModUnique(t, 32, 0, t);
    LittleEndianAt(words, j);
    LittleEndianAt(words, t);
    WordBytesRoundTrip(ColorWord(table[t]));
  }

  /** The whole file: size codes, plane 0 and plane 1 (given together as
      `planes`), then the palette region. */
  function AssetBytes(codeW: byte, codeH: byte, planes: seq<byte>, table: seq<Color>): (file: seq<byte>)
    requires |table| == MaxColors
    ensures |file| == 2 + |planes| + PaletteBytes
    ensures file[0] == codeW && file[1] == codeH
    ensures file[2..2 + |planes|] == planes && file[2 + |planes|..] == PaletteBlock(table)
  {
    [codeW, codeH] + planes + PaletteBlock(table)
  }

  /** Word 32*i + t of the palette region is entry t's colour word, so
      writing it extends the region written so far by one word. */
  lemma PaletteStep(table: seq<Color>, i: nat, t: nat)
    requires |table| == MaxColors && i < 8 && t < 32
    ensures var words, word := PaletteWords(table), ColorWord(table[t]);
      LittleEndian(words[..32 * i + t + 1]) == LittleEndian(words[..32 * i + t]) + [WordByte(word, 0), WordByte(word, 1)]
  {
    var words, word := PaletteWords(table), ColorWord(table[t]);
    DivModUnique(32 * i + t, 32, i, t);
    assert words[..32 * i + t + 1] == words[..32 * i + t] + [word];
    LittleEndianSnoc(words[..32 * i + t], word);
  }

  /** The palette loop `for i < 8, for t < 32`: writes the two bytes of
      entry t's word, low byte first, after what is already in `file`. */
  method WritePalette(file: seq<byte>, table: seq<Color>) returns (out: seq<byte>)
    requires |table| == MaxColors
    ensures out == file + PaletteBlock(table)
  {
    ghost var words := PaletteWords(table);
    out := file;
    for i := 0 to 8
      invariant out == file + LittleEndian(words[..32 * i])
    {
      for t := 0 to 32
        invariant out == file + LittleEndian(words[..32 * i + t])
      {
        var word := ColorWord(table[t]);
        PaletteStep(table, i, t);
        out := out + [WordByte(word, 0), WordByte(word, 1)];
      }
      assert 32 * i + 32 == 32 * (i + 1);
    }
    assert words[..256] == words;
  }

  /** The serialiser: `fputc(getSize(w))`, `fputc(getSize(h))`, the
      `2*w*h` plane bytes, then the palette loop. The resulting bytes are
      the asset layout exactly. */
  method WriteAsset(w: int, h: int, outIdx: array<byte>, table: seq<Color>) returns (file: seq<byte>)
    requires Supported(w) && Supported(h) && |table| == MaxColors
    ensures file == AssetBytes(GetSize(w), GetSize(h), outIdx[..], table)
  {
    file := [GetSize(w), GetSize(h)];
    file := file + outIdx[..];
    file := WritePalette(file, table);
  }
}
