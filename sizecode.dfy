/** The header's size codes: the encoder's `getSize` and the loader's
    `1 << (code + 3)`. */
module SizeCode {
  import opened Common

  /** The texture side lengths the DS accepts: 8, 16, ..., 1024. */
  predicate Supported(size: int)
  {
    size == 8 || size == 16 || size == 32 || size == 64 ||
    size == 128 || size == 256 || size == 512 || size == 1024
  }

  /** `getSize`: the size code of a supported resolution, -1 for any other
      integer. A code c stands for the side length 2^(c+3). */
  function GetSize(size: int): (code: int)
    ensures -1 <= code <= 7
    ensures code == -1 <==> !Supported(size)
    ensures code >= 0 ==> Pow2(code + 3) == size
  {
    if size == 1024 then assert Pow2(10) == 2 * Pow2(9); 7
    else if size == 512 then 6
    else if size == 256 then 5
    else if size == 128 then 4
    else if size == 64 then 3
    else if size == 32 then 2
    else if size == 16 then 1
    else if size == 8 then 0
    else -1
  }

  /** The loader's `1 << (code + 3)`. */
  function Dimension(code: nat): (size: nat)
    ensures size >= 8 && size % 8 == 0
    ensures code <= 7 ==> size <= 1024
  {
    Pow2Add(3, code);
    Pow2Monotone(code + 3, 10);
    assert Pow2(10) == 1024 && Pow2(3) == 8;
    Pow2(code + 3)
  }

  /** Every code 0..7 names a supported size, and `getSize` maps it back:
      the two directions of the header contract agree on all of 0..7. */
  lemma CodesAreSizes(code: nat)
    requires code <= 7
    ensures Supported(Dimension(code)) && GetSize(Dimension(code)) == code
  {
    if code == 0 { assert Dimension(0) == 8; }
    else if code == 1 { assert Dimension(1) == 16; }
    else if code == 2 { assert Dimension(2) == 32; }
    else if code == 3 { assert Dimension(3) == 64; }
    else if code == 4 { assert Dimension(4) == 128; }
    else if code == 5 { assert Dimension(5) == 256; }
    else if code == 6 { assert Dimension(6) == 512; }
    else { assert Dimension(7) == 1024; }
  }

  /** Decoding the code `getSize` wrote gives the side length back, and
      `getSize` is injective on the supported sizes. */
  lemma GetSizeRoundTrip(s: int, t: int)
    requires Supported(s) && Supported(t)
    ensures 0 <= GetSize(s) <= 7 && Dimension(GetSize(s)) == s
    ensures GetSize(s) == GetSize(t) ==> s == t
  {
  }
}
