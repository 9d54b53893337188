/** Shared vocabulary of the encoder and the runtime: bytes, optional and
    fallible results, powers of two and the Nintendo DS 15-bit colour word. */
module Common {

  /** An `unsigned char`: one byte of an image buffer or of the asset file. */
  type byte = x: int | 0 <= x < 256

  /** A 5-bit colour channel of the DS colour format. */
  type channel5 = x: int | 0 <= x < 32

  datatype Option<+T> = None | Some(value: T)

  datatype Result<+T, +E> = Ok(value: T) | Err(error: E)

  /** 2^n, the value of `1 << n` when the shift does not overflow. */
  function Pow2(n: nat): (r: nat)
    ensures r >= 1
  {
    if n == 0 then 1 else 2 * Pow2(n - 1)
  }

  /** Shifting by a + b is shifting by a, then by b. */
  lemma {:induction false} Pow2Add(a: nat, b: nat)
    ensures Pow2(a + b) == Pow2(a) * Pow2(b)
    decreases b
  {
    if b > 0 {
      Pow2Add(a, b - 1);
      assert Pow2(a + b) == 2 * Pow2(a + b - 1);
    }
  }

  /** A larger shift never gives a smaller power. */
  lemma {:induction false} Pow2Monotone(a: nat, b: nat)
    ensures a <= b ==> Pow2(a) <= Pow2(b)
    decreases b
  {
    if a < b {
      Pow2Monotone(a, b - 1);
    }
  }

  /** `(b << 10) | (g << 5) | r` for three 5-bit channels. The fields occupy
      disjoint bits, so the bitwise or is a sum. Each channel is recovered
      by shifting and masking, and bit 15 is clear. */
  function Pack15(r: channel5, g: channel5, b: channel5): (c: int)
    ensures 0 <= c < 0x8000
    ensures c % 32 == r && (c / 32) % 32 == g && c / 1024 == b
  {
    b * 1024 + g * 32 + r
  }

  /** Euclidean division is unique: p = q*d + r with 0 <= r < d fixes
      p / d and p % d. */
  lemma DivModUnique(p: int, d: int, q: int, r: int)
    requires d > 0 && 0 <= r < d && p == q * d + r
    ensures p / d == q && p % d == r
  {
    var q', r' := p / d, p % d;
    assert (q - q') * d == r' - r;
    if q' < q {
      MulAtLeast(q - q', d);
    } else if q' > q {
      MulAtLeast(q' - q, d);
    }
  }

  lemma MulAtLeast(k: int, d: int)
    requires k >= 1 && d >= 0
    ensures k * d >= d
  {
    assert k * d == (k - 1) * d + d;
  }
}
