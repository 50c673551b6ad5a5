/** Bytes, big-endian integers and in-place overwrites of a byte string.

    Every multi-byte integer of the VHD format is big-endian.  A device is read
    through `At`, which is zero past the end, so that growing a device by zeros
    changes nothing that `At` can see. */
module Bytes {
  type byte = x: int | 0 <= x < 256

  const U32_LIMIT: nat := 0x1_0000_0000
  const U64_LIMIT: nat := 0x1_0000_0000_0000_0000
  const U64_MAX: nat := U64_LIMIT - 1

  function At(s: seq<byte>, i: int): byte {
    if 0 <= i < |s| then s[i] else 0
  }

  function Zeros(n: nat): (r: seq<byte>)
    ensures |r| == n
    ensures forall i {:trigger r[i]} | 0 <= i < n :: r[i] == 0
  {
    seq(n, i => 0)
  }

  /** `s` with `data` laid over it at `off`. */
  function Splice(s: seq<byte>, off: nat, data: seq<byte>): (r: seq<byte>)
    requires off + |data| <= |s|
    ensures |r| == |s|
    ensures forall i {:trigger At(r, i)} ::
              At(r, i) == if off <= i < off + |data| then data[i - off] else At(s, i)
  {
    s[..off] + data + s[off + |data|..]
  }

  /** `s` made longer with zeros. */
  function Grow(s: seq<byte>, n: nat): (r: seq<byte>)
    requires |s| <= n
    ensures |r| == n
    ensures forall i {:trigger At(r, i)} :: At(r, i) == At(s, i)
  {
    s + Zeros(n - |s|)
  }

  /** The two byte strings read the same on `[lo, hi)`. */
  ghost predicate SameOn(a: seq<byte>, b: seq<byte>, lo: int, hi: int) {
    forall i {:trigger At(a, i)} {:trigger At(b, i)} :: lo <= i < hi ==> At(a, i) == At(b, i)
  }

  function Pow2(k: nat): (r: nat)
    ensures r >= 1
  {
    if k == 0 then 1 else 2 * Pow2(k - 1)
  }

  function ReadU32(b: seq<byte>, off: int): (v: nat)
    ensures v < U32_LIMIT
  {
    At(b, off) * 0x100_0000 + At(b, off + 1) * 0x1_0000 + At(b, off + 2) * 0x100 + At(b, off + 3)
  }

  function ReadU64(b: seq<byte>, off: int): (v: nat)
    ensures v < U64_LIMIT
  {
    ReadU32(b, off) * U32_LIMIT + ReadU32(b, off + 4)
  }

  function U32Bytes(v: nat): (r: seq<byte>)
    requires v < U32_LIMIT
    ensures |r| == 4
  {
    [v / 0x100_0000, v / 0x1_0000 % 0x100, v / 0x100 % 0x100, v % 0x100]
  }

  function U64Bytes(v: nat): (r: seq<byte>)
    requires v < U64_LIMIT
    ensures |r| == 8
  {
    U32Bytes(v / U32_LIMIT) + U32Bytes(v % U32_LIMIT)
  }

  /** Reading back what `U32Bytes` wrote, wherever it was written. */
  lemma ReadU32Bytes(b: seq<byte>, off: nat, v: nat)
    requires v < U32_LIMIT && off + 4 <= |b|
    requires b[off..off + 4] == U32Bytes(v)
    ensures ReadU32(b, off) == v
  {
    forall k | 0 <= k < 4 ensures At(b, off + k) == U32Bytes(v)[k] {
      assert b[off..off + 4][k] == b[off + k];
    }
    BigEndianSum(v);
    assert At(b, off) == U32Bytes(v)[0] && At(b, off + 1) == U32Bytes(v)[1];
    assert At(b, off + 2) == U32Bytes(v)[2] && At(b, off + 3) == U32Bytes(v)[3];
  }

  lemma BigEndianSum(v: nat)
    ensures v == v / 0x100_0000 * 0x100_0000 + v / 0x1_0000 % 0x100 * 0x1_0000 + v / 0x100 % 0x100 * 0x100 + v % 0x100
  {
    var a, b, c := v / 0x100, v / 0x1_0000, v / 0x100_0000;
    assert b == a / 0x100 && c == b / 0x100;
  }

  lemma ReadU64Bytes(b: seq<byte>, off: nat, v: nat)
    requires v < U64_LIMIT && off + 8 <= |b|
    requires b[off..off + 8] == U64Bytes(v)
    ensures ReadU64(b, off) == v
  {
    assert b[off..off + 4] == b[off..off + 8][..4] == U32Bytes(v / U32_LIMIT);
    assert b[off + 4..off + 8] == b[off..off + 8][4..] == U32Bytes(v % U32_LIMIT);
    ReadU32Bytes(b, off, v / U32_LIMIT);
    ReadU32Bytes(b, off + 4, v % U32_LIMIT);
  }

  /** Smallest multiple of 512 that is not below `n`: `div_ceil(512) * 512`. */
  function RoundToSector(n: nat): (r: nat)
    ensures r % 512 == 0 && n <= r < n + 512
  {
    (n + 511) / 512 * 512
  }

  /** Division with remainder is unique. */
  lemma DivMod(v: nat, unit: nat, q: nat, r: nat)
    requires unit > 0 && v == q * unit + r && r < unit
    ensures v / unit == q && v % unit == r
  {
    var q', r' := v / unit, v % unit;
    assert (q - q') * unit == r' - r by { Distribute(q, q', unit); }
    if q > q' {
      MulAtLeast(q - q', unit);
    } else if q' > q {
      MulAtLeast(q' - q, unit);
      Distribute(q', q, unit);
    }
  }

  lemma Distribute(a: int, b: int, c: int)
    ensures (a - b) * c == a * c - b * c
  {
  }

  lemma MulAtLeast(a: nat, b: nat)
    requires a >= 1
    ensures a * b >= b
  {
    Distribute(a, 1, b);
    MulNonNegative(a - 1, b);
  }

  lemma MulNonNegative(a: nat, b: nat)
    ensures a * b >= 0
  {
  }

  lemma Expand(s: nat, h: nat, q: nat, r: nat)
    ensures s * (h * q + r) == q * (s * h) + s * r
  {
    assert s * (h * q + r) == s * (h * q) + s * r;
    assert s * (h * q) == q * (s * h);
  }

  lemma MulMonotone(a: nat, b: nat, c: nat)
    requires a <= b
    ensures c * a <= c * b
  {
    Distribute(b, a, c);
    MulNonNegative(b - a, c);
  }

  lemma Remainder(v: nat, n: nat)
    requires n > 0
    ensures v == v / n * n + v % n && 0 <= v % n < n && 0 <= v / n
  {
  }
}
