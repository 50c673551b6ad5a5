/** The on-disk layout constants and the checksum that the footer and the dynamic
    header share: the one's complement of the byte sum, with the stored field
    counted as zero. */
module Format {
  import opened Bytes

  const SECTOR: nat := 512
  const FOOTER_SIZE: nat := 512
  const HEADER_SIZE: nat := 1024
  const UNALLOCATED: nat := 0xFFFF_FFFF

  const FIXED_WIRE: nat := 2
  const DYNAMIC_WIRE: nat := 3
  const DIFFERENCING_WIRE: nat := 4

  /** Sum of the first `n` bytes, with the bytes of `[lo, hi)` taken as zero. */
  function ByteSum(b: seq<byte>, n: nat, lo: nat, hi: nat): (sum: nat)
    ensures sum <= 255 * n
  {
    if n == 0 then 0
    else ByteSum(b, n - 1, lo, hi) + if lo <= n - 1 < hi then 0 else At(b, n - 1)
  }

  function Checksum(b: seq<byte>, n: nat, lo: nat, hi: nat): (c: nat)
    ensures c < U32_LIMIT
  {
    U32_LIMIT - 1 - ByteSum(b, n, lo, hi) % U32_LIMIT
  }

  /** Add up at most `size` bytes in a wrapping `u32`, skipping the stored field, and complement
      the sum. */
  method OnesComplementChecksum(bytes: seq<byte>, size: nat, lo: nat, hi: nat) returns (c: nat)
    ensures c == Checksum(bytes, size, lo, hi)
  {
    var sum := 0;
    var count := if size < |bytes| then size else |bytes|;
    for i := 0 to count
      invariant sum == ByteSum(bytes, i, lo, hi) % U32_LIMIT
    {
      if !(lo <= i < hi) {
        WrappingAdd(ByteSum(bytes, i, lo, hi), bytes[i]);
        sum := (sum + bytes[i]) % U32_LIMIT;
      }
    }
    ByteSumPastEnd(bytes, count, size, lo, hi);
    c := U32_LIMIT - 1 - sum;
  }

  lemma WrappingAdd(s: nat, b: byte)
    ensures (s % U32_LIMIT + b) % U32_LIMIT == (s + b) % U32_LIMIT
  {
  }

  lemma {:induction false} ByteSumPastEnd(b: seq<byte>, m: nat, n: nat, lo: nat, hi: nat)
    requires m <= n && (m == n || |b| <= m)
    ensures ByteSum(b, m, lo, hi) == ByteSum(b, n, lo, hi)
    decreases n - m
  {
    if m < n {
      ByteSumPastEnd(b, m, n - 1, lo, hi);
    }
  }

  /** Only the summed bytes matter. */
  lemma {:induction false} ByteSumFrame(a: seq<byte>, b: seq<byte>, n: nat, lo: nat, hi: nat)
    requires forall i :: 0 <= i < n && !(lo <= i < hi) ==> At(a, i) == At(b, i)
    ensures ByteSum(a, n, lo, hi) == ByteSum(b, n, lo, hi)
  {
    if n > 0 {
      ByteSumFrame(a, b, n - 1, lo, hi);
    }
  }

  /** Changing one summed byte changes the sum by exactly the difference. */
  lemma {:induction false} ByteSumOneChange(a: seq<byte>, b: seq<byte>, at: nat, n: nat, lo: nat, hi: nat)
    requires forall i :: i != at ==> At(a, i) == At(b, i)
    ensures ByteSum(b, n, lo, hi) ==
            ByteSum(a, n, lo, hi) + if at < n && !(lo <= at < hi) then At(b, at) - At(a, at) else 0
  {
    if n > 0 {
      ByteSumOneChange(a, b, at, n - 1, lo, hi);
    }
  }

  /** A stored checksum that matches, in a section of at most 1024 bytes. */
  predicate Sealed(b: seq<byte>, n: nat, lo: nat) {
    ReadU32(b, lo) == Checksum(b, n, lo, lo + 4)
  }

  /** The sum of at most 1024 bytes cannot wrap. */
  lemma SealedMeans(b: seq<byte>, n: nat, lo: nat)
    requires n <= 1024
    ensures Sealed(b, n, lo) <==> ReadU32(b, lo) + ByteSum(b, n, lo, lo + 4) == U32_LIMIT - 1
  {
  }

  /** No single-byte change survives the checksum: a summed byte moves the sum and
      not the stored field, a byte of the stored field moves the field and not the sum. */
  lemma SealBreaks(a: seq<byte>, b: seq<byte>, at: nat, n: nat, lo: nat)
    requires n <= 1024 && lo + 4 <= n && at < n
    requires Sealed(a, n, lo)
    requires At(a, at) != At(b, at)
    requires forall i :: i != at ==> At(a, i) == At(b, i)
    ensures !Sealed(b, n, lo)
  {
    SealedMeans(a, n, lo);
    SealedMeans(b, n, lo);
    ByteSumOneChange(a, b, at, n, lo, lo + 4);
  }

  lemma {:induction false} ByteSumMonotone(a: seq<byte>, b: seq<byte>, n: nat, lo: nat, hi: nat)
    requires forall i :: 0 <= i < n ==> At(a, i) <= At(b, i)
    ensures ByteSum(a, n, lo, hi) <= ByteSum(b, n, lo, hi)
    ensures ByteSum(a, n, lo, hi) == ByteSum(b, n, lo, hi) ==>
              forall i :: 0 <= i < n && !(lo <= i < hi) ==> At(a, i) == At(b, i)
  {
    if n > 0 {
      ByteSumMonotone(a, b, n - 1, lo, hi);
    }
  }

  /** A section that is nowhere above a sealed one and is sealed itself is that section:
      losing bytes lowers the sum, which would have to raise the stored field. */
  lemma SealedBelowIsEqual(a: seq<byte>, b: seq<byte>, n: nat, lo: nat)
    requires n <= 1024 && lo + 4 <= n
    requires Sealed(a, n, lo) && Sealed(b, n, lo)
    requires forall i :: 0 <= i < n ==> At(a, i) <= At(b, i)
    ensures SameOn(a, b, 0, n)
  {
    SealedMeans(a, n, lo);
    SealedMeans(b, n, lo);
    ByteSumMonotone(a, b, n, lo, lo + 4);
    assert ReadU32(a, lo) <= ReadU32(b, lo);
    assert ReadU32(a, lo) == ReadU32(b, lo);
    SameU32Below(a, b, lo);
  }

  lemma SameU32Below(a: seq<byte>, b: seq<byte>, lo: int)
    requires ReadU32(a, lo) == ReadU32(b, lo)
    requires forall i :: lo <= i < lo + 4 ==> At(a, i) <= At(b, i)
    ensures forall i :: lo <= i < lo + 4 ==> At(a, i) == At(b, i)
  {
    assert At(a, lo) == At(b, lo) && At(a, lo + 1) == At(b, lo + 1)
        && At(a, lo + 2) == At(b, lo + 2) && At(a, lo + 3) == At(b, lo + 3);
  }

  /** `copy_from_slice`: overwrite part of a buffer in place. */
  method Put(f: array<byte>, off: nat, data: seq<byte>)
    requires off + |data| <= f.Length
    modifies f
    ensures f[..] == Splice(old(f[..]), off, data)
    ensures f[off..off + |data|] == data
  {
    forall i | 0 <= i < |data| {
      f[off + i] := data[i];
    }
  }

  method WriteU32(f: array<byte>, off: nat, v: nat)
    requires off + 4 <= f.Length && v < U32_LIMIT
    modifies f
    ensures f[..] == Splice(old(f[..]), off, U32Bytes(v))
    ensures ReadU32(f[..], off) == v
  {
    Put(f, off, U32Bytes(v));
    assert f[..][off..off + 4] == U32Bytes(v);
    ReadU32Bytes(f[..], off, v);
  }

  method WriteU64(f: array<byte>, off: nat, v: nat)
    requires off + 8 <= f.Length && v < U64_LIMIT
    modifies f
    ensures f[..] == Splice(old(f[..]), off, U64Bytes(v))
    ensures ReadU64(f[..], off) == v
  {
    Put(f, off, U64Bytes(v));
    assert f[..][off..off + 8] == U64Bytes(v);
    ReadU64Bytes(f[..], off, v);
  }

  lemma SameU32s(a: seq<byte>, b: seq<byte>, lo: nat, hi: nat)
    requires SameOn(a, b, lo, hi)
    ensures forall off {:trigger ReadU32(b, off)} | lo <= off && off + 4 <= hi :: ReadU32(a, off) == ReadU32(b, off)
  {
  }
}
