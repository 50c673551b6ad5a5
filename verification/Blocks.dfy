/** Blocks and their sector bitmaps, on the bytes of a device.

    A block is `bitmapSize` bytes of bitmap followed by `blockSize` bytes of data.  A clear
    bit does not say what the data bytes hold: the sector reads as whatever lies under the
    image (zero, or the parent). */
module Blocks {
  import opened Bytes
  import opened Format

  /** What the write path and the read path take from an opened sparse image. */
  datatype Layout = Layout(
    blockSize: nat,
    bitmapSize: nat,
    tableOffset: nat,
    entries: nat,
    dataStart: nat,
    virtualSize: nat)
  {
    function Total(): nat { bitmapSize + blockSize }

    function TableEnd(): nat { tableOffset + 4 * entries }

    /** Bytes that `n` blocks hold. */
    ghost function Capacity(n: nat): nat {
      if n == 0 then 0 else blockSize + Capacity(n - 1)
    }

    ghost predicate Valid() {
      && SECTOR <= blockSize < U32_LIMIT && blockSize % SECTOR == 0
      && SECTOR <= bitmapSize < U32_LIMIT && bitmapSize % SECTOR == 0
      && blockSize / SECTOR <= 8 * bitmapSize
      && TableEnd() <= dataStart
      && SECTOR <= dataStart && dataStart % SECTOR == 0
      && virtualSize <= Capacity(entries)
      && entries < U32_LIMIT
    }
  }

  lemma {:induction false} CapacityIsProduct(l: Layout, n: nat)
    ensures l.Capacity(n) == n * l.blockSize
  {
    if n > 0 {
      CapacityIsProduct(l, n - 1);
      Distribute(n, 1, l.blockSize);
    }
  }

  /** Host offset of the block a BAT entry names. */
  function Home(entry: nat): nat { entry * SECTOR }

  /** `(b >> k) & 1 == 1`. */
  predicate ShiftedBit(b: nat, k: nat) {
    if k == 0 then b % 2 == 1 else ShiftedBit(b / 2, k - 1)
  }

  /** `b | (1 << k)`. */
  function OrBit(b: nat, k: nat): nat {
    if k == 0 then b / 2 * 2 + 1 else 2 * OrBit(b / 2, k - 1) + b % 2
  }

  lemma {:induction false} OrBitSetsOne(b: nat, k: nat, j: nat)
    ensures ShiftedBit(OrBit(b, k), j) <==> j == k || ShiftedBit(b, j)
  {
    if k > 0 && j > 0 {
      OrBitSetsOne(b / 2, k - 1, j - 1);
      assert OrBit(b, k) / 2 == OrBit(b / 2, k - 1);
    }
  }

  lemma {:induction false} OrBitFits(b: nat, k: nat, n: nat)
    requires k < n && b < Pow2(n)
    ensures OrBit(b, k) < Pow2(n)
  {
    var p := Pow2(n - 1);
    assert Pow2(n) == 2 * p && b / 2 < p;
    if k > 0 {
      OrBitFits(b / 2, k - 1, n - 1);
      DoubledFits(OrBit(b / 2, k - 1), b % 2, p);
    } else {
      DoubledFits(b / 2, 1, p);
    }
  }

  lemma DoubledFits(h: nat, c: nat, p: nat)
    requires h < p && c < 2
    ensures 2 * h + c < 2 * p
  {
  }

  /** The bitmap is most-significant-bit first: sector `k` of a byte is its bit `7 - k`. */
  predicate Bit(b: byte, k: nat)
    requires k < 8
  {
    ShiftedBit(b, 7 - k)
  }

  function WithBit(b: byte, k: nat): (r: byte)
    requires k < 8
    ensures forall j {:trigger Bit(r, j)} | 0 <= j < 8 :: Bit(r, j) <==> j == k || Bit(b, j)
  {
    assert Pow2(8) == 256 by {
      assert Pow2(4) == 16;
    }
    OrBitFits(b, 7 - k, 8);
    SetsOne(b, k);
    OrBit(b, 7 - k)
  }

  lemma SetsOne(b: byte, k: nat)
    requires k < 8
    ensures forall j {:trigger ShiftedBit(OrBit(b, 7 - k), 7 - j)} | 0 <= j < 8 ::
              ShiftedBit(OrBit(b, 7 - k), 7 - j) <==> j == k || ShiftedBit(b, 7 - j)
  {
    forall j {:trigger ShiftedBit(b, 7 - j)} | 0 <= j < 8
      ensures ShiftedBit(OrBit(b, 7 - k), 7 - j) <==> j == k || ShiftedBit(b, 7 - j)
    {
      OrBitSetsOne(b, 7 - k, 7 - j);
    }
  }

  /** Is sector `s` of a bitmap set?  Out of range is a bug of the caller. */
  function BitmapGet(bitmap: seq<byte>, s: nat): bool
    requires s / 8 < |bitmap|
  {
    Bit(bitmap[s / 8], s % 8)
  }

  method BitmapSet(bitmap: array<byte>, s: nat)
    requires s / 8 < bitmap.Length
    modifies bitmap
    ensures forall t: nat :: t / 8 < bitmap.Length ==>
              (BitmapGet(bitmap[..], t) <==> t == s || old(BitmapGet(bitmap[..], t)))
  {
    bitmap[s / 8] := WithBit(bitmap[s / 8], s % 8);
    forall t: nat | t / 8 < bitmap.Length
      ensures BitmapGet(bitmap[..], t) <==> t == s || old(BitmapGet(bitmap[..], t))
    {
      assert t / 8 == s / 8 && t % 8 == s % 8 ==> t == s;
    }
  }

  /** Is sector `s` of the block at `home` present on the device? */
  function Present(dev: seq<byte>, home: nat, s: nat): bool {
    Bit(At(dev, home + s / 8), s % 8)
  }

  /** Byte `r` of the data area of the block at `home`, published or not. */
  function Datum(l: Layout, dev: seq<byte>, home: nat, r: int): byte {
    At(dev, home + l.bitmapSize + r)
  }

  /** Byte `r` of the block at `home`, over `under`. */
  function ViewByte(l: Layout, dev: seq<byte>, home: nat, r: nat, under: byte): byte {
    if Present(dev, home, r / SECTOR) then Datum(l, dev, home, r) else under
  }

  /** Byte `r` of the block that `entry` names, over `under`. */
  function BlockByte(l: Layout, dev: seq<byte>, entry: nat, r: nat, under: byte): byte {
    if entry == UNALLOCATED then under else ViewByte(l, dev, Home(entry), r, under)
  }

  function EntryOf(bat: seq<nat>, i: nat): nat {
    if i < |bat| then bat[i] else UNALLOCATED
  }

  function BlockIndex(l: Layout, v: nat): nat
    requires l.blockSize > 0
  {
    v / l.blockSize
  }

  function InBlock(l: Layout, v: nat): (r: nat)
    requires l.blockSize > 0
    ensures r < l.blockSize
  {
    Remainder(v, l.blockSize);
    v % l.blockSize
  }

  /** Byte `v` of the virtual disk, over `under`. */
  function OverlayByte(l: Layout, dev: seq<byte>, bat: seq<nat>, v: nat, under: byte): byte
    requires l.blockSize > 0
  {
    BlockByte(l, dev, EntryOf(bat, BlockIndex(l, v)), InBlock(l, v), under)
  }

  /** The virtual disk of a dynamic image: one flat byte string. */
  ghost function Flat(l: Layout, dev: seq<byte>, bat: seq<nat>): (r: seq<byte>)
    requires l.blockSize > 0
    ensures |r| == l.virtualSize
  {
    seq(l.virtualSize, v requires 0 <= v < l.virtualSize => OverlayByte(l, dev, bat, v, 0))
  }

  /** A block whose bitmap is all clear. */
  ghost predicate Blank(l: Layout, dev: seq<byte>, home: nat) {
    forall s {:trigger Present(dev, home, s)} :: 0 <= s < l.blockSize / SECTOR ==> !Present(dev, home, s)
  }

  /** The bytes of a block decide everything that is read from it. */
  lemma ViewFrame(l: Layout, dev: seq<byte>, dev': seq<byte>, home: nat, r: nat, under: byte)
    requires l.Valid() && r < l.blockSize
    requires SameOn(dev, dev', home, home + l.Total())
    ensures Present(dev, home, r / SECTOR) == Present(dev', home, r / SECTOR)
    ensures ViewByte(l, dev, home, r, under) == ViewByte(l, dev', home, r, under)
  {
    assert r / SECTOR / 8 < l.bitmapSize;
    assert At(dev, home + r / SECTOR / 8) == At(dev', home + r / SECTOR / 8);
    assert At(dev, home + l.bitmapSize + r) == At(dev', home + l.bitmapSize + r);
  }

  lemma BlankFrame(l: Layout, dev: seq<byte>, dev': seq<byte>, home: nat)
    requires l.Valid() && Blank(l, dev, home)
    requires SameOn(dev, dev', home, home + l.Total())
    ensures Blank(l, dev', home)
  {
    forall s | 0 <= s < l.blockSize / SECTOR ensures !Present(dev', home, s) {
      ViewFrame(l, dev, dev', home, s * SECTOR, 0);
      assert s * SECTOR / SECTOR == s;
    }
  }

  /** A zeroed block is blank. */
  lemma ZeroedIsBlank(l: Layout, dev: seq<byte>, home: nat)
    requires l.Valid()
    requires forall a {:trigger At(dev, a)} :: home <= a < home + l.bitmapSize ==> At(dev, a) == 0
    ensures Blank(l, dev, home)
  {
    forall s | 0 <= s < l.blockSize / SECTOR ensures !Present(dev, home, s) {
      assert At(dev, home + s / 8) == 0;
    }
  }
}
