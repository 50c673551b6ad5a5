/** The format as its specification publishes it, with the numbers written out: a second
    description of footer, header, blocks and acceptance, against which the parsers, the table
    walk and the block arithmetic are checked.  The definitions here use none of the parsers'
    offsets, wire numbers or arithmetic. */
module Published {
  import opened Bytes
  import opened Results
  import opened Format
  import opened Blocks
  import opened Disks
  import opened Acceptance
  import opened Images
  import Footers
  import Geometry
  import Headers = DynamicHeaders

  // ---- Integers, texts and sums ----

  /** The number that `n` bytes from `off` hold, the most significant byte first. */
  ghost function Number(b: seq<byte>, off: nat, n: nat): nat {
    if n == 0 then 0 else Number(b, off, n - 1) * 256 + At(b, off + n - 1)
  }

  lemma NumbersAsRead(b: seq<byte>, off: nat)
    ensures Number(b, off, 2) == At(b, off) * 256 + At(b, off + 1)
    ensures Number(b, off, 4) == ReadU32(b, off)
    ensures Number(b, off, 8) == ReadU64(b, off)
  {
    assert Number(b, off, 1) == At(b, off);
    assert Number(b, off, 3) == Number(b, off, 2) * 256 + At(b, off + 2);
    assert Number(b, off, 5) == Number(b, off, 4) * 256 + At(b, off + 4);
    assert Number(b, off, 6) == Number(b, off, 5) * 256 + At(b, off + 5);
    assert Number(b, off, 7) == Number(b, off, 6) * 256 + At(b, off + 6);
  }

  /** The bytes from `off` on spell the text. */
  predicate Spells(b: seq<byte>, off: nat, text: string) {
    forall i {:trigger text[i]} :: 0 <= i < |text| ==> At(b, off + i) == text[i] as int
  }

  /** The sum of all bytes. */
  ghost function Sum(b: seq<byte>): (n: nat)
    ensures n <= 255 * |b|
  {
    if b == [] then 0 else b[0] + Sum(b[1..])
  }

  lemma {:induction false} SumAppends(b: seq<byte>, x: byte)
    ensures Sum(b + [x]) == Sum(b) + x
  {
    if b != [] {
      SumAppends(b[1..], x);
      assert (b + [x])[1..] == b[1..] + [x];
    }
  }

  /** Adding up with a field left out is adding up what stands before and after it. */
  lemma {:induction false} SumAround(b: seq<byte>, n: nat, lo: nat, hi: nat)
    requires lo <= hi && n <= |b|
    ensures ByteSum(b, n, lo, hi) == Sum(b[..if n < lo then n else lo]) + if n <= hi then 0 else Sum(b[hi..n])
  {
    if n > 0 {
      SumAround(b, n - 1, lo, hi);
      if n <= lo {
        assert b[..n] == b[..n - 1] + [b[n - 1]];
        SumAppends(b[..n - 1], b[n - 1]);
      } else if n > hi {
        assert b[hi..n] == b[hi..n - 1] + [b[n - 1]];
        SumAppends(b[hi..n - 1], b[n - 1]);
      }
    }
  }

  /** The four bytes at `at` hold the complement of the sum of all others. */
  ghost predicate CheckedAt(b: seq<byte>, at: nat)
    requires at + 4 <= |b| <= 1024
  {
    Number(b, at, 4) == 4294967295 - Sum(b[..at]) - Sum(b[at + 4..])
  }

  lemma CheckedIsSealed(b: seq<byte>, at: nat)
    requires at + 4 <= |b| <= 1024
    ensures CheckedAt(b, at) <==> ReadU32(b, at) == Checksum(b, |b|, at, at + 4)
  {
    hide ByteSum, Sum, Number, ReadU32;
    SumAround(b, |b|, at, at + 4);
    assert b[at + 4..|b|] == b[at + 4..];
    NumbersAsRead(b, at);
  }

  // ---- The footer ----

  /** The wire number of a disk type. */
  function TypeNumber(t: Footers.DiskType): nat {
    match t
    case Fixed => 2
    case Dynamic => 3
    case Differencing => 4
  }

  /** The 512 bytes are a footer with these fields. */
  ghost predicate IsFooter(b: seq<byte>, f: Footers.Footer) {
    && |b| == 512
    && Spells(b, 0, "conectix")
    && Number(b, 8, 4) == f.features
    && Number(b, 12, 4) == f.version
    && Number(b, 16, 8) == f.dataOffset
    && Number(b, 40, 8) == f.originalSize
    && Number(b, 48, 8) == f.currentSize
    && Number(b, 60, 4) == TypeNumber(f.diskType)
    && CheckedAt(b, 64)
    && b[68..84] == f.uniqueId
  }

  lemma CookieSpelled(b: seq<byte>)
    ensures |b| >= 8 ==> (Footers.StartsWithCookie(b) <==> Spells(b, 0, "conectix"))
    ensures |b| >= 8 ==> (b[..8] == Headers.COOKIE <==> Spells(b, 0, "cxsparse"))
  {
    if |b| >= 8 {
      var s := b[..8];
      assert forall i :: 0 <= i < 8 ==> s[i] == At(b, i);
      SameText(b, s, Footers.COOKIE, "conectix");
      SameText(b, s, Headers.COOKIE, "cxsparse");
    }
  }

  lemma SameText(b: seq<byte>, s: seq<byte>, c: seq<byte>, text: string)
    requires |s| == |c| == |text| && forall i :: 0 <= i < |s| ==> s[i] == At(b, i)
    requires forall i :: 0 <= i < |text| ==> c[i] == text[i] as int
    ensures s == c <==> Spells(b, 0, text)
  {
    if Spells(b, 0, text) {
      forall i | 0 <= i < |s| ensures s[i] == c[i] {
        assert At(b, i) == text[i] as int;
      }
    }
  }

  /** A footer parses to just the fields that the specification gives it. */
  lemma FooterAsPublished(b: seq<byte>, f: Footers.Footer)
    requires |b| == FOOTER_SIZE
    ensures Footers.Parse(b) == Ok(f) <==> IsFooter(b, f)
  {
    hide Number, Checksum, ReadU32, ReadU64, Sum, Spells, Footers.StartsWithCookie, CheckedAt;
    CookieSpelled(b);
    CheckedIsSealed(b, 64);
    NumbersAsRead(b, 8);
    NumbersAsRead(b, 12);
    NumbersAsRead(b, 16);
    NumbersAsRead(b, 40);
    NumbersAsRead(b, 48);
    NumbersAsRead(b, 60);
  }

  /** The fields that only the composer writes: the time, the creator, the geometry, and zeros. */
  ghost predicate Composed(b: seq<byte>, size: nat, timestamp: nat)
    requires |b| == 512
  {
    && Number(b, 24, 4) == timestamp
    && Spells(b, 28, "am  ") && Number(b, 32, 4) == 1 && Spells(b, 36, "Mac ")
    && Geometry.OnLadder(if size / 512 < 267382800 then size / 512 else 267382800,
                         Geometry.Chs(Number(b, 56, 2), At(b, 58), At(b, 59)))
    && forall i {:trigger At(b, i)} :: 84 <= i < 512 ==> At(b, i) == 0
  }

  lemma ComposedAsPublished(b: seq<byte>, size: nat, timestamp: nat)
    requires |b| == FOOTER_SIZE && ReadU32(b, Footers.AT_TIMESTAMP) == timestamp && Footers.CreatorFields(b)
    requires Footers.HoldsGeometry(b, Geometry.Ladder(Geometry.Capped(size / SECTOR)))
    requires forall i :: 84 <= i < FOOTER_SIZE ==> At(b, i) == 0
    ensures Composed(b, size, timestamp)
  {
    NumbersAsRead(b, 24);
    NumbersAsRead(b, 32);
    NumbersAsRead(b, 56);
    hide Number, Geometry.OnLadder;
    SpelledWord(b, 28, "am  ");
    SpelledWord(b, 36, "Mac ");
    Geometry.LadderIsClimbed(Geometry.Capped(size / SECTOR));
  }

  lemma SpelledWord(b: seq<byte>, off: nat, text: string)
    requires |text| == 4 && forall i :: 0 <= i < 4 ==> text[i] as int < 256
    requires ReadU32(b, off) ==
             text[0] as int * 0x100_0000 + text[1] as int * 0x1_0000 + text[2] as int * 0x100 + text[3] as int
    ensures Spells(b, off, text)
  {
    assert At(b, off) == text[0] as int && At(b, off + 1) == text[1] as int;
    assert At(b, off + 2) == text[2] as int && At(b, off + 3) == text[3] as int;
  }

  /** What creation leaves of a dynamic image of `size` bytes in `n` blocks: the footer at both
      ends, the header behind the first, and a table of ones that fills whole sectors. */
  ghost predicate IsEmptyImage(dev: seq<byte>, size: nat, blockSize: nat, n: nat, timestamp: nat, uuid: seq<byte>) {
    && |dev| >= 2048 && |dev| == 1536 + (n + 127) / 128 * 512 + 512
    && IsFooter(dev[..512], Footers.Footer(2, 65536, 512, size, size, Footers.Dynamic, uuid))
    && Composed(dev[..512], size, timestamp)
    && dev[|dev| - 512..] == dev[..512]
    && IsHeader(dev[512..1536], Headers.DynamicHeader(18446744073709551615, 1536, 65536, n, blockSize,
                                                      Zeros(16), 0, [], Headers.NoLocators()))
    && forall a {:trigger At(dev, a)} :: 1536 <= a < |dev| - 512 ==> At(dev, a) == 255
  }

  // ---- The dynamic header ----

  ghost predicate IsLocator(b: seq<byte>, off: nat, loc: Headers.ParentLocator)
    requires off + 24 <= |b|
  {
    && b[off..off + 4] == loc.platformCode
    && Number(b, off + 4, 4) == loc.dataSpace
    && Number(b, off + 8, 4) == loc.dataLength
    && Number(b, off + 12, 4) == loc.reserved
    && Number(b, off + 16, 8) == loc.dataOffset
  }

  /** A power of two, 512 or more. */
  ghost predicate IsBlockSize(n: nat) {
    exists k: nat :: k >= 9 && Pow2(k) == n
  }

  /** The 1,024 bytes are a dynamic header with these fields. */
  ghost predicate IsHeader(b: seq<byte>, h: Headers.DynamicHeader) {
    && |b| == 1024
    && Spells(b, 0, "cxsparse")
    && Number(b, 8, 8) == h.dataOffset
    && Number(b, 16, 8) == h.tableOffset
    && Number(b, 24, 4) == h.version
    && Number(b, 28, 4) == h.maxTableEntries
    && Number(b, 32, 4) == h.blockSize
    && CheckedAt(b, 36)
    && b[40..56] == h.parentUniqueId
    && Number(b, 56, 4) == h.parentTimestamp
    && Headers.NameIn(b, 64, 256, h.parentName)
    && |h.parentLocators| == 8
    && (forall i {:trigger h.parentLocators[i]} :: 0 <= i < 8 ==> IsLocator(b, 576 + 24 * i, h.parentLocators[i]))
    && IsBlockSize(h.blockSize)
  }

  lemma LocatorsAsPublished(b: seq<byte>, locs: seq<Headers.ParentLocator>)
    requires |b| == 1024
    ensures Headers.Locators(b) == locs <==>
              |locs| == 8
              && forall i {:trigger locs[i]} :: 0 <= i < 8 ==> IsLocator(b, 576 + 24 * i, locs[i])
  {
    hide Number, ReadU32, ReadU64;
    forall i | 0 <= i < 8 && |locs| == 8
      ensures Headers.Locators(b)[i] == locs[i] <==> IsLocator(b, 576 + 24 * i, locs[i])
    {
      var off := 576 + 24 * i;
      NumbersAsRead(b, off + 4);
      NumbersAsRead(b, off + 8);
      NumbersAsRead(b, off + 12);
      NumbersAsRead(b, off + 16);
    }
  }

  /** A power of two is one of the powers of two. */
  lemma {:induction false} PowersOfTwo(n: nat)
    ensures Headers.IsPowerOfTwo(n) <==> exists k: nat :: Pow2(k) == n
    decreases n
  {
    if Headers.IsPowerOfTwo(n) {
      if n == 1 {
        assert Pow2(0) == n;
      } else {
        PowersOfTwo(n / 2);
        var k: nat :| Pow2(k) == n / 2;
        assert Pow2(k + 1) == n;
      }
    }
    if k: nat :| Pow2(k) == n {
      PowerIsPower(k);
    }
  }

  lemma {:induction false} PowerIsPower(k: nat)
    ensures Headers.IsPowerOfTwo(Pow2(k))
  {
    if k > 0 {
      PowerIsPower(k - 1);
    }
  }

  lemma {:induction false} PowersRise(j: nat, k: nat)
    requires j < k
    ensures Pow2(j) < Pow2(k)
  {
    if j + 1 < k {
      PowersRise(j, k - 1);
    }
  }

  lemma NinthPower(k: nat)
    ensures Pow2(k) >= 512 <==> k >= 9
  {
    assert Pow2(9) == 512 by { assert Pow2(4) == 16; }
    if k < 9 {
      PowersRise(k, 9);
    } else if k > 9 {
      PowersRise(9, k);
    }
  }

  lemma BlockSizes(n: nat)
    ensures Headers.IsPowerOfTwo(n) && n >= 512 <==> IsBlockSize(n)
  {
    PowersOfTwo(n);
    if k: nat :| Pow2(k) == n {
      NinthPower(k);
      assert n >= 512 ==> k >= 9 && Pow2(k) == n;
    }
    if k: nat :| k >= 9 && Pow2(k) == n {
      NinthPower(k);
    }
  }

  /** A header parses to just the fields that the specification gives it. */
  lemma HeaderAsPublished(b: seq<byte>, h: Headers.DynamicHeader)
    requires |b| == HEADER_SIZE
    ensures Headers.Parse(b) == Ok(h) <==> IsHeader(b, h)
  {
    hide Number, Checksum, ReadU32, ReadU64, Sum, Spells, CheckedAt, Headers.IsPowerOfTwo, Headers.Units,
      Headers.Locators, IsLocator, IsBlockSize;
    CookieSpelled(b);
    CheckedIsSealed(b, 36);
    NumbersAsRead(b, 8);
    NumbersAsRead(b, 16);
    NumbersAsRead(b, 24);
    NumbersAsRead(b, 28);
    NumbersAsRead(b, 32);
    NumbersAsRead(b, 56);
    BlockSizes(ReadU32(b, 32));
    Headers.UnitsAsPublished(b, 64, 256, h.parentName);
    LocatorsAsPublished(b, h.parentLocators);
  }

  // ---- Blocks ----

  /** A bit for every sector, in whole sectors of 4,096 bits. */
  function BitmapLength(blockSize: nat): nat { (blockSize / 512 + 4095) / 4096 * 512 }

  lemma BitmapAsPublished(blockSize: nat)
    ensures Headers.BitmapSize(blockSize) == BitmapLength(blockSize)
  {
    var sectors := blockSize / 512;
    assert ((sectors + 7) / 8 + 511) / 512 == (sectors + 4095) / 4096;
  }

  /** The bit of sector `k` in its byte of the bitmap, the most significant bit first. */
  predicate BitSet(b: byte, k: nat)
    requires k < 8
  {
    b / [128, 64, 32, 16, 8, 4, 2, 1][k] % 2 == 1
  }

  lemma BitAsPublished(b: byte, k: nat)
    requires k < 8
    ensures Bit(b, k) <==> BitSet(b, k)
  {
    ShiftIsDivision(b, 7 - k);
    assert Pow2(3) == 8;
    assert Pow2(7) == 128;
    assert Pow2(6) == 64;
    assert Pow2(5) == 32;
  }

  lemma {:induction false} ShiftIsDivision(b: nat, k: nat)
    ensures ShiftedBit(b, k) <==> b / Pow2(k) % 2 == 1
  {
    if k > 0 {
      ShiftIsDivision(b / 2, k - 1);
      HalvedAgain(b, Pow2(k - 1));
    }
  }

  lemma HalvedAgain(b: nat, p: nat)
    requires p > 0
    ensures b / 2 / p == b / (2 * p)
  {
    var h, r := b / 2, b % 2;
    Remainder(h, p);
    assert b == 2 * h + r;
    assert 2 * (h / p * p) == h / p * (2 * p);
    DivMod(b, 2 * p, h / p, 2 * (h % p) + r);
  }

  /** Byte `v` of a sparse image's disk, straight from its file: the table's big-endian word
      names a sector of the file, the bitmap stands there and the data behind it; `under` shows
      where there is no block or the sector's bit is clear. */
  ghost function DiskByte(dev: seq<byte>, tableOffset: nat, blockSize: nat, v: nat, under: byte): byte
    requires blockSize > 0
  {
    var entry := Number(dev, tableOffset + 4 * (v / blockSize), 4);
    var inside := v % blockSize;
    var sector := inside / 512;
    if entry != 4294967295 && BitSet(At(dev, 512 * entry + sector / 8), sector % 8)
    then At(dev, 512 * entry + BitmapLength(blockSize) + inside)
    else under
  }

  /** Reading through the table is reading as published. */
  lemma BytesAsPublished(l: Layout, dev: seq<byte>, v: nat, under: byte)
    requires l.Valid() && l.bitmapSize == Headers.BitmapSize(l.blockSize) && v < l.virtualSize
    ensures OverlayByte(l, dev, Table(l, dev), v, under) == DiskByte(dev, l.tableOffset, l.blockSize, v, under)
  {
    hide Bit, BitSet, Number, Headers.BitmapSize;
    BlockIndexInRange(l, v);
    NumbersAsRead(dev, l.tableOffset + 4 * (v / l.blockSize));
    BitmapAsPublished(l.blockSize);
    var entry, sector := Table(l, dev)[v / l.blockSize], v % l.blockSize / 512;
    BitAsPublished(At(dev, Home(entry) + sector / 8), sector % 8);
  }

  /** The disk that reads and writes of a dynamic image are about is the one its file shows to
      any reader of the format, also where the cached table lags behind. */
  lemma ContentsAsPublished(d: Disk, v: nat)
    requires Inv(d) && d.l.bitmapSize == Headers.BitmapSize(d.l.blockSize) && v < d.l.virtualSize
    ensures Contents(d)[v] == DiskByte(d.dev, d.l.tableOffset, d.l.blockSize, v, 0)
  {
    hide OverlayByte, DiskByte, TableFits, Agrees;
    LiveAgreesWithDevice(d);
    BytesAsPublished(d.l, d.dev, v, 0);
    assert Flat(d.l, d.dev, Table(d.l, d.dev))[v] == OverlayByte(d.l, d.dev, Table(d.l, d.dev), v, 0);
  }

  // ---- Acceptance ----

  /** The block that starts at `start` lies past all metadata and ends by `end`. */
  ghost predicate BlockFits(f: Footers.Footer, h: Headers.DynamicHeader, start: nat, end: nat) {
    && 512 <= start && f.dataOffset + 1024 <= start && h.tableOffset + 4 * h.maxTableEntries <= start
    && start + BitmapLength(h.blockSize) + h.blockSize <= end
  }

  /** Where the block of entry `i` starts, if it has one. */
  ghost function Start(dev: seq<byte>, h: Headers.DynamicHeader, i: nat): nat {
    512 * Number(dev, h.tableOffset + 4 * i, 4)
  }

  ghost predicate Allocated(dev: seq<byte>, h: Headers.DynamicHeader, i: nat) {
    i < h.maxTableEntries && Number(dev, h.tableOffset + 4 * i, 4) != 4294967295
  }

  /** The blocks lie where they may, no two sharing a byte. */
  ghost predicate BlocksFit(dev: seq<byte>, f: Footers.Footer, h: Headers.DynamicHeader, end: nat) {
    && (forall i: nat {:trigger Start(dev, h, i)} :: Allocated(dev, h, i) ==> BlockFits(f, h, Start(dev, h, i), end))
    && forall i: nat, j: nat {:trigger Start(dev, h, i), Start(dev, h, j)} ::
         i < j && Allocated(dev, h, i) && Allocated(dev, h, j) ==>
           || Start(dev, h, i) + BitmapLength(h.blockSize) + h.blockSize <= Start(dev, h, j)
           || Start(dev, h, j) + BitmapLength(h.blockSize) + h.blockSize <= Start(dev, h, i)
  }

  /** The extents `[a, b)` and `[c, d)` lie apart. */
  predicate Clear(a: nat, b: nat, c: nat, d: nat) { b <= c || d <= a }

  /** A locator is empty, or its payload ends in the data area and lies apart from mirror,
      header, table and every block. */
  ghost predicate LocatorFits(dev: seq<byte>, f: Footers.Footer, h: Headers.DynamicHeader, end: nat,
    loc: Headers.ParentLocator)
  {
    var a, b := loc.dataOffset, loc.dataOffset + loc.dataLength;
    || loc.platformCode == [0, 0, 0, 0]
    || loc.dataLength == 0
    || (&& b <= end
        && Clear(a, b, 0, 512)
        && Clear(a, b, f.dataOffset, f.dataOffset + 1024)
        && Clear(a, b, h.tableOffset, h.tableOffset + 4 * h.maxTableEntries)
        && forall i: nat {:trigger Start(dev, h, i)} :: Allocated(dev, h, i) ==>
             Clear(a, b, Start(dev, h, i), Start(dev, h, i) + BitmapLength(h.blockSize) + h.blockSize))
  }

  /** All that is asked of a sparse image's file before a parent is looked for. */
  ghost predicate Believable(dev: seq<byte>, f: Footers.Footer, h: Headers.DynamicHeader, end: nat) {
    && |dev| % 512 == 0
    && f.dataOffset + 1024 <= |dev| && IsHeader(dev[f.dataOffset..f.dataOffset + 1024], h)
    && f.currentSize <= h.maxTableEntries * h.blockSize
    && h.tableOffset + 4 * h.maxTableEntries <= |dev|
    && BlocksFit(dev, f, h, end)
    && (f.diskType.Differencing? ==>
          forall i {:trigger h.parentLocators[i]} :: 0 <= i < |h.parentLocators| ==>
            LocatorFits(dev, f, h, end, h.parentLocators[i]))
  }

  /** The data area ends at the trailing footer, or with a file that shows no trace of one. */
  ghost function DataAreaEnd(dev: seq<byte>, fromMirror: bool): nat
    requires |dev| >= 512
  {
    if fromMirror && !Spells(dev, |dev| - 512, "conectix") then |dev| else |dev| - 512
  }

  lemma EndAsPublished(dev: seq<byte>, fromMirror: bool)
    requires |dev| >= FOOTER_SIZE
    ensures DataEnd(dev, fromMirror) == DataAreaEnd(dev, fromMirror)
  {
    var s := LastSector(dev);
    CookieSpelled(s);
    assert forall i :: 0 <= i < 512 ==> At(s, i) == At(dev, |dev| - 512 + i);
  }

  lemma HeaderChecksAsPublished(dev: seq<byte>, f: Footers.Footer, h: Headers.DynamicHeader)
    requires |dev| < U64_LIMIT
    ensures SparseHeader(dev, f) == Ok(h) <==>
              && |dev| % 512 == 0
              && f.dataOffset + 1024 <= |dev| && IsHeader(dev[f.dataOffset..f.dataOffset + 1024], h)
              && f.currentSize <= h.maxTableEntries * h.blockSize
              && h.tableOffset + 4 * h.maxTableEntries <= |dev|
  {
    hide Headers.Parse, IsHeader, DivCeil;
    var at := f.dataOffset;
    if at + 1024 <= |dev| {
      HeaderAsPublished(dev[at..at + 1024], h);
      if h.blockSize > 0 {
        CoveredByBlocks(f.currentSize, h.blockSize, h.maxTableEntries);
      } else if IsHeader(dev[at..at + 1024], h) {
        NoEmptyBlocks(dev[at..at + 1024], h);
      }
    }
  }

  lemma NoEmptyBlocks(b: seq<byte>, h: Headers.DynamicHeader)
    requires IsHeader(b, h)
    ensures h.blockSize > 0
  {
  }

  lemma EntryAsPublished(dev: seq<byte>, f: Footers.Footer, h: Headers.DynamicHeader, end: nat, i: nat)
    requires i < h.maxTableEntries
    ensures var l := LayoutOf(f, h);
            var e := Table(l, dev)[i];
            && l.entries == h.maxTableEntries && l.Total() == BitmapLength(h.blockSize) + h.blockSize
            && Home(e) == Start(dev, h, i) && (e != UNALLOCATED <==> Allocated(dev, h, i))
            && (l.dataStart <= Home(e) && Home(e) + l.Total() <= end <==> BlockFits(f, h, Start(dev, h, i), end))
  {
    hide Number, Headers.BitmapSize, BitmapLength;
    BitmapAsPublished(h.blockSize);
    NumbersAsRead(dev, h.tableOffset + 4 * i);
    var m := Max(Max(FOOTER_SIZE, f.dataOffset + HEADER_SIZE), h.tableOffset + 4 * h.maxTableEntries);
    RoundsUp(m, Table(LayoutOf(f, h), dev)[i]);
  }

  /** A sector lies past a number of bytes if and only if it lies past the sectors they fill. */
  lemma RoundsUp(m: nat, e: nat)
    ensures RoundToSector(m) <= Home(e) <==> m <= Home(e)
  {
  }

  lemma TableAsPublished(dev: seq<byte>, f: Footers.Footer, h: Headers.DynamicHeader, end: nat)
    ensures var l := LayoutOf(f, h); TableFits(l, Table(l, dev), l.dataStart, end) <==> BlocksFit(dev, f, h, end)
  {
    hide LayoutOf, Number, BitmapLength, BlockFits, Home, Start;
    var l := LayoutOf(f, h);
    var t := Table(l, dev);
    assert l.entries == h.maxTableEntries by {
      EntriesOf(f, h);
    }
    forall i: nat {:trigger t[i]} {:trigger Start(dev, h, i)} | i < l.entries
      ensures Home(t[i]) == Start(dev, h, i) && (t[i] != UNALLOCATED <==> Allocated(dev, h, i))
      ensures l.dataStart <= Home(t[i]) && Home(t[i]) + l.Total() <= end <==> BlockFits(f, h, Start(dev, h, i), end)
      ensures l.Total() == BitmapLength(h.blockSize) + h.blockSize
    {
      EntryAsPublished(dev, f, h, end, i);
    }
  }

  lemma EntriesOf(f: Footers.Footer, h: Headers.DynamicHeader)
    ensures LayoutOf(f, h).entries == h.maxTableEntries && LayoutOf(f, h).tableOffset == h.tableOffset
  {
  }

  lemma LocatorAsPublished(dev: seq<byte>, f: Footers.Footer, h: Headers.DynamicHeader, end: nat,
    loc: Headers.ParentLocator)
    ensures var l := LayoutOf(f, h);
            LocatorClear(l, f.dataOffset, Table(l, dev), end, loc) <==> LocatorFits(dev, f, h, end, loc)
  {
    hide LayoutOf, Number, BitmapLength, Home, Start;
    var l := LayoutOf(f, h);
    var t := Table(l, dev);
    EntriesOf(f, h);
    assert Zeros(4) == [0, 0, 0, 0];
    forall i: nat {:trigger t[i]} {:trigger Start(dev, h, i)} | i < l.entries
      ensures Home(t[i]) == Start(dev, h, i) && (t[i] != UNALLOCATED <==> Allocated(dev, h, i))
      ensures l.Total() == BitmapLength(h.blockSize) + h.blockSize
    {
      EntryAsPublished(dev, f, h, end, i);
    }
  }

  /** An image is believed if and only if its file is as published, and its header with it. */
  lemma AcceptedAsPublished(dev: seq<byte>, c: Choice, h: Headers.DynamicHeader)
    requires FOOTER_SIZE <= |dev| < U64_LIMIT
    ensures OpenSparse(dev, c).Ok? && OpenSparse(dev, c).value.header == h <==>
              Believable(dev, c.footer, h, DataAreaEnd(dev, c.fromMirror))
  {
    hide SparseHeader, LayoutOf, TableFits, BlocksFit, LocatorClear, LocatorFits, IsHeader, DataEnd, DataAreaEnd;
    EndAsPublished(dev, c.fromMirror);
    HeaderChecksAsPublished(dev, c.footer, h);
    if SparseHeader(dev, c.footer) == Ok(h) {
      TableAsPublished(dev, c.footer, h, DataAreaEnd(dev, c.fromMirror));
      forall loc {:trigger LocatorFits(dev, c.footer, h, DataAreaEnd(dev, c.fromMirror), loc)}
        ensures LocatorClear(LayoutOf(c.footer, h), c.footer.dataOffset, Table(LayoutOf(c.footer, h), dev),
                             DataAreaEnd(dev, c.fromMirror), loc) <==>
                  LocatorFits(dev, c.footer, h, DataAreaEnd(dev, c.fromMirror), loc)
      {
        LocatorAsPublished(dev, c.footer, h, DataAreaEnd(dev, c.fromMirror), loc);
      }
    }
  }
}
