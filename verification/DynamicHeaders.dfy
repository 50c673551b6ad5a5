/** The 1024-byte dynamic disk header of a sparse image. */
module DynamicHeaders {
  import opened Bytes
  import opened Results
  import opened Format

  const AT_DATA_OFFSET: nat := 8
  const AT_TABLE_OFFSET: nat := 16
  const AT_HEADER_VERSION: nat := 24
  const AT_MAX_TABLE_ENTRIES: nat := 28
  const AT_BLOCK_SIZE: nat := 32
  const AT_CHECKSUM: nat := 36
  const AT_PARENT_UNIQUE_ID: nat := 40
  const AT_PARENT_TIMESTAMP: nat := 56
  const AT_PARENT_NAME: nat := 64
  const AT_PARENT_LOCATORS: nat := 576
  const LOCATOR_STRIDE: nat := 24
  const LOCATOR_COUNT: nat := 8

  /** "cxsparse" */
  const COOKIE: seq<byte> := [0x63, 0x78, 0x73, 0x70, 0x61, 0x72, 0x73, 0x65]

  datatype ParentLocator = ParentLocator(
    platformCode: seq<byte>,
    dataSpace: nat,
    dataLength: nat,
    reserved: nat,
    dataOffset: nat)

  datatype DynamicHeader = DynamicHeader(
    dataOffset: nat,
    tableOffset: nat,
    version: nat,
    maxTableEntries: nat,
    blockSize: nat,
    parentUniqueId: seq<byte>,
    parentTimestamp: nat,
    parentName: seq<nat>,
    parentLocators: seq<ParentLocator>)

  /** `u32::is_power_of_two`. */
  predicate IsPowerOfTwo(n: nat) {
    n == 1 || (n > 1 && n % 2 == 0 && IsPowerOfTwo(n / 2))
  }

  /** A power of two that is at least a sector is a whole number of sectors. */
  lemma {:induction false} SectorDividesPowerOfTwo(n: nat)
    requires IsPowerOfTwo(n) && n >= SECTOR
    ensures n % SECTOR == 0
    decreases n
  {
    if n >= 2 * SECTOR {
      SectorDividesPowerOfTwo(n / 2);
      DoubledMultiple(n / 2);
    } else {
      assert Pow2(9) == SECTOR by { assert Pow2(5) == 32; }
      SmallPowersBelowSector(n, 9);
    }
  }

  lemma DoubledMultiple(m: nat)
    requires m % SECTOR == 0
    ensures (2 * m) % SECTOR == 0
  {
  }

  lemma {:induction false} SmallPowersBelowSector(n: nat, k: nat)
    requires IsPowerOfTwo(n) && Pow2(k) <= n < 2 * Pow2(k)
    ensures n == Pow2(k)
  {
    if k > 0 {
      assert n > 1;
      SmallPowersBelowSector(n / 2, k - 1);
    }
  }

  /** `&` on unsigned integers. */
  function And(a: nat, b: nat): nat {
    if a == 0 || b == 0 then 0
    else (if a % 2 == 1 && b % 2 == 1 then 1 else 0) + 2 * And(a / 2, b / 2)
  }

  /** Masking by one less than a power of two is the remainder. */
  lemma {:induction false} MaskIsModulo(a: nat, n: nat)
    requires IsPowerOfTwo(n)
    ensures And(a, n - 1) == a % n
    decreases n
  {
    if n == 1 {
    } else if a == 0 {
      DivMod(0, n, 0, 0);
    } else {
      MaskIsModulo(a / 2, n / 2);
      assert (n - 1) / 2 == n / 2 - 1;
      ModuloByHalves(a, n);
    }
  }

  lemma ModuloByHalves(a: nat, n: nat)
    requires n > 1 && n % 2 == 0
    ensures a % n == 2 * (a / 2 % (n / 2)) + a % 2
  {
    var q, r := a / 2 / (n / 2), a / 2 % (n / 2);
    assert a / 2 == q * (n / 2) + r;
    Halves(q, n);
    DivMod(a, n, q, 2 * r + a % 2);
  }

  lemma Halves(q: nat, n: nat)
    requires n % 2 == 0
    ensures 2 * (q * (n / 2)) == q * n
  {
    assert n == 2 * (n / 2);
    Commute(q, n / 2);
  }

  lemma Commute(q: nat, m: nat)
    ensures 2 * (q * m) == q * (2 * m)
  {
  }

  /** Bytes of a block's sector bitmap, padded to whole sectors: the fewest whole sectors that
      have a bit for every sector of the block. */
  function BitmapSize(blockSize: nat): (r: nat)
    ensures r % SECTOR == 0
    ensures blockSize / SECTOR <= 8 * r
    ensures blockSize >= SECTOR ==> r >= SECTOR && 8 * (r - SECTOR) < blockSize / SECTOR
    ensures blockSize < U32_LIMIT ==> r < U32_LIMIT
  {
    RoundToSector((blockSize / SECTOR + 7) / 8)
  }

  /** UTF-16 units up to the first zero; what they spell is not interpreted. */
  function Units(b: seq<byte>, off: nat, n: nat): seq<nat>
    decreases n
  {
    if n == 0 then []
    else
      var u := At(b, off) * 256 + At(b, off + 1);
      if u == 0 then [] else [u] + Units(b, off + 2, n - 1)
  }

  /** A name in 16-bit units, most significant byte first, ended by a zero unit where it does not
      fill its `n` places. */
  ghost predicate NameIn(b: seq<byte>, off: nat, n: nat, name: seq<nat>) {
    && |name| <= n
    && (forall i {:trigger name[i]} :: 0 <= i < |name| ==>
          && 0 < name[i] < 65536
          && At(b, off + 2 * i) == name[i] / 256 && At(b, off + 2 * i + 1) == name[i] % 256)
    && (|name| < n ==> At(b, off + 2 * |name|) == 0 && At(b, off + 2 * |name| + 1) == 0)
  }

  /** A name field decodes to the units it holds and to nothing else. */
  lemma {:induction false} UnitsAsPublished(b: seq<byte>, off: nat, n: nat, name: seq<nat>)
    ensures Units(b, off, n) == name <==> NameIn(b, off, n, name)
    decreases n
  {
    if n > 0 {
      var u := At(b, off) * 256 + At(b, off + 1);
      if name != [] {
        UnitsAsPublished(b, off + 2, n - 1, name[1..]);
        NameShifts(b, off, n, name);
        assert name == [name[0]] + name[1..];
      }
    }
  }

  lemma NameShifts(b: seq<byte>, off: nat, n: nat, name: seq<nat>)
    requires n > 0 && name != []
    ensures NameIn(b, off, n, name) <==>
              && 0 < name[0] < 65536 && At(b, off) == name[0] / 256 && At(b, off + 1) == name[0] % 256
              && NameIn(b, off + 2, n - 1, name[1..])
  {
    var rest := name[1..];
    if NameIn(b, off, n, name) {
      forall i | 0 <= i < |rest|
        ensures 0 < rest[i] < 65536
        ensures At(b, off + 2 + 2 * i) == rest[i] / 256 && At(b, off + 2 + 2 * i + 1) == rest[i] % 256
      {
        assert rest[i] == name[i + 1];
      }
    }
    if NameIn(b, off + 2, n - 1, rest) && 0 < name[0] < 65536 && At(b, off) == name[0] / 256
       && At(b, off + 1) == name[0] % 256
    {
      forall i | 0 <= i < |name|
        ensures 0 < name[i] < 65536
        ensures At(b, off + 2 * i) == name[i] / 256 && At(b, off + 2 * i + 1) == name[i] % 256
      {
        assert i > 0 ==> name[i] == rest[i - 1];
      }
    }
  }

  function LocatorAt(b: seq<byte>, off: nat): ParentLocator
    requires off + LOCATOR_STRIDE <= |b|
  {
    ParentLocator(b[off..off + 4], ReadU32(b, off + 4), ReadU32(b, off + 8), ReadU32(b, off + 12), ReadU64(b, off + 16))
  }

  function NoLocators(): seq<ParentLocator> {
    seq(LOCATOR_COUNT, i => ParentLocator(Zeros(4), 0, 0, 0, 0))
  }

  function Locators(b: seq<byte>): seq<ParentLocator>
    requires |b| >= HEADER_SIZE
  {
    seq(LOCATOR_COUNT, i requires 0 <= i < LOCATOR_COUNT => LocatorAt(b, AT_PARENT_LOCATORS + i * LOCATOR_STRIDE))
  }

  function Parse(b: seq<byte>): Result<DynamicHeader> {
    if |b| < HEADER_SIZE then Err(Corrupt)
    else if b[..8] != COOKIE then Err(Corrupt)
    else if ReadU32(b, AT_CHECKSUM) != Checksum(b, HEADER_SIZE, AT_CHECKSUM, AT_CHECKSUM + 4) then Err(BadChecksum)
    else if !IsPowerOfTwo(ReadU32(b, AT_BLOCK_SIZE)) then Err(Corrupt)
    else if ReadU32(b, AT_BLOCK_SIZE) < SECTOR then Err(Corrupt)
    else
      Ok(DynamicHeader(
           ReadU64(b, AT_DATA_OFFSET),
           ReadU64(b, AT_TABLE_OFFSET),
           ReadU32(b, AT_HEADER_VERSION),
           ReadU32(b, AT_MAX_TABLE_ENTRIES),
           ReadU32(b, AT_BLOCK_SIZE),
           b[AT_PARENT_UNIQUE_ID..AT_PARENT_UNIQUE_ID + 16],
           ReadU32(b, AT_PARENT_TIMESTAMP),
           Units(b, AT_PARENT_NAME, 256),
           Locators(b)))
  }

  /** Parse check by check, filling the locator array in a loop. */
  method ParseHeader(b: seq<byte>) returns (r: Result<DynamicHeader>)
    ensures r == Parse(b)
  {
    if |b| < HEADER_SIZE { return Err(Corrupt); }
    if b[..8] != COOKIE { return Err(Corrupt); }
    var stored := ReadU32(b, AT_CHECKSUM);
    var computed := OnesComplementChecksum(b, HEADER_SIZE, AT_CHECKSUM, AT_CHECKSUM + 4);
    if stored != computed { return Err(BadChecksum); }
    var blockSize := ReadU32(b, AT_BLOCK_SIZE);
    if !IsPowerOfTwo(blockSize) { return Err(Corrupt); }
    if blockSize < SECTOR { return Err(Corrupt); }
    var name := DecodeUnits(b);
    var locators := [];
    for i := 0 to LOCATOR_COUNT
      invariant locators == Locators(b)[..i]
    {
      locators := locators + [LocatorAt(b, AT_PARENT_LOCATORS + i * LOCATOR_STRIDE)];
    }
    assert locators == Locators(b);
    return Ok(DynamicHeader(
                ReadU64(b, AT_DATA_OFFSET), ReadU64(b, AT_TABLE_OFFSET), ReadU32(b, AT_HEADER_VERSION),
                ReadU32(b, AT_MAX_TABLE_ENTRIES), blockSize, b[AT_PARENT_UNIQUE_ID..AT_PARENT_UNIQUE_ID + 16],
                ReadU32(b, AT_PARENT_TIMESTAMP), name, locators));
  }

  /** The units of the parent name, pushed until a zero unit. */
  method DecodeUnits(b: seq<byte>) returns (units: seq<nat>)
    requires |b| >= HEADER_SIZE
    ensures units == Units(b, AT_PARENT_NAME, 256)
    ensures NameIn(b, 64, 256, units)
  {
    UnitsAsPublished(b, AT_PARENT_NAME, 256, Units(b, AT_PARENT_NAME, 256));
    units := [];
    var i := 0;
    while i < 256
      invariant 0 <= i <= 256
      invariant Units(b, AT_PARENT_NAME, 256) == units + Units(b, AT_PARENT_NAME + 2 * i, 256 - i)
    {
      var off := AT_PARENT_NAME + 2 * i;
      var u := At(b, off) * 256 + At(b, off + 1);
      if u == 0 { return; }
      ghost var rest := Units(b, off + 2, 255 - i);
      assert Units(b, off, 256 - i) == [u] + rest;
      assert units + ([u] + rest) == units + [u] + rest;
      units := units + [u];
      i := i + 1;
    }
  }

  predicate ValidBlockSize(blockSize: nat) {
    IsPowerOfTwo(blockSize) && SECTOR <= blockSize < U32_LIMIT
  }

  /** What composing a header asks for is what parsing it returns. */
  function EmptyHeader(tableOffset: nat, entries: nat, blockSize: nat): DynamicHeader {
    DynamicHeader(U64_MAX, tableOffset, 0x1_0000, entries, blockSize, Zeros(16), 0, [], NoLocators())
  }

  method BuildDynamicHeader(tableOffset: nat, entries: nat, blockSize: nat) returns (r: seq<byte>)
    requires tableOffset < U64_LIMIT && entries < U32_LIMIT && blockSize < U32_LIMIT
    ensures |r| == HEADER_SIZE
    ensures Parse(r) == if ValidBlockSize(blockSize) then Ok(EmptyHeader(tableOffset, entries, blockSize))
            else Err(Corrupt)
  {
    var h := new byte[HEADER_SIZE](i => 0);
    PutHeaderFields(h, tableOffset, entries, blockSize);
    ghost var unsealed := h[..];
    var sum := OnesComplementChecksum(h[..], HEADER_SIZE, AT_CHECKSUM, AT_CHECKSUM + 4);
    WriteU32(h, AT_CHECKSUM, sum);
    r := h[..];
    SealedHeaderParses(unsealed, r, sum);
  }

  method PutHeaderFields(h: array<byte>, tableOffset: nat, entries: nat, blockSize: nat)
    requires h.Length == HEADER_SIZE && h[..] == Zeros(HEADER_SIZE)
    requires tableOffset < U64_LIMIT && entries < U32_LIMIT && blockSize < U32_LIMIT
    modifies h
    ensures h[..8] == COOKIE
    ensures ReadU64(h[..], AT_DATA_OFFSET) == U64_MAX && ReadU64(h[..], AT_TABLE_OFFSET) == tableOffset
    ensures ReadU32(h[..], AT_HEADER_VERSION) == 0x1_0000 && ReadU32(h[..], AT_MAX_TABLE_ENTRIES) == entries
    ensures ReadU32(h[..], AT_BLOCK_SIZE) == blockSize
    ensures forall i :: AT_CHECKSUM + 4 <= i < HEADER_SIZE ==> At(h[..], i) == 0
  {
    PutOffsets(h, tableOffset);
    ghost var s0 := h[..];
    WriteU32(h, AT_HEADER_VERSION, 0x1_0000);
    WriteU32(h, AT_MAX_TABLE_ENTRIES, entries);
    WriteU32(h, AT_BLOCK_SIZE, blockSize);
    forall i | 0 <= i < 8 ensures h[..8][i] == COOKIE[i] {
      assert s0[..8][i] == COOKIE[i];
      assert At(h[..], i) == At(s0, i);
    }
  }

  method PutOffsets(h: array<byte>, tableOffset: nat)
    requires h.Length == HEADER_SIZE && h[..] == Zeros(HEADER_SIZE) && tableOffset < U64_LIMIT
    modifies h
    ensures h[..8] == COOKIE
    ensures ReadU64(h[..], AT_DATA_OFFSET) == U64_MAX && ReadU64(h[..], AT_TABLE_OFFSET) == tableOffset
    ensures forall i :: AT_HEADER_VERSION <= i < HEADER_SIZE ==> At(h[..], i) == 0
  {
    Put(h, 0, COOKIE);
    ghost var s0 := h[..];
    WriteU64(h, AT_DATA_OFFSET, U64_MAX);
    WriteU64(h, AT_TABLE_OFFSET, tableOffset);
    forall i | 0 <= i < 8 ensures h[..8][i] == COOKIE[i] {
      assert s0[..8][i] == COOKIE[i];
      assert At(h[..], i) == At(s0, i);
    }
  }

  lemma SealedHeaderParses(unsealed: seq<byte>, r: seq<byte>, sum: nat)
    requires |unsealed| == HEADER_SIZE && unsealed[..8] == COOKIE
    requires forall i :: AT_CHECKSUM + 4 <= i < HEADER_SIZE ==> At(unsealed, i) == 0
    requires sum == Checksum(unsealed, HEADER_SIZE, AT_CHECKSUM, AT_CHECKSUM + 4)
    requires r == Splice(unsealed, AT_CHECKSUM, U32Bytes(sum)) && ReadU32(r, AT_CHECKSUM) == sum
    ensures var bs := ReadU32(unsealed, AT_BLOCK_SIZE);
            Parse(r) == if ValidBlockSize(bs)
                        then Ok(EmptyHeader(ReadU64(unsealed, AT_TABLE_OFFSET),
                                            ReadU32(unsealed, AT_MAX_TABLE_ENTRIES), bs)
                                .(dataOffset := ReadU64(unsealed, AT_DATA_OFFSET),
                                  version := ReadU32(unsealed, AT_HEADER_VERSION)))
                        else Err(Corrupt)
  {
    ByteSumFrame(unsealed, r, HEADER_SIZE, AT_CHECKSUM, AT_CHECKSUM + 4);
    assert r[..8] == unsealed[..8];
    forall i | AT_CHECKSUM + 4 <= i < HEADER_SIZE ensures r[i] == 0 {
      assert At(r, i) == At(unsealed, i);
    }
    NoParent(r);
  }

  /** A header that is zero past its checksum names no parent. */
  lemma NoParent(r: seq<byte>)
    requires |r| == HEADER_SIZE && forall i :: AT_CHECKSUM + 4 <= i < HEADER_SIZE ==> r[i] == 0
    ensures r[AT_PARENT_UNIQUE_ID..AT_PARENT_UNIQUE_ID + 16] == Zeros(16)
    ensures ReadU32(r, AT_PARENT_TIMESTAMP) == 0
    ensures Units(r, AT_PARENT_NAME, 256) == []
    ensures Locators(r) == NoLocators()
  {
    assert At(r, AT_PARENT_NAME) == r[AT_PARENT_NAME] && At(r, AT_PARENT_NAME + 1) == r[AT_PARENT_NAME + 1];
    forall i | 0 <= i < LOCATOR_COUNT ensures Locators(r)[i] == NoLocators()[i] {
      var off := AT_PARENT_LOCATORS + i * LOCATOR_STRIDE;
      assert r[off..off + 4] == Zeros(4);
    }
  }

  lemma TamperedHeaderRefused(h: seq<byte>, i: nat, b: byte)
    requires |h| == HEADER_SIZE && Parse(h).Ok? && i < HEADER_SIZE && b != h[i]
    ensures Parse(h[i := b]).Err?
  {
    SealBreaks(h, h[i := b], i, HEADER_SIZE, AT_CHECKSUM);
  }
}
