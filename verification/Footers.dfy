/** The 512-byte footer: parsing, composing, and what its checksum protects. */
module Footers {
  import opened Bytes
  import opened Results
  import opened Format
  import Geometry

  const AT_FEATURES: nat := 8
  const AT_VERSION: nat := 12
  const AT_DATA_OFFSET: nat := 16
  const AT_TIMESTAMP: nat := 24
  const AT_CREATOR_APPLICATION: nat := 28
  const AT_CREATOR_VERSION: nat := 32
  const AT_CREATOR_HOST_OS: nat := 36
  const AT_ORIGINAL_SIZE: nat := 40
  const AT_CURRENT_SIZE: nat := 48
  const AT_GEOMETRY: nat := 56
  const AT_DISK_TYPE: nat := 60
  const AT_CHECKSUM: nat := 64
  const AT_UNIQUE_ID: nat := 68

  /** "conectix" */
  const COOKIE: seq<byte> := [0x63, 0x6F, 0x6E, 0x65, 0x63, 0x74, 0x69, 0x78]

  /** "am  " and "Mac " */
  const CREATOR_APPLICATION: nat := 0x616D_2020
  const CREATOR_HOST_OS: nat := 0x4D61_6320

  predicate CreatorFields(f: seq<byte>) {
    && ReadU32(f, AT_CREATOR_APPLICATION) == CREATOR_APPLICATION
    && ReadU32(f, AT_CREATOR_VERSION) == 1
    && ReadU32(f, AT_CREATOR_HOST_OS) == CREATOR_HOST_OS
  }

  datatype DiskType = Fixed | Dynamic | Differencing {
    function Wire(): nat {
      match this
      case Fixed => FIXED_WIRE
      case Dynamic => DYNAMIC_WIRE
      case Differencing => DIFFERENCING_WIRE
    }

    predicate Sparse() { !Fixed? }
  }

  function DiskTypeFromU32(v: nat): (r: Result<DiskType>)
    ensures forall t: DiskType :: r == Ok(t) <==> t.Wire() == v
  {
    if v == FIXED_WIRE then Ok(Fixed)
    else if v == DYNAMIC_WIRE then Ok(Dynamic)
    else if v == DIFFERENCING_WIRE then Ok(Differencing)
    else Err(UnsupportedDiskType(v))
  }

  datatype Footer = Footer(
    features: nat,
    version: nat,
    dataOffset: nat,
    originalSize: nat,
    currentSize: nat,
    diskType: DiskType,
    uniqueId: seq<byte>)

  predicate StartsWithCookie(b: seq<byte>) {
    |b| >= 8 && b[..8] == COOKIE
  }

  function Parse(b: seq<byte>): Result<Footer> {
    if |b| < FOOTER_SIZE then Err(Corrupt)
    else if !StartsWithCookie(b) then Err(NotVhd)
    else if ReadU32(b, AT_CHECKSUM) != Checksum(b, FOOTER_SIZE, AT_CHECKSUM, AT_CHECKSUM + 4) then Err(BadChecksum)
    else
      match DiskTypeFromU32(ReadU32(b, AT_DISK_TYPE))
      case Err(e) => Err(e)
      case Ok(diskType) =>
        Ok(Footer(
             ReadU32(b, AT_FEATURES),
             ReadU32(b, AT_VERSION),
             ReadU64(b, AT_DATA_OFFSET),
             ReadU64(b, AT_ORIGINAL_SIZE),
             ReadU64(b, AT_CURRENT_SIZE),
             diskType,
             b[AT_UNIQUE_ID..AT_UNIQUE_ID + 16]))
  }

  /** The fields before the creator's. */
  method PutIdentity(f: array<byte>, dataOffset: nat, timestamp: nat)
    requires f.Length == FOOTER_SIZE && dataOffset < U64_LIMIT && timestamp < U32_LIMIT
    modifies f
    ensures ReadU32(f[..], AT_FEATURES) == 2 && ReadU32(f[..], AT_VERSION) == 0x1_0000
    ensures ReadU64(f[..], AT_DATA_OFFSET) == dataOffset
    ensures ReadU32(f[..], AT_TIMESTAMP) == timestamp
    ensures SameOn(f[..], old(f[..]), 0, AT_FEATURES)
    ensures SameOn(f[..], old(f[..]), AT_CREATOR_APPLICATION, FOOTER_SIZE)
  {
    WriteU32(f, AT_FEATURES, 2);
    WriteU32(f, AT_VERSION, 0x1_0000);
    WriteU64(f, AT_DATA_OFFSET, dataOffset);
    WriteU32(f, AT_TIMESTAMP, timestamp);
  }

  /** The creator's fields and the two sizes. */
  method PutCreatorAndSizes(f: array<byte>, size: nat)
    requires f.Length == FOOTER_SIZE && size < U64_LIMIT
    modifies f
    ensures CreatorFields(f[..])
    ensures ReadU64(f[..], AT_ORIGINAL_SIZE) == size && ReadU64(f[..], AT_CURRENT_SIZE) == size
    ensures SameOn(f[..], old(f[..]), 0, AT_CREATOR_APPLICATION)
    ensures SameOn(f[..], old(f[..]), AT_GEOMETRY, FOOTER_SIZE)
  {
    WriteU32(f, AT_CREATOR_APPLICATION, CREATOR_APPLICATION);
    WriteU32(f, AT_CREATOR_VERSION, 1);
    WriteU32(f, AT_CREATOR_HOST_OS, CREATOR_HOST_OS);
    WriteU64(f, AT_ORIGINAL_SIZE, size);
    WriteU64(f, AT_CURRENT_SIZE, size);
  }

  /** The geometry word, the disk type and the unique id. */
  method PutGeometryAndType(f: array<byte>, size: nat, diskType: DiskType, uuid: seq<byte>)
    requires f.Length == FOOTER_SIZE && |uuid| == 16
    modifies f
    ensures HoldsGeometry(f[..], Geometry.Ladder(Geometry.Capped(size / SECTOR)))
    ensures GeometrySectors(f[..]) == Geometry.Described(size / SECTOR)
    ensures ReadU32(f[..], AT_DISK_TYPE) == diskType.Wire()
    ensures f[AT_UNIQUE_ID..AT_UNIQUE_ID + 16] == uuid
    ensures SameOn(f[..], old(f[..]), 0, AT_GEOMETRY)
    ensures SameOn(f[..], old(f[..]), 84, FOOTER_SIZE)
  {
    var g := Geometry.ChsForSize(size);
    Put(f, AT_GEOMETRY, [g.cylinders / 256, g.cylinders % 256, g.heads, g.spt]);
    WriteU32(f, AT_DISK_TYPE, diskType.Wire());
    Put(f, AT_UNIQUE_ID, uuid);
    assert At(f[..], AT_GEOMETRY) * 256 + At(f[..], AT_GEOMETRY + 1) == g.cylinders;
  }

  /** The geometry word: cylinders in two bytes, heads and sectors a track in one each. */
  predicate HoldsGeometry(f: seq<byte>, g: Geometry.Chs) {
    && At(f, AT_GEOMETRY) * 256 + At(f, AT_GEOMETRY + 1) == g.cylinders
    && At(f, AT_GEOMETRY + 2) == g.heads
    && At(f, AT_GEOMETRY + 3) == g.spt
  }

  /** Sectors described by a footer's geometry word: cylinders, heads, sectors a track. */
  function GeometrySectors(f: seq<byte>): nat {
    (At(f, AT_GEOMETRY) * 256 + At(f, AT_GEOMETRY + 1)) * At(f, AT_GEOMETRY + 2) * At(f, AT_GEOMETRY + 3)
  }

  /** Every field but the checksum, over a zeroed buffer. */
  method PutFields(f: array<byte>, size: nat, diskType: DiskType, dataOffset: nat, timestamp: nat, uuid: seq<byte>)
    requires f.Length == FOOTER_SIZE && f[..] == Zeros(FOOTER_SIZE)
    requires size < U64_LIMIT && dataOffset < U64_LIMIT && timestamp < U32_LIMIT && |uuid| == 16
    modifies f
    ensures StartsWithCookie(f[..])
    ensures ReadU32(f[..], AT_FEATURES) == 2 && ReadU32(f[..], AT_VERSION) == 0x1_0000
    ensures ReadU64(f[..], AT_DATA_OFFSET) == dataOffset && ReadU32(f[..], AT_TIMESTAMP) == timestamp
    ensures CreatorFields(f[..])
    ensures ReadU64(f[..], AT_ORIGINAL_SIZE) == size && ReadU64(f[..], AT_CURRENT_SIZE) == size
    ensures HoldsGeometry(f[..], Geometry.Ladder(Geometry.Capped(size / SECTOR)))
    ensures GeometrySectors(f[..]) == Geometry.Described(size / SECTOR)
    ensures ReadU32(f[..], AT_DISK_TYPE) == diskType.Wire()
    ensures f[AT_UNIQUE_ID..AT_UNIQUE_ID + 16] == uuid
    ensures forall i :: 84 <= i < FOOTER_SIZE ==> At(f[..], i) == 0
  {
    Put(f, 0, COOKIE);
    ghost var s0 := f[..];
    PutIdentity(f, dataOffset, timestamp);
    ghost var s1 := f[..];
    PutCreatorAndSizes(f, size);
    ghost var s2 := f[..];
    PutGeometryAndType(f, size, diskType, uuid);
    SameU32s(s1, s2, 0, AT_CREATOR_APPLICATION);
    SameU32s(s2, f[..], 0, AT_GEOMETRY);
    assert s0[..8] == COOKIE;
    SameCookie(s0, f[..]);
  }

  lemma SameCookie(a: seq<byte>, b: seq<byte>)
    requires StartsWithCookie(a) && |a| == |b| && forall i :: 0 <= i < 8 ==> At(a, i) == At(b, i)
    ensures StartsWithCookie(b)
  {
    forall i | 0 <= i < 8 ensures b[..8][i] == COOKIE[i] {
      assert At(b, i) == a[..8][i];
    }
  }

  /** Compose a footer.  The timestamp and the unique id are inputs here. */
  method BuildFooter(size: nat, diskType: DiskType, dataOffset: nat, timestamp: nat, uuid: seq<byte>)
    returns (r: seq<byte>)
    requires size < U64_LIMIT && dataOffset < U64_LIMIT && timestamp < U32_LIMIT && |uuid| == 16
    ensures |r| == FOOTER_SIZE
    ensures Parse(r) == Ok(Footer(2, 0x1_0000, dataOffset, size, size, diskType, uuid))
    ensures ReadU32(r, AT_TIMESTAMP) == timestamp && CreatorFields(r)
    ensures HoldsGeometry(r, Geometry.Ladder(Geometry.Capped(size / SECTOR)))
    ensures GeometrySectors(r) == Geometry.Described(size / SECTOR)
    ensures forall i :: 84 <= i < FOOTER_SIZE ==> At(r, i) == 0
  {
    var f := new byte[FOOTER_SIZE](i => 0);
    PutFields(f, size, diskType, dataOffset, timestamp, uuid);
    ghost var unsealed := f[..];
    var sum := OnesComplementChecksum(f[..], FOOTER_SIZE, AT_CHECKSUM, AT_CHECKSUM + 4);
    WriteU32(f, AT_CHECKSUM, sum);
    r := f[..];
    SealedFooterParses(unsealed, r, sum);
  }

  /** Storing the checksum last makes a composed footer parse to its own fields. */
  lemma SealedFooterParses(unsealed: seq<byte>, r: seq<byte>, sum: nat)
    requires |unsealed| == FOOTER_SIZE && StartsWithCookie(unsealed)
    requires sum == Checksum(unsealed, FOOTER_SIZE, AT_CHECKSUM, AT_CHECKSUM + 4)
    requires r == Splice(unsealed, AT_CHECKSUM, U32Bytes(sum)) && ReadU32(r, AT_CHECKSUM) == sum
    requires DiskTypeFromU32(ReadU32(unsealed, AT_DISK_TYPE)).Ok?
    ensures Parse(r) == Ok(Footer(
                             ReadU32(unsealed, AT_FEATURES),
                             ReadU32(unsealed, AT_VERSION),
                             ReadU64(unsealed, AT_DATA_OFFSET),
                             ReadU64(unsealed, AT_ORIGINAL_SIZE),
                             ReadU64(unsealed, AT_CURRENT_SIZE),
                             DiskTypeFromU32(ReadU32(unsealed, AT_DISK_TYPE)).value,
                             unsealed[AT_UNIQUE_ID..AT_UNIQUE_ID + 16]))
    ensures ReadU32(r, AT_TIMESTAMP) == ReadU32(unsealed, AT_TIMESTAMP)
    ensures CreatorFields(r) <==> CreatorFields(unsealed)
    ensures forall g: Geometry.Chs :: HoldsGeometry(r, g) <==> HoldsGeometry(unsealed, g)
    ensures GeometrySectors(r) == GeometrySectors(unsealed)
  {
    ByteSumFrame(unsealed, r, FOOTER_SIZE, AT_CHECKSUM, AT_CHECKSUM + 4);
    assert r[..8] == unsealed[..8];
    assert r[AT_UNIQUE_ID..AT_UNIQUE_ID + 16] == unsealed[AT_UNIQUE_ID..AT_UNIQUE_ID + 16];
  }

  /** Every footer that parses is refused after any single byte of it is changed. */
  lemma TamperedFooterRefused(f: seq<byte>, i: nat, b: byte)
    requires |f| == FOOTER_SIZE && Parse(f).Ok? && i < FOOTER_SIZE && b != f[i]
    ensures Parse(f[i := b]).Err?
  {
    SealBreaks(f, f[i := b], i, FOOTER_SIZE, AT_CHECKSUM);
  }

  /** What a torn write of a footer over zeros leaves: a prefix, then zeros. */
  function Torn(f: seq<byte>, k: nat): (r: seq<byte>)
    requires k <= |f|
    ensures |r| == |f|
  {
    f[..k] + Zeros(|f| - k)
  }

  /** A torn footer is either the whole footer or not a footer. */
  lemma TornFooterIsWholeOrRefused(f: seq<byte>, k: nat)
    requires |f| == FOOTER_SIZE && Parse(f).Ok? && k <= FOOTER_SIZE
    ensures Parse(Torn(f, k)).Ok? ==> Torn(f, k) == f
  {
    var t := Torn(f, k);
    if Parse(t).Ok? {
      SealedBelowIsEqual(t, f, FOOTER_SIZE, AT_CHECKSUM);
      forall i | 0 <= i < FOOTER_SIZE ensures t[i] == f[i] {
        assert At(t, i) == At(f, i);
      }
    }
  }
}
