/** Creating a dynamic image: the sparse layout is written out, and the image it makes is
    opened as any other. */
module Creation {
  import opened Bytes
  import opened Results
  import opened Format
  import opened Blocks
  import opened Disks
  import opened Images
  import opened Devices
  import opened Readers
  import opened Opening
  import opened Runs
  import opened Resolution
  import Published
  import Footers
  import Geometry
  import Headers = DynamicHeaders

  const MAX_CREATE_BAT_ENTRIES: nat := 0x100_0000
  const HEADER_OFFSET: nat := SECTOR
  const TABLE_OFFSET: nat := HEADER_OFFSET + HEADER_SIZE
  const FILL_CHUNK: nat := 1024 * 1024

  /** The requests that are accepted. */
  ghost predicate Accepts(size: nat, blockSize: nat) {
    && size > 0 && size % SECTOR == 0 && Headers.ValidBlockSize(blockSize)
    && DivCeil(Geometry.ExactSize(size), blockSize) <= MAX_CREATE_BAT_ENTRIES
  }

  function CreatedLayout(size: nat, blockSize: nat): Layout
    requires blockSize > 0
  {
    var entries := DivCeil(size, blockSize);
    Layout(blockSize, Headers.BitmapSize(blockSize), TABLE_OFFSET, entries,
      TABLE_OFFSET + RoundToSector(4 * entries), size)
  }

  /** What creation leaves on the device: mirror, header, a table of 0xFF, trailing footer. */
  ghost predicate LaidOut(l: Layout, dev: seq<byte>, footer: seq<byte>, header: seq<byte>) {
    && |dev| == l.dataStart + FOOTER_SIZE && |footer| == FOOTER_SIZE && |header| == HEADER_SIZE
    && SectionsWritten(dev, footer, header, l.dataStart)
    && forall a {:trigger At(dev, a)} :: TABLE_OFFSET <= a < l.dataStart ==> At(dev, a) == 0xFF
  }

  ghost predicate SectionsWritten(dev: seq<byte>, footer: seq<byte>, header: seq<byte>, footerAt: nat)
    requires |footer| == FOOTER_SIZE && |header| == HEADER_SIZE
  {
    && (forall a {:trigger At(dev, a)} :: 0 <= a < FOOTER_SIZE ==> At(dev, a) == footer[a])
    && (forall a {:trigger At(dev, a)} :: HEADER_OFFSET <= a < TABLE_OFFSET ==> At(dev, a) == header[a - HEADER_OFFSET])
    && (forall a {:trigger At(dev, a)} :: footerAt <= a < footerAt + FOOTER_SIZE ==> At(dev, a) == footer[a - footerAt])
  }

  lemma CreatedLayoutIsValid(size: nat, blockSize: nat)
    requires Headers.ValidBlockSize(blockSize) && DivCeil(size, blockSize) <= MAX_CREATE_BAT_ENTRIES
    ensures CreatedLayout(size, blockSize).Valid()
  {
    hide Headers.BitmapSize, Headers.IsPowerOfTwo, DivCeil, RoundToSector, Layout.Capacity;
    var l := CreatedLayout(size, blockSize);
    Headers.SectorDividesPowerOfTwo(blockSize);
    EntriesCover(l, size);
    WholeSectors(0, TABLE_OFFSET, RoundToSector(4 * l.entries));
  }

  lemma EntriesCover(l: Layout, size: nat)
    requires l.blockSize > 0 && l.entries == DivCeil(size, l.blockSize)
    ensures size <= l.Capacity(l.entries)
  {
    CoveredByBlocks(size, l.blockSize, l.entries);
    CapacityIsProduct(l, l.entries);
  }

  /** Creation's own arithmetic for the end of the metadata is the one open recomputes. */
  lemma SameLayout(f: Footers.Footer, size: nat, blockSize: nat)
    requires blockSize > 0 && f.dataOffset == HEADER_OFFSET && f.currentSize == size
    ensures LayoutOf(f, Headers.EmptyHeader(TABLE_OFFSET, DivCeil(size, blockSize), blockSize)) ==
            CreatedLayout(size, blockSize)
  {
    TableAfterSectors(4 * DivCeil(size, blockSize));
  }

  lemma TableAfterSectors(n: nat)
    ensures RoundToSector(TABLE_OFFSET + n) == TABLE_OFFSET + RoundToSector(n)
  {
  }

  lemma FilledTableIsEmpty(l: Layout, dev: seq<byte>)
    requires forall a {:trigger At(dev, a)} :: l.tableOffset <= a < l.TableEnd() ==> At(dev, a) == 0xFF
    ensures forall i {:trigger Table(l, dev)[i]} :: 0 <= i < l.entries ==> Table(l, dev)[i] == UNALLOCATED
  {
    forall i | 0 <= i < l.entries ensures Table(l, dev)[i] == UNALLOCATED {
      var off := l.tableOffset + 4 * i;
      assert At(dev, off) == 0xFF && At(dev, off + 1) == 0xFF && At(dev, off + 2) == 0xFF && At(dev, off + 3) == 0xFF;
    }
  }

  ghost predicate AllZero(c: seq<byte>) {
    forall v :: 0 <= v < |c| ==> c[v] == 0
  }

  /** A disk none of whose blocks is allocated is all zero, and in order as soon as its
      layout is and its tail stands at the end of its metadata. */
  lemma EmptyDisk(l: Layout, dev: seq<byte>)
    requires l.Valid() && |dev| == l.dataStart + FOOTER_SIZE
    requires forall i {:trigger Table(l, dev)[i]} :: 0 <= i < l.entries ==> Table(l, dev)[i] == UNALLOCATED
    ensures var d := Disk(l, dev, Table(l, dev), l.dataStart); Inv(d) && AllZero(Contents(d))
  {
    var d := Disk(l, dev, Table(l, dev), l.dataStart);
    forall v | 0 <= v < l.virtualSize ensures Contents(d)[v] == 0 {
      var i, r := Locate(l, v);
    }
  }

  lemma LaidOutSections(l: Layout, dev: seq<byte>, footer: seq<byte>, header: seq<byte>)
    requires LaidOut(l, dev, footer, header) && l.dataStart >= TABLE_OFFSET
    ensures SameOn(dev, footer, 0, FOOTER_SIZE) && LastSector(dev) == footer
    ensures dev[HEADER_OFFSET..HEADER_OFFSET + HEADER_SIZE] == header
  {
    forall i | 0 <= i < FOOTER_SIZE ensures LastSector(dev)[i] == footer[i] {
      assert At(dev, l.dataStart + i) == footer[i];
    }
    forall i | 0 <= i < HEADER_SIZE ensures dev[HEADER_OFFSET..HEADER_OFFSET + HEADER_SIZE][i] == header[i] {
      assert At(dev, HEADER_OFFSET + i) == header[i];
    }
  }

  /** The image laid out is in order, empty, and reopens from either of its footers. */
  lemma LaidOutIsInOrder(size: nat, blockSize: nat, dev: seq<byte>, footer: seq<byte>, header: seq<byte>,
    f: Footers.Footer)
    requires Headers.ValidBlockSize(blockSize) && DivCeil(size, blockSize) <= MAX_CREATE_BAT_ENTRIES
    requires LaidOut(CreatedLayout(size, blockSize), dev, footer, header)
    requires Footers.Parse(footer) == Ok(f) && f.dataOffset == HEADER_OFFSET && f.currentSize == size
             && f.diskType.Dynamic?
    requires Headers.Parse(header) == Ok(Headers.EmptyHeader(TABLE_OFFSET, DivCeil(size, blockSize), blockSize))
    ensures var l := CreatedLayout(size, blockSize);
            var d := Disk(l, dev, Table(l, dev), l.dataStart);
            && Inv(d) && Recoverable(d, footer) && AllZero(Contents(d))
            && forall i {:trigger Table(l, dev)[i]} :: 0 <= i < l.entries ==> Table(l, dev)[i] == UNALLOCATED
  {
    hide Footers.Parse, Headers.Parse, LayoutOf, Headers.EmptyHeader;
    var l := CreatedLayout(size, blockSize);
    CreatedLayoutIsValid(size, blockSize);
    LaidOutSections(l, dev, footer, header);
    SameLayout(f, size, blockSize);
    FilledTableIsEmpty(l, dev);
    EmptyDisk(l, dev);
  }

  /** Every entry unallocated, a bounded chunk at a time. */
  method FillTable(dev: Device, at: nat, len: nat) returns (ok: bool)
    requires at + len <= |dev.bytes|
    modifies dev`bytes, dev`seen, dev.env
    ensures SameOutside(old(dev.bytes), dev.bytes, at, at + len)
    ensures ok ==> forall a {:trigger At(dev.bytes, a)} :: at <= a < at + len ==> At(dev.bytes, a) == 0xFF
    ensures dev.env.Since(old(dev.env.faults), old(dev.env.Calm()))
    ensures dev.env.faults == old(dev.env.faults) ==> ok
  {
    var size := if FILL_CHUNK < len then FILL_CHUNK else len;
    var chunk := seq(size, i => 0xFF as byte);
    var left := len;
    while left > 0
      invariant 0 <= left <= len
      invariant SameOutside(old(dev.bytes), dev.bytes, at, at + len)
      invariant forall a {:trigger At(dev.bytes, a)} :: at <= a < at + (len - left) ==> At(dev.bytes, a) == 0xFF
      invariant dev.env.Since(old(dev.env.faults), old(dev.env.Calm()))
    {
      var n := if left < |chunk| then left else |chunk|;
      ghost var j;
      ok, j := dev.WriteAt(at + (len - left), chunk[..n]);
      if !ok {
        return;
      }
      left := left - n;
    }
    ok := true;
  }

  /** The mirror, the header and the trailing footer. */
  method WriteSections(dev: Device, footer: seq<byte>, header: seq<byte>, footerAt: nat) returns (ok: bool)
    requires |footer| == FOOTER_SIZE && |header| == HEADER_SIZE && TABLE_OFFSET <= footerAt
    requires |dev.bytes| == footerAt + FOOTER_SIZE
    modifies dev`bytes, dev`seen, dev.env
    ensures |dev.bytes| == |old(dev.bytes)|
    ensures ok ==> SectionsWritten(dev.bytes, footer, header, footerAt)
    ensures dev.env.Since(old(dev.env.faults), old(dev.env.Calm()))
    ensures dev.env.faults == old(dev.env.faults) ==> ok
  {
    ghost var j;
    ok, j := dev.WriteAt(0, footer);
    if ok {
      assert footer[..j] == footer;
      ok, j := dev.WriteAt(HEADER_OFFSET, header);
      if ok {
        assert header[..j] == header;
        ok, j := dev.WriteAt(footerAt, footer);
        assert ok ==> footer[..j] == footer;
      }
    }
  }

  /** Lay the image out on a file that opening it has truncated. */
  method LayOut(dev: Device, l: Layout, footer: seq<byte>, header: seq<byte>) returns (ok: bool)
    requires |footer| == FOOTER_SIZE && |header| == HEADER_SIZE && TABLE_OFFSET <= l.dataStart
    modifies dev, dev.env
    ensures ok ==> LaidOut(l, dev.bytes, footer, header) && dev.durable == dev.bytes
    ensures dev.env.Since(old(dev.env.faults), old(dev.env.Calm()))
    ensures dev.env.faults == old(dev.env.faults) ==> ok
  {
    ok := dev.SetLen(0);
    if !ok { return; }
    ok := dev.SetLen(l.dataStart + FOOTER_SIZE);
    if !ok { return; }
    ok := WriteSections(dev, footer, header, l.dataStart);
    if !ok { return; }
    ghost var b := dev.bytes;
    ok := FillTable(dev, TABLE_OFFSET, l.dataStart - TABLE_OFFSET);
    if !ok { return; }
    SectionsKept(b, dev.bytes, footer, header, l.dataStart);
    ok := dev.Flush();
  }

  lemma SectionsKept(a: seq<byte>, b: seq<byte>, footer: seq<byte>, header: seq<byte>, footerAt: nat)
    requires |footer| == FOOTER_SIZE && |header| == HEADER_SIZE && SectionsWritten(a, footer, header, footerAt)
    requires SameOutside(a, b, TABLE_OFFSET, footerAt)
    ensures SectionsWritten(b, footer, header, footerAt)
  {
  }

  /** A fresh image: empty, all zero, of the rounded size, and a handle ready to write it. */
  ghost predicate Fresh(rd: VhdReader, size: nat, blockSize: nat)
    requires blockSize > 0
    reads rd, rd.dev, rd.readers, rd.devices
  {
    && rd.Ready() && rd.writable && Recoverable(rd.State(), rd.footerBytes)
    && var l := CreatedLayout(size, blockSize);
       && rd.L() == l && rd.virtualSize == size && rd.nextAlloc == l.dataStart
       && |rd.dev.bytes| == l.dataStart + FOOTER_SIZE
       && (forall i :: 0 <= i < |rd.bat| ==> rd.bat[i] == UNALLOCATED)
       && AllZero(Contents(rd.State()))
  }

  /** A request is accepted if and only if it is a positive number of whole sectors, in blocks
      of a power of two of at least 512 bytes of which 2^24 hold the size it is rounded to. */
  lemma AcceptsAsPublished(size: nat, blockSize: nat)
    requires blockSize < U32_LIMIT
    ensures Accepts(size, blockSize) <==>
              && size > 0 && size % 512 == 0 && Published.IsBlockSize(blockSize)
              && Geometry.ExactSize(size) <= 16777216 * blockSize
  {
    Published.BlockSizes(blockSize);
    if blockSize > 0 {
      CoveredByBlocks(Geometry.ExactSize(size), blockSize, MAX_CREATE_BAT_ENTRIES);
    }
  }

  /** Create a dynamic image and open it for writing.  The timestamp and the unique id are
      inputs here. */
  method CreateDynamic(dev: Device, virtualSize: nat, blockSize: nat, timestamp: nat, uuid: seq<byte>)
    returns (r: Result<VhdReader>)
    requires virtualSize < U64_LIMIT && blockSize < U32_LIMIT && timestamp < U32_LIMIT && |uuid| == 16
    modifies dev, dev.env
    ensures !Accepts(virtualSize, blockSize) ==> r == Err(Corrupt) && dev.bytes == old(dev.bytes)
    ensures r.Ok? ==> Accepts(virtualSize, blockSize) && fresh(r.value) && r.value.dev == dev
                      && dev.durable == dev.bytes && Fresh(r.value, Geometry.ExactSize(virtualSize), blockSize)
    ensures r.Ok? ==>
              && r.value.footer == Footers.Footer(2, 0x1_0000, HEADER_OFFSET, Geometry.ExactSize(virtualSize),
                                                  Geometry.ExactSize(virtualSize), Footers.Dynamic, uuid)
              && r.value.footerBytes == dev.bytes[|dev.bytes| - FOOTER_SIZE..]
              && Published.IsEmptyImage(dev.bytes, Geometry.ExactSize(virtualSize), blockSize,
                                        DivCeil(Geometry.ExactSize(virtualSize), blockSize), timestamp, uuid)
    ensures dev.env.Since(old(dev.env.faults), old(dev.env.Calm()))
    ensures dev.env.faults == old(dev.env.faults) ==> (r.Ok? <==> Accepts(virtualSize, blockSize))
  {
    hide Published.IsEmptyImage, Published.Composed, Footers.Parse, Headers.Parse, LaidOut, Recoverable, Inv, LayoutOf,
      Geometry.Rung, Footers.HoldsGeometry, Flat;
    if virtualSize == 0 || virtualSize % SECTOR != 0 {
      return Err(Corrupt);
    }
    if !Headers.IsPowerOfTwo(blockSize) || blockSize < SECTOR {
      return Err(Corrupt);
    }
    var size := Geometry.SizeWithExactGeometry(virtualSize);
    var entries := DivCeil(size, blockSize);
    if entries >= U32_LIMIT {
      return Err(Corrupt);
    }
    if entries > MAX_CREATE_BAT_ENTRIES {
      return Err(Corrupt);
    }
    var l := CreatedLayout(size, blockSize);
    var footer := Footers.BuildFooter(size, Footers.Dynamic, HEADER_OFFSET, timestamp, uuid);
    Published.ComposedAsPublished(footer, size, timestamp);
    var header := Headers.BuildDynamicHeader(TABLE_OFFSET, entries, blockSize);
    var ok := LayOut(dev, l, footer, header);
    if !ok {
      return Err(Io);
    }
    EmptyImageAsPublished(dev.bytes, size, blockSize, timestamp, uuid, footer, header);
    r := OpenCreated(dev, size, blockSize, footer, header, Footers.Parse(footer).value);
  }

  /** What was laid out, as published. */
  lemma EmptyImageAsPublished(dev: seq<byte>, size: nat, blockSize: nat, timestamp: nat, uuid: seq<byte>,
    footer: seq<byte>, header: seq<byte>)
    requires blockSize > 0 && LaidOut(CreatedLayout(size, blockSize), dev, footer, header)
    requires Footers.Parse(footer) ==
             Ok(Footers.Footer(2, 0x1_0000, HEADER_OFFSET, size, size, Footers.Dynamic, uuid))
    requires Published.Composed(footer, size, timestamp)
    requires Headers.Parse(header) == Ok(Headers.EmptyHeader(TABLE_OFFSET, DivCeil(size, blockSize), blockSize))
    ensures Published.IsEmptyImage(dev, size, blockSize, DivCeil(size, blockSize), timestamp, uuid)
    ensures LastSector(dev) == footer
  {
    hide Footers.Parse, Headers.Parse, Published.Composed, Published.IsFooter, Published.IsHeader, Headers.BitmapSize;
    var l := CreatedLayout(size, blockSize);
    TableSectors(DivCeil(size, blockSize));
    LaidOutSections(l, dev, footer, header);
    assert dev[..512] == footer by {
      SameSlice(dev, footer, 0, FOOTER_SIZE);
    }
    Published.FooterAsPublished(footer, Footers.Parse(footer).value);
    Published.HeaderAsPublished(header, Headers.Parse(header).value);
  }

  lemma TableSectors(n: nat)
    ensures RoundToSector(4 * n) == (n + 127) / 128 * 512
  {
  }

  /** `open_rw` on what was just laid out. */
  method OpenCreated(dev: Device, size: nat, blockSize: nat, ghost footer: seq<byte>, ghost header: seq<byte>,
    ghost f: Footers.Footer)
    returns (r: Result<VhdReader>)
    requires Headers.ValidBlockSize(blockSize) && DivCeil(size, blockSize) <= MAX_CREATE_BAT_ENTRIES
    requires LaidOut(CreatedLayout(size, blockSize), dev.bytes, footer, header)
    requires Footers.Parse(footer) == Ok(f) && f.dataOffset == HEADER_OFFSET && f.currentSize == size
             && f.diskType.Dynamic?
    requires Headers.Parse(header) == Ok(Headers.EmptyHeader(TABLE_OFFSET, DivCeil(size, blockSize), blockSize))
    modifies dev.env
    ensures r.Ok? ==> fresh(r.value) && r.value.dev == dev && Fresh(r.value, size, blockSize)
    ensures r.Ok? ==> r.value.footerBytes == footer && r.value.footer == f
    ensures dev.env.Since(old(dev.env.faults), old(dev.env.Calm()))
    ensures dev.env.faults == old(dev.env.faults) ==> r.Ok?
  {
    hide Footers.Parse, Headers.Parse, LayoutOf, Inv, Recoverable, Flat, Opens, Headers.EmptyHeader;
    LaidOutIsInOrder(size, blockSize, dev.bytes, footer, header, f);
    ghost var l := CreatedLayout(size, blockSize);
    ghost var d := Disk(l, dev.bytes, Table(l, dev.bytes), l.dataStart);
    RecoverableOpens(d, footer);
    r := OpenInner(dev, true, MAX_PARENT_DEPTH, None);
    if r.Ok? {
      ReopenedExactly(d, r.value, footer);
      ChosenFooterFacts(dev.bytes, Choice(r.value.footer, r.value.footerBytes, r.value.footerFromMirror));
    }
  }

  // ---- Fixed images ----

  /** The requests for a fixed image that are accepted. */
  ghost predicate AcceptsFixed(size: nat) {
    size > 0 && size % 512 == 0 && Geometry.ExactSize(size) + 512 < U64_LIMIT
  }

  /** Create a fixed image, zeros and a footer, and open it for writing.  The timestamp and the
      unique id are inputs here. */
  method CreateFixed(dev: Device, virtualSize: nat, timestamp: nat, uuid: seq<byte>) returns (r: Result<VhdReader>)
    requires virtualSize < U64_LIMIT && timestamp < U32_LIMIT && |uuid| == 16
    modifies dev, dev.env
    ensures virtualSize == 0 || virtualSize % SECTOR != 0 ==> r == Err(Corrupt) && dev.bytes == old(dev.bytes)
    ensures r.Ok? ==>
              && AcceptsFixed(virtualSize) && fresh(r.value) && r.value.dev == dev && r.value.Valid()
              && r.value.HasWritePath() && r.value.virtualSize == Geometry.ExactSize(virtualSize)
              && IsEmptyFixed(dev.bytes, Geometry.ExactSize(virtualSize), timestamp, uuid)
              && dev.durable == dev.bytes
    ensures dev.env.Since(old(dev.env.faults), old(dev.env.Calm()))
    ensures dev.env.faults == old(dev.env.faults) ==> (r.Ok? <==> AcceptsFixed(virtualSize))
  {
    hide Footers.Parse, Published.Composed, Published.IsFooter, Geometry.Rung, Footers.HoldsGeometry, Opens;
    if virtualSize == 0 || virtualSize % SECTOR != 0 {
      return Err(Corrupt);
    }
    var ok := dev.SetLen(0);
    if !ok {
      return Err(Io);
    }
    var size := Geometry.SizeWithExactGeometry(virtualSize);
    if size + FOOTER_SIZE >= U64_LIMIT {
      return Err(Corrupt);
    }
    ok := LayOutFixed(dev, size, timestamp, uuid);
    if !ok {
      return Err(Io);
    }
    r := OpenFixed(dev, size, timestamp, uuid);
  }

  /** Zeros and the footer behind them, on a file that opening it has truncated. */
  method LayOutFixed(dev: Device, size: nat, timestamp: nat, uuid: seq<byte>) returns (ok: bool)
    requires dev.bytes == [] && size + FOOTER_SIZE < U64_LIMIT && timestamp < U32_LIMIT && |uuid| == 16
    modifies dev, dev.env
    ensures ok ==> IsEmptyFixed(dev.bytes, size, timestamp, uuid) && dev.durable == dev.bytes
    ensures dev.env.Since(old(dev.env.faults), old(dev.env.Calm()))
    ensures dev.env.faults == old(dev.env.faults) ==> ok
  {
    hide Footers.Parse, Published.Composed, Published.IsFooter, Geometry.Rung, Footers.HoldsGeometry;
    ok := dev.SetLen(size + FOOTER_SIZE);
    if !ok {
      return;
    }
    var footer := Footers.BuildFooter(size, Footers.Fixed, U64_MAX, timestamp, uuid);
    Published.FooterAsPublished(footer, Footers.Parse(footer).value);
    Published.ComposedAsPublished(footer, size, timestamp);
    ghost var landed;
    ok, landed := dev.WriteAt(size, footer);
    if !ok {
      return;
    }
    ZerosThenFooter(dev.bytes, size, footer);
    ok := dev.Flush();
  }

  /** `open_rw` on it. */
  method OpenFixed(dev: Device, size: nat, ghost timestamp: nat, ghost uuid: seq<byte>) returns (r: Result<VhdReader>)
    requires IsEmptyFixed(dev.bytes, size, timestamp, uuid) && |dev.bytes| < U64_LIMIT
    modifies dev.env
    ensures r.Ok? ==>
              && fresh(r.value) && r.value.dev == dev && r.value.Valid()
              && r.value.HasWritePath() && r.value.virtualSize == size
    ensures dev.env.Since(old(dev.env.faults), old(dev.env.Calm()))
    ensures dev.env.faults == old(dev.env.faults) ==> r.Ok?
  {
    hide Footers.Parse, Published.Composed, Published.IsFooter, Opens;
    ghost var f := Footers.Footer(2, 65536, U64_MAX, size, size, Footers.Fixed, uuid);
    assert dev.bytes[|dev.bytes| - 512..] == dev.bytes[size..];
    FixedOpens(dev.bytes, f, MAX_PARENT_DEPTH, None);
    ChoiceAsPublished(dev.bytes, f, false);
    r := OpenInner(dev, true, MAX_PARENT_DEPTH, None);
  }

  ghost predicate IsEmptyFixed(dev: seq<byte>, size: nat, timestamp: nat, uuid: seq<byte>) {
    && |dev| == size + 512
    && (forall a {:trigger At(dev, a)} :: 0 <= a < size ==> At(dev, a) == 0)
    && Published.IsFooter(dev[size..], Footers.Footer(2, 65536, 18446744073709551615, size, size, Footers.Fixed, uuid))
    && Published.Composed(dev[size..], size, timestamp)
  }

  lemma ZerosThenFooter(dev: seq<byte>, size: nat, footer: seq<byte>)
    requires |dev| == size + FOOTER_SIZE && |footer| == FOOTER_SIZE
    requires dev == Splice(Grow([], size + FOOTER_SIZE), size, footer[..FOOTER_SIZE])
    ensures dev[size..] == footer && dev[|dev| - 512..] == footer
    ensures forall a {:trigger At(dev, a)} :: 0 <= a < size ==> At(dev, a) == 0
  {
    forall i | 0 <= i < FOOTER_SIZE ensures dev[size..][i] == footer[i] {
      assert At(dev, size + i) == footer[..FOOTER_SIZE][i];
    }
  }
}
