/** What opening an image means: which footer is believed, which layout and table it
    leads to, and when the allocation tail may be used.  The loops that decide it are in
    `Acceptance` and `Readers`; this is what they are proved against. */
module Images {
  import opened Bytes
  import opened Results
  import opened Format
  import opened Blocks
  import opened Disks
  import opened Acceptance
  import Footers
  import Headers = DynamicHeaders

  datatype Choice = Choice(footer: Footers.Footer, bytes: seq<byte>, fromMirror: bool)

  datatype Sparse = Sparse(header: Headers.DynamicHeader, l: Layout, bat: seq<nat>, dataEnd: nat, tail: nat)

  function LastSector(dev: seq<byte>): (r: seq<byte>)
    requires |dev| >= FOOTER_SIZE
    ensures |r| == FOOTER_SIZE
  {
    dev[|dev| - FOOTER_SIZE..]
  }

  /** The device ends in this very footer. */
  ghost predicate EndsIn(dev: seq<byte>, footer: seq<byte>) {
    |dev| >= FOOTER_SIZE && LastSector(dev) == footer
  }

  ghost predicate AllEndIn(seen: set<seq<byte>>, footer: seq<byte>) {
    forall dev {:trigger dev in seen} :: dev in seen ==> EndsIn(dev, footer)
  }

  /** The trailing footer, or the mirror at offset 0 when the tail does not parse and the
      mirror describes a sparse image. */
  function ChooseFooter(dev: seq<byte>): Result<Choice> {
    if |dev| < FOOTER_SIZE then Err(Corrupt)
    else
      match Footers.Parse(LastSector(dev))
      case Ok(f) => Ok(Choice(f, LastSector(dev), false))
      case Err(e) =>
        if |dev| < 2 * FOOTER_SIZE then Err(e)
        else
          match Footers.Parse(dev[..FOOTER_SIZE])
          case Ok(m) => if m.diskType.Sparse() then Ok(Choice(m, dev[..FOOTER_SIZE], true)) else Err(e)
          case Err(_) => Err(e)
  }

  function Max(a: nat, b: nat): nat { if a < b then b else a }

  function DivCeil(a: nat, b: nat): nat
    requires b > 0
  {
    (a + b - 1) / b
  }

  function LayoutOf(f: Footers.Footer, h: Headers.DynamicHeader): Layout {
    var tableEnd := h.tableOffset + 4 * h.maxTableEntries;
    Layout(
      h.blockSize,
      Headers.BitmapSize(h.blockSize),
      h.tableOffset,
      h.maxTableEntries,
      RoundToSector(Max(Max(FOOTER_SIZE, f.dataOffset + HEADER_SIZE), tableEnd)),
      f.currentSize)
  }

  /** The data area runs to the trailing footer, or to the end of a device whose last
      sector shows no sign of one. */
  function DataEnd(dev: seq<byte>, fromMirror: bool): nat
    requires |dev| >= FOOTER_SIZE
  {
    if fromMirror && !Footers.StartsWithCookie(LastSector(dev)) then |dev| else |dev| - FOOTER_SIZE
  }

  ghost predicate LocatorsClear(c: Choice, h: Headers.DynamicHeader, l: Layout, t: seq<nat>, dataEnd: nat) {
    c.footer.diskType.Differencing? ==>
      forall i :: 0 <= i < |h.parentLocators| ==> LocatorClear(l, c.footer.dataOffset, t, dataEnd, h.parentLocators[i])
  }

  /** The checks that come before the table is read. */
  function SparseHeader(dev: seq<byte>, f: Footers.Footer): Result<Headers.DynamicHeader> {
    var at := f.dataOffset;
    if at == U64_MAX then Err(Corrupt)
    else if |dev| % SECTOR != 0 then Err(Corrupt)
    else if at + HEADER_SIZE > |dev| then Err(Io)
    else
      match Headers.Parse(dev[at..at + HEADER_SIZE])
      case Err(e) => Err(e)
      case Ok(h) =>
        if h.blockSize == 0 || h.maxTableEntries < DivCeil(f.currentSize, h.blockSize) then Err(Corrupt)
        else if h.tableOffset + 4 * h.maxTableEntries > |dev| then Err(Corrupt)
        else Ok(h)
  }

  /** Everything open checks of a sparse image before it looks for a parent. */
  ghost function OpenSparse(dev: seq<byte>, c: Choice): Result<Sparse>
    requires |dev| >= FOOTER_SIZE
  {
    match SparseHeader(dev, c.footer)
    case Err(e) => Err(e)
    case Ok(h) =>
      var l := LayoutOf(c.footer, h);
      var t := Table(l, dev);
      var dataEnd := DataEnd(dev, c.fromMirror);
      if TableFits(l, t, l.dataStart, dataEnd) && LocatorsClear(c, h, l, t, dataEnd)
      then Ok(Sparse(h, l, t, dataEnd, TailOf(dev, l, t, c.fromMirror)))
      else Err(Corrupt)
  }

  ghost function TailOf(dev: seq<byte>, l: Layout, t: seq<nat>, fromMirror: bool): nat
    requires |dev| >= FOOTER_SIZE
  {
    if fromMirror then Max(|dev| - FOOTER_SIZE, MaxEnd(l, t)) else |dev| - FOOTER_SIZE
  }

  /** Open believes some footer of the device and arrives at this very layout. */
  ghost predicate ReopensAs(dev: seq<byte>, l: Layout) {
    && ChooseFooter(dev).Ok?
    && OpenSparse(dev, ChooseFooter(dev).value).Ok?
    && OpenSparse(dev, ChooseFooter(dev).value).value.l == l
  }

  // ---- Fixed images ----

  /** No write inside the first `size` bytes reaches the trailing footer. */
  ghost predicate FooterOutOfReach(dev: seq<byte>, size: nat)
    requires |dev| >= FOOTER_SIZE
  {
    forall off: nat, data {:trigger Splice(dev, off, data)} :: off + |data| <= size && off + |data| <= |dev| ==>
      LastSector(Splice(dev, off, data)) == LastSector(dev)
  }

  /** A fixed image keeps its footer out of every write's reach if and only if the declared
      size leaves room for it, which open does not check. */
  lemma FixedFooterUntouched(dev: seq<byte>, size: nat)
    requires |dev| >= FOOTER_SIZE
    ensures FooterOutOfReach(dev, size) <==> size + FOOTER_SIZE <= |dev|
  {
    var at := |dev| - FOOTER_SIZE;
    if size > at {
      var other: byte := if dev[at] == 0 then 1 else 0;
      var written := Splice(dev, at, [other]);
      assert At(written, at) == other && LastSector(written)[0] == written[at] && LastSector(dev)[0] == dev[at];
    } else {
      forall off: nat, data | off + |data| <= size && off + |data| <= |dev|
        ensures LastSector(Splice(dev, off, data)) == LastSector(dev)
      {
        SameLastSector(Splice(dev, off, data), dev);
      }
    }
  }

  // ---- What acceptance establishes ----

  lemma CoveredByBlocks(size: nat, blockSize: nat, entries: nat)
    requires blockSize > 0
    ensures DivCeil(size, blockSize) <= entries <==> size <= entries * blockSize
  {
    var q := DivCeil(size, blockSize);
    var r := (size + blockSize - 1) % blockSize;
    assert size + blockSize - 1 == q * blockSize + r;
    if q <= entries {
      MulMonotone(q, entries, blockSize);
    } else {
      MulMonotone(entries + 1, q, blockSize);
    }
  }

  lemma HeaderParseFacts(b: seq<byte>)
    requires Headers.Parse(b).Ok?
    ensures var h := Headers.Parse(b).value;
            Headers.ValidBlockSize(h.blockSize) && h.blockSize % SECTOR == 0 && h.maxTableEntries < U32_LIMIT
  {
    Headers.SectorDividesPowerOfTwo(ReadU32(b, Headers.AT_BLOCK_SIZE));
  }

  /** A layout that open accepts is one the read and write paths can rely on. */
  lemma AcceptedLayoutIsValid(dev: seq<byte>, f: Footers.Footer)
    requires SparseHeader(dev, f).Ok?
    ensures LayoutOf(f, SparseHeader(dev, f).value).Valid()
    ensures Headers.IsPowerOfTwo(SparseHeader(dev, f).value.blockSize)
  {
    var at := f.dataOffset;
    var h := SparseHeader(dev, f).value;
    HeaderParseFacts(dev[at..at + HEADER_SIZE]);
    CoveredByBlocks(f.currentSize, h.blockSize, h.maxTableEntries);
    CapacityIsProduct(LayoutOf(f, h), h.maxTableEntries);
  }

  ghost predicate NamesBlock(t: seq<nat>) {
    exists i :: 0 <= i < |t| && t[i] != UNALLOCATED
  }

  /** The tail is past every block, on a sector, at most a footer from the device's end. */
  ghost predicate GoodTail(s: Sparse, length: nat, fromMirror: bool) {
    && s.tail % SECTOR == 0
    && (length == s.tail || length == s.tail + FOOTER_SIZE)
    && TableFits(s.l, s.bat, s.l.dataStart, s.tail)
    && (!fromMirror ==> length == s.tail + FOOTER_SIZE)
  }

  lemma AcceptedTail(dev: seq<byte>, c: Choice)
    requires |dev| >= FOOTER_SIZE && OpenSparse(dev, c).Ok?
    ensures GoodTail(OpenSparse(dev, c).value, |dev|, c.fromMirror)
  {
    AcceptedLayoutIsValid(dev, c.footer);
    var s := OpenSparse(dev, c).value;
    TailIsGood(s, dev, c.fromMirror);
  }

  lemma TailIsGood(s: Sparse, dev: seq<byte>, fromMirror: bool)
    requires s.l.Valid() && |dev| % SECTOR == 0 && |dev| >= FOOTER_SIZE
    requires s.dataEnd == DataEnd(dev, fromMirror) && s.tail == TailOf(dev, s.l, s.bat, fromMirror)
    requires TableFits(s.l, s.bat, s.l.dataStart, s.dataEnd)
    ensures GoodTail(s, |dev|, fromMirror)
  {
    hide TableFits, MaxEnd;
    if fromMirror {
      MaxEndAligned(s.l, s.bat, s.l.dataStart, s.dataEnd);
      OneSectorRoom(|dev|, MaxEnd(s.l, s.bat));
      MaxEndBounds(s.l, s.bat, s.l.dataStart, s.dataEnd, s.tail);
    } else {
      OneSectorRoom(|dev|, 0);
      assert s.tail == s.dataEnd;
    }
  }

  lemma OneSectorRoom(length: nat, end: nat)
    requires length % SECTOR == 0 && end % SECTOR == 0 && end <= length && length >= SECTOR
    ensures Max(length - SECTOR, end) == length - SECTOR || Max(length - SECTOR, end) == length
    ensures (length - SECTOR) % SECTOR == 0
  {
  }

  lemma MaxEndAligned(l: Layout, t: seq<nat>, lo: nat, hi: nat)
    requires l.Valid() && TableFits(l, t, lo, hi)
    ensures MaxEnd(l, t) <= hi && MaxEnd(l, t) % SECTOR == 0
  {
    if MaxEnd(l, t) != 0 {
      var i :| 0 <= i < |t| && t[i] != UNALLOCATED && MaxEnd(l, t) == Home(t[i]) + l.Total();
      WholeSectors(t[i], l.bitmapSize, l.blockSize);
    }
  }

  lemma MaxEndBounds(l: Layout, t: seq<nat>, lo: nat, hi: nat, tail: nat)
    requires TableFits(l, t, lo, hi) && MaxEnd(l, t) <= tail
    ensures TableFits(l, t, lo, tail)
  {
  }

  /** The condition under which the tail that open computes lies above the metadata: some
      block is allocated, or the device leaves room for its footer past the metadata. */
  lemma TailAboveMetadata(dev: seq<byte>, c: Choice)
    requires |dev| >= FOOTER_SIZE && OpenSparse(dev, c).Ok?
    ensures var s := OpenSparse(dev, c).value;
            s.tail >= s.l.dataStart <==> NamesBlock(s.bat) || |dev| - FOOTER_SIZE >= s.l.dataStart
  {
    AcceptedTail(dev, c);
    var s := OpenSparse(dev, c).value;
    if NamesBlock(s.bat) {
      var i :| 0 <= i < |s.bat| && s.bat[i] != UNALLOCATED;
    } else {
      assert MaxEnd(s.l, s.bat) == 0;
    }
  }

  /** Past the last byte of the mirror, the header and the table. */
  function MetadataEnd(f: Footers.Footer, l: Layout): nat {
    Max(Max(FOOTER_SIZE, f.dataOffset + HEADER_SIZE), l.TableEnd())
  }

  /** An accepted tail below the metadata's end is exactly one sector below it, and so the
      first block placed there would cover the last byte of the metadata. */
  lemma TailInsideMetadata(dev: seq<byte>, c: Choice)
    requires |dev| >= FOOTER_SIZE && OpenSparse(dev, c).Ok?
    ensures var s := OpenSparse(dev, c).value;
            s.tail < s.l.dataStart ==>
              && s.tail == s.l.dataStart - FOOTER_SIZE
              && Within(MetadataEnd(c.footer, s.l) - 1, s.tail, s.tail + s.l.Total())
  {
    hide SparseHeader, LayoutOf, MetadataEnd, TableFits, LocatorsClear, MaxEnd, Table;
    AcceptedLayoutIsValid(dev, c.footer);
    AcceptedTail(dev, c);
    MetadataFits(dev, c.footer);
    var s := OpenSparse(dev, c).value;
    if s.tail < s.l.dataStart {
      MultiplesApart(s.tail, s.l.dataStart);
    }
  }

  /** The metadata of an accepted header lies on the device, rounded up to a sector or not. */
  lemma MetadataFits(dev: seq<byte>, f: Footers.Footer)
    requires |dev| >= FOOTER_SIZE && SparseHeader(dev, f).Ok?
    ensures var l := LayoutOf(f, SparseHeader(dev, f).value);
            l.dataStart <= |dev| && l.dataStart < MetadataEnd(f, l) + SECTOR && MetadataEnd(f, l) <= l.dataStart
  {
    hide Headers.Parse, RoundToSector;
    var l := LayoutOf(f, SparseHeader(dev, f).value);
    assert l.dataStart == RoundToSector(MetadataEnd(f, l));
    if l.dataStart > |dev| {
      MultiplesApart(|dev|, l.dataStart);
    }
  }

  lemma MultiplesApart(a: nat, b: nat)
    requires a % SECTOR == 0 && b % SECTOR == 0 && a < b
    ensures a + SECTOR <= b
  {
  }

  ghost function DiskOf(dev: seq<byte>, s: Sparse): Disk {
    Disk(s.l, dev, s.bat, s.tail)
  }

  /** Acceptance with the tail above the metadata is exactly what the write path relies on. */
  lemma AcceptanceEstablishesInv(dev: seq<byte>, c: Choice)
    requires |dev| >= FOOTER_SIZE && OpenSparse(dev, c).Ok?
    ensures var s := OpenSparse(dev, c).value; Inv(DiskOf(dev, s)) <==> s.tail >= s.l.dataStart
  {
    AcceptedLayoutIsValid(dev, c.footer);
    AcceptedTail(dev, c);
  }

  // ---- Recovery ----

  /** The last sector is the footer or is refused as one; where an allocation has grown the
      device and not yet committed, it is a torn copy over the zeros of the growth. */
  ghost predicate LastSectorSafe(d: Disk, footer: seq<byte>) {
    && |d.dev| >= d.tail + FOOTER_SIZE
    && (LastSector(d.dev) == footer || Footers.Parse(LastSector(d.dev)).Err?)
    && (|d.dev| == d.tail + d.l.Total() + FOOTER_SIZE ==>
          exists k {:trigger Footers.Torn(footer, k)} ::
            0 <= k <= |footer| && LastSector(d.dev) == Footers.Torn(footer, k))
  }

  /** The mirror and the header are intact and the table overwrites neither: the image
      reopens as what it was, from the tail or from the mirror. */
  ghost predicate Anchored(l: Layout, dev: seq<byte>, footer: seq<byte>) {
    && |footer| == FOOTER_SIZE && |dev| >= l.dataStart
    && SameOn(dev, footer, 0, FOOTER_SIZE)
    && Footers.Parse(footer).Ok?
    && var f := Footers.Parse(footer).value;
       && f.diskType.Dynamic? && f.dataOffset != U64_MAX
       && f.dataOffset + HEADER_SIZE <= l.dataStart
       && Headers.Parse(dev[f.dataOffset..f.dataOffset + HEADER_SIZE]).Ok?
       && LayoutOf(f, Headers.Parse(dev[f.dataOffset..f.dataOffset + HEADER_SIZE]).value) == l
       && !Meets(0, FOOTER_SIZE, l.tableOffset, l.TableEnd())
       && !Meets(f.dataOffset, f.dataOffset + HEADER_SIZE, l.tableOffset, l.TableEnd())
  }

  ghost predicate Recoverable(d: Disk, footer: seq<byte>) {
    Anchored(d.l, d.dev, footer) && LastSectorSafe(d, footer)
  }

  /** Only the table and what lies above the metadata may change. */
  ghost predicate MetadataKept(l: Layout, dev: seq<byte>, dev': seq<byte>) {
    forall i {:trigger At(dev, i)} {:trigger At(dev', i)} ::
      0 <= i < l.dataStart && !(l.tableOffset <= i < l.TableEnd()) ==> At(dev, i) == At(dev', i)
  }

  lemma AnchoredFrame(l: Layout, dev: seq<byte>, dev': seq<byte>, footer: seq<byte>)
    requires l.Valid() && Anchored(l, dev, footer) && MetadataKept(l, dev, dev') && |dev'| >= l.dataStart
    ensures Anchored(l, dev', footer)
  {
    var at := Footers.Parse(footer).value.dataOffset;
    hide Footers.Parse, Headers.Parse, LayoutOf;
    forall i | 0 <= i < FOOTER_SIZE ensures At(dev', i) == At(footer, i) {
      assert At(dev, i) == At(footer, i);
    }
    forall i | at <= i < at + HEADER_SIZE ensures At(dev, i) == At(dev', i) {
    }
    SameSlice(dev, dev', at, HEADER_SIZE);
  }

  lemma SameLastSector(a: seq<byte>, b: seq<byte>)
    requires |a| == |b| >= FOOTER_SIZE && SameOn(a, b, |a| - FOOTER_SIZE, |a|)
    ensures LastSector(a) == LastSector(b)
  {
    var n := |a| - FOOTER_SIZE;
    SameSlice(a, b, n, FOOTER_SIZE);
    assert n + FOOTER_SIZE == |a|;
    assert LastSector(a) == a[n..n + FOOTER_SIZE] && LastSector(b) == b[n..n + FOOTER_SIZE];
  }

  lemma SameSlice(a: seq<byte>, b: seq<byte>, at: nat, n: nat)
    requires at + n <= |a| && at + n <= |b| && SameOn(a, b, at, at + n)
    ensures a[at..at + n] == b[at..at + n]
  {
    forall i | at <= i < at + n ensures a[i] == b[i] {
      assert At(a, i) == At(b, i);
    }
  }

  /** A recoverable image reopens, from its trailing footer or from the mirror, as the same
      layout, the device's table, and a tail that is again past every block. */
  lemma RecoverableReopens(d: Disk, footer: seq<byte>) returns (c: Choice, s: Sparse)
    requires Inv(d) && Recoverable(d, footer)
    ensures ChooseFooter(d.dev) == Ok(c) && c.bytes == footer && c.footer == Footers.Parse(footer).value
    ensures OpenSparse(d.dev, c) == Ok(s)
    ensures s.l == d.l && s.bat == Table(d.l, d.dev) && s.tail == |d.dev| - FOOTER_SIZE >= d.tail
    ensures Inv(DiskOf(d.dev, s)) && Recoverable(DiskOf(d.dev, s), footer)
    ensures Contents(DiskOf(d.dev, s)) == Contents(d)
  {
    c := ChoosesAnchor(d, footer);
    s := ReopenedSparse(d, c);
    ReopenedInOrder(d, s, footer);
  }

  lemma ChoosesAnchor(d: Disk, footer: seq<byte>) returns (c: Choice)
    requires Inv(d) && Recoverable(d, footer)
    ensures ChooseFooter(d.dev) == Ok(c) && c.bytes == footer && c.footer == Footers.Parse(footer).value
  {
    c := Choice(Footers.Parse(footer).value, footer, LastSector(d.dev) != footer);
    assert d.dev[..FOOTER_SIZE] == footer by {
      forall i | 0 <= i < FOOTER_SIZE ensures d.dev[..FOOTER_SIZE][i] == footer[i] {
        assert At(d.dev, i) == At(footer, i);
      }
    }
  }

  lemma ReopenedSparse(d: Disk, c: Choice) returns (s: Sparse)
    requires Inv(d) && Recoverable(d, c.bytes) && c.footer == Footers.Parse(c.bytes).value
    ensures OpenSparse(d.dev, c) == Ok(s)
    ensures s.l == d.l && s.bat == Table(d.l, d.dev) && s.tail == |d.dev| - FOOTER_SIZE >= d.tail
  {
    var h := AnchoredHeader(d, c.bytes);
    var t := Table(d.l, d.dev);
    var length := |d.dev| - FOOTER_SIZE;
    s := Sparse(h, d.l, t, DataEnd(d.dev, c.fromMirror), length);
    WholeLength(d);
    MaxEndAligned(d.l, t, d.l.dataStart, d.tail);
    FitsHigher(d.l, t, d.l.dataStart, d.tail, s.dataEnd);
    ReopenAccepts(d.dev, c, h, s);
  }

  lemma ReopenedInOrder(d: Disk, s: Sparse, footer: seq<byte>)
    requires Inv(d) && Recoverable(d, footer)
    requires s.l == d.l && s.bat == Table(d.l, d.dev) && s.tail == |d.dev| - FOOTER_SIZE
    ensures Inv(DiskOf(d.dev, s)) && Recoverable(DiskOf(d.dev, s), footer)
    ensures d.l.blockSize > 0 && Contents(DiskOf(d.dev, s)) == Contents(d)
  {
    hide Blank, ViewByte, Flat, Anchored;
    LiveAgreesWithDevice(d);
    var length := |d.dev| - FOOTER_SIZE;
    WholeLength(d);
    FitsHigher(d.l, Table(d.l, d.dev), d.l.dataStart, d.tail, length);
    TailMovesUp(d, length);
    StaysRecoverable(d, footer, length);
  }

  lemma ReopenAccepts(dev: seq<byte>, c: Choice, h: Headers.DynamicHeader, s: Sparse)
    requires |dev| >= FOOTER_SIZE && c.footer.diskType.Dynamic? && SparseHeader(dev, c.footer) == Ok(h)
    requires s.header == h && s.l == LayoutOf(c.footer, h) && s.bat == Table(s.l, dev)
    requires s.dataEnd == DataEnd(dev, c.fromMirror) && s.tail == |dev| - FOOTER_SIZE
    requires TableFits(s.l, s.bat, s.l.dataStart, s.dataEnd) && MaxEnd(s.l, s.bat) <= s.tail
    ensures OpenSparse(dev, c) == Ok(s)
  {
    hide SparseHeader, LayoutOf, TableFits, DataEnd, MaxEnd, Table;
  }

  lemma StaysRecoverable(d: Disk, footer: seq<byte>, length: nat)
    requires d.l.Valid() && Recoverable(d, footer) && |d.dev| == length + FOOTER_SIZE
    ensures Recoverable(Disk(d.l, d.dev, Table(d.l, d.dev), length), footer)
  {
  }

  /** A handle on the same device whose tail is at its end is again in order. */
  lemma TailMovesUp(d: Disk, length: nat)
    requires Inv(d) && length % SECTOR == 0 && length >= d.tail && |d.dev| == length + FOOTER_SIZE
    requires TableFits(d.l, Table(d.l, d.dev), d.l.dataStart, length)
    ensures Inv(Disk(d.l, d.dev, Table(d.l, d.dev), length))
  {
  }

  /** The intact header passes the checks that come before the table. */
  lemma AnchoredHeader(d: Disk, footer: seq<byte>) returns (h: Headers.DynamicHeader)
    requires d.l.Valid() && Anchored(d.l, d.dev, footer) && d.tail >= d.l.dataStart
    requires d.tail % SECTOR == 0 && LengthFits(d.l, d.tail, |d.dev|)
    ensures SparseHeader(d.dev, Footers.Parse(footer).value) == Ok(h)
    ensures LayoutOf(Footers.Parse(footer).value, h) == d.l
  {
    WholeLength(d);
    var f := Footers.Parse(footer).value;
    h := Headers.Parse(d.dev[f.dataOffset..f.dataOffset + HEADER_SIZE]).value;
    CoveredByBlocks(f.currentSize, h.blockSize, h.maxTableEntries);
    CapacityIsProduct(LayoutOf(f, h), h.maxTableEntries);
  }

  lemma WholeLength(d: Disk)
    requires d.l.Valid() && d.tail % SECTOR == 0 && LengthFits(d.l, d.tail, |d.dev|)
    ensures |d.dev| % SECTOR == 0
    ensures |d.dev| >= FOOTER_SIZE ==> (|d.dev| - FOOTER_SIZE) % SECTOR == 0
  {
    WholeSectors(0, d.l.bitmapSize, d.l.blockSize);
  }

}
