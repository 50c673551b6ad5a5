/** The reader: an opened image over a device, with its cached BAT and allocation tail. */
module Readers {
  import opened Bytes
  import opened Results
  import opened Format
  import opened Blocks
  import opened Disks
  import opened Images
  import opened Steps
  import opened Publishing
  import opened Landing
  import opened Devices
  import opened Chains
  import Footers
  import Headers = DynamicHeaders

  /** The BAT entry that names the block at `hostOff`. */
  function BatEntryFor(hostOff: nat): (r: Result<nat>)
    ensures r.Ok? <==> hostOff % SECTOR == 0 && hostOff / SECTOR < UNALLOCATED
    ensures r.Ok? ==> Home(r.value) == hostOff
  {
    if hostOff % SECTOR != 0 then Err(Corrupt)
    else if hostOff / SECTOR >= U32_LIMIT then Err(Corrupt)
    else if hostOff / SECTOR == UNALLOCATED then Err(Corrupt)
    else Ok(hostOff / SECTOR)
  }

  lemma SectorMask(a: nat)
    ensures Headers.And(a, SECTOR - 1) == a % SECTOR
  {
    assert Headers.IsPowerOfTwo(8);
    assert Headers.IsPowerOfTwo(64);
    Headers.MaskIsModulo(a, SECTOR);
  }

  /** Byte `r` of a block as a bitmap gives it, over what lies under the image. */
  ghost function RunByte(l: Layout, bytes: seq<byte>, home: nat, bitmap: seq<byte>, r: nat, under: byte): byte
    requires r / SECTOR / 8 < |bitmap|
  {
    if BitmapGet(bitmap, r / SECTOR) then Datum(l, bytes, home, r) else under
  }

  lemma RunByteInRun(l: Layout, bytes: seq<byte>, home: nat, bitmap: seq<byte>, first: nat, end: nat, r: nat,
    under: byte)
    requires first <= r / SECTOR < end && (end - 1) / 8 < |bitmap|
    requires forall s :: first <= s < end ==> BitmapGet(bitmap, s) == BitmapGet(bitmap, first)
    ensures r / SECTOR / 8 < |bitmap|
    ensures RunByte(l, bytes, home, bitmap, r, under) == if BitmapGet(bitmap, first) then Datum(l, bytes, home, r)
            else under
  {
  }

  /** Reading through the bitmap that stands before the data is reading the view. */
  lemma RunByteIsView(l: Layout, bytes: seq<byte>, home: nat, r: nat, under: byte)
    requires l.Valid() && r < l.blockSize && home + l.bitmapSize <= |bytes|
    ensures r / SECTOR / 8 < l.bitmapSize
    ensures RunByte(l, bytes, home, bytes[home..home + l.bitmapSize], r, under) == ViewByte(l, bytes, home, r, under)
  {
    var s := r / SECTOR;
    assert s / 8 < l.bitmapSize;
    assert bytes[home..home + l.bitmapSize][s / 8] == At(bytes, home + s / 8);
  }

  function Monus(a: nat, b: nat): nat { if a < b then 0 else a - b }

  function Least(a: nat, b: nat): nat { if a < b then a else b }

  /** A bitmap read from the device shows what is present. */
  lemma BitmapIsPresent(l: Layout, bytes: seq<byte>, home: nat, bitmap: seq<byte>)
    requires home + l.bitmapSize <= |bytes| && bitmap == bytes[home..home + l.bitmapSize]
    ensures forall s: nat {:trigger BitmapGet(bitmap, s)} :: s / 8 < l.bitmapSize ==>
              BitmapGet(bitmap, s) == Present(bytes, home, s)
  {
    forall s: nat {:trigger BitmapGet(bitmap, s)} | s / 8 < l.bitmapSize
      ensures BitmapGet(bitmap, s) == Present(bytes, home, s)
    {
      assert bitmap[s / 8] == At(bytes, home + s / 8);
    }
  }

  /** A copy of a bitmap with the bits of sectors `first` to `last` set. */
  method SetBits(read: seq<byte>, first: nat, last: nat) returns (r: seq<byte>)
    requires first <= last && last / 8 < |read|
    ensures |r| == |read|
    ensures forall s: nat {:trigger BitmapGet(r, s)} :: s / 8 < |read| ==>
              (BitmapGet(r, s) <==> first <= s <= last || BitmapGet(read, s))
  {
    var bitmap := new byte[|read|](i requires 0 <= i < |read| => read[i]);
    assert bitmap[..] == read;
    for sector := first to last + 1
      invariant forall s: nat {:trigger BitmapGet(bitmap[..], s)} :: s / 8 < |read| ==>
                  (BitmapGet(bitmap[..], s) <==> first <= s < sector || BitmapGet(read, s))
    {
      BitmapSet(bitmap, sector);
    }
    r := bitmap[..];
  }

  /** Zeros on both sides of the payload's part define the sector. */
  lemma UncoveredFilled(l: Layout, dev: seq<byte>, home: nat, inBlock: nat, n: nat, sector: nat, head: nat,
    coveredEnd: nat)
    requires head == Least(Monus(inBlock, sector * SECTOR), SECTOR)
    requires coveredEnd == Least(Monus(inBlock + n, sector * SECTOR), SECTOR)
    requires var at := home + l.bitmapSize + sector * SECTOR;
             forall i {:trigger At(dev, i)} ::
               at <= i < at + head || at + coveredEnd <= i < at + SECTOR ==> At(dev, i) == 0
    ensures SectorDefined(l, dev, home, inBlock, n, sector)
  {
    forall r | sector * SECTOR <= r < sector * SECTOR + SECTOR && !(inBlock <= r < inBlock + n)
      ensures Datum(l, dev, home, r) == 0
    {
    }
  }

  /** The two parts written are outside the payload's range. */
  lemma FilledAreUncovered(l: Layout, dev: seq<byte>, dev': seq<byte>, home: nat, inBlock: nat, n: nat, sector: nat,
    head: nat, coveredEnd: nat)
    requires n > 0 && Touched(inBlock, n, sector) && !Present(dev, home, sector)
    requires head == Least(Monus(inBlock, sector * SECTOR), SECTOR)
    requires coveredEnd == Least(Monus(inBlock + n, sector * SECTOR), SECTOR)
    requires var at := home + l.bitmapSize + sector * SECTOR;
             forall i {:trigger At(dev', i)} ::
               || At(dev', i) == At(dev, i)
               || ((at <= i < at + head || at + coveredEnd <= i < at + SECTOR) && At(dev', i) == 0)
    ensures UncoveredMixed(l, dev, dev', home, inBlock, n)
  {
    SectorWriteUncovered(l, dev, dev', home, inBlock, n, sector);
  }

  lemma NothingSpliced(b: seq<byte>, off: nat, data: seq<byte>)
    requires off <= |b|
    ensures Splice(b, off, data[..0]) == b
  {
  }

  lemma NothingMixed(c: seq<byte>, off: nat, data: seq<byte>)
    requires off + |data| <= |c|
    ensures Mixed(c, c, off, data)
  {
  }

  const ZERO_CHUNK: nat := 1024 * 1024

  class VhdReader {
    const dev: Device
    const writable: bool
    const footer: Footers.Footer
    const header: Option<Headers.DynamicHeader>
    var bat: seq<nat>
    const bitmapSize: nat
    const virtualSize: nat
    var nextAlloc: nat
    const footerBytes: seq<byte>
    const footerFromMirror: bool
    const parent: VhdReader?
    /** The handles and devices of the chain from here down, and its length. */
    ghost const readers: set<VhdReader>
    ghost const devices: set<Device>
    ghost const depth: nat

    constructor (dev: Device, writable: bool, footer: Footers.Footer, header: Option<Headers.DynamicHeader>,
                 bat: seq<nat>, bitmapSize: nat, parent: VhdReader?, nextAlloc: nat, footerBytes: seq<byte>,
                   fromMirror: bool)
      ensures this.dev == dev && this.writable == writable && this.footer == footer && this.header == header
      ensures this.bat == bat && this.bitmapSize == bitmapSize && this.virtualSize == footer.currentSize
      ensures this.nextAlloc == nextAlloc && this.footerBytes == footerBytes && this.footerFromMirror == fromMirror
      ensures this.parent == parent
      ensures readers == {this} + (if parent == null then {} else parent.readers)
      ensures devices == {dev} + (if parent == null then {} else parent.devices)
      ensures depth == if parent == null then 0 else parent.depth + 1
    {
      this.dev := dev;
      this.writable := writable;
      this.footer := footer;
      this.header := header;
      this.bat := bat;
      this.bitmapSize := bitmapSize;
      this.virtualSize := footer.currentSize;
      this.nextAlloc := nextAlloc;
      this.footerBytes := footerBytes;
      this.footerFromMirror := fromMirror;
      this.parent := parent;
      this.readers := {this} + (if parent == null then {} else parent.readers);
      this.devices := {dev} + (if parent == null then {} else parent.devices);
      this.depth := if parent == null then 0 else parent.depth + 1;
    }

    /** The layout of a sparse image, from the footer and the header the handle holds. */
    function L(): Layout
      requires header.Some?
    {
      LayoutOf(footer, header.value)
    }

    /** What never changes about a handle on a sparse image. */
    ghost predicate Sparse() {
      && header.Some? && footer.diskType.Sparse()
      && L().Valid() && Headers.IsPowerOfTwo(L().blockSize)
      && bitmapSize == L().bitmapSize && virtualSize == L().virtualSize
      && |footerBytes| == FOOTER_SIZE
    }

    /** An opened handle: only a differencing image has a parent, on the same machine. */
    ghost predicate Valid()
      reads this, readers, devices
      decreases depth
    {
      && this in readers && dev in devices
      && virtualSize == footer.currentSize < U64_LIMIT
      && (header.Some? <==> footer.diskType.Sparse())
      && (header.Some? ==> Sparse() && |bat| == L().entries)
      && (parent != null ==>
            && footer.diskType.Differencing?
            && parent in readers && parent.readers <= readers && parent.devices <= devices
            && parent.depth < depth && parent.dev.env == dev.env
            && parent.Valid())
    }

    /** The chain as a value, this image first. */
    ghost function Layers(): (r: seq<Layer>)
      requires Valid()
      reads this, readers, devices
      ensures ValidChain(r) && |r| >= 1 && r[0].size == virtualSize
      decreases depth, 1
    {
      [if header.Some? then SparseLayer(virtualSize, L(), dev.bytes, bat) else FixedLayer(virtualSize,
        dev.bytes)] + Below()
    }

    /** The chain under this image. */
    ghost function Below(): (r: seq<Layer>)
      requires Valid()
      reads this, readers, devices
      ensures ValidChain(r)
      decreases depth, 0
    {
      if parent == null then [] else parent.Layers()
    }

    /** Every device of the chain holds what its image names: a fixed image's whole disk,
        a sparse one's allocated blocks. */
    ghost predicate Complete()
      requires Valid()
      reads this, readers, devices
      decreases depth
    {
      && (header.None? ==> virtualSize <= |dev.bytes|)
      && (header.Some? ==>
            forall i {:trigger bat[i]} :: 0 <= i < |bat| && bat[i] != UNALLOCATED ==>
              Home(bat[i]) + L().Total() <= |dev.bytes|)
      && (parent != null ==> parent.Complete())
    }

    ghost function State(): Disk
      requires header.Some?
      reads this, dev
    {
      Disk(L(), dev.bytes, bat, nextAlloc)
    }

    /** A handle that may write: a dynamic image in order. */
    ghost predicate Ready()
      reads this, dev, readers, devices
    {
      Valid() && footer.diskType.Dynamic? && Inv(State())
    }

    /** A handle on a dynamic image as open returns it, in order or not. */
    ghost predicate InBounds()
      reads this, dev, readers, devices
    {
      Valid() && footer.diskType.Dynamic? && Bounded(State())
    }

    /** What `ReadAt` returns from a dynamic image is the flat disk that `WriteAt` changes,
        and a read of it lacks nothing on the device. */
    lemma ReadsContents(v: nat)
      requires Ready() && v < virtualSize
      ensures ChainByte(Layers(), v) == Contents(State())[v]
      ensures Complete()
    {
      hide LayoutOf, ChainByte, Flat;
      forall i | 0 <= i < |bat| && bat[i] != UNALLOCATED ensures Home(bat[i]) + L().Total() <= |dev.bytes| {
        assert bat[i] == Table(L(), dev.bytes)[i];
      }
      SingleLayerIsFlat(L(), dev.bytes, bat, v);
      assert Layers() == [SparseLayer(virtualSize, L(), dev.bytes, bat)];
    }

    // ---- Reading ----

    /** Read `hi - lo` bytes at `offset` into `buf[lo..hi]`. */
    method ReadAt(offset: nat, buf: array<byte>, lo: nat, hi: nat) returns (r: Outcome)
      requires Valid() && lo <= hi <= buf.Length
      modifies dev.env, buf
      ensures forall i :: 0 <= i < buf.Length && !(lo <= i < hi) ==> buf[i] == old(buf[i])
      ensures r.Pass? ==> lo == hi || offset + (hi - lo) <= virtualSize
      ensures lo < hi && offset + (hi - lo) > virtualSize ==>
                r == Fail(if offset + (hi - lo) >= U64_LIMIT then Corrupt else OutOfBounds)
      ensures r.Pass? ==> forall i :: lo <= i < hi ==> buf[i] == ChainByte(Layers(), offset + (i - lo))
      ensures dev.env.Since(old(dev.env.faults), old(dev.env.Calm()))
      ensures dev.env.faults == old(dev.env.faults) ==> (Complete() && offset + (hi - lo) <= virtualSize ==> r.Pass?)
      ensures dev.env.faults == old(dev.env.faults) && footer.diskType.Fixed? ==>
                (r.Pass? <==> lo == hi || (offset + (hi - lo) <= virtualSize && offset + (hi - lo) <= |dev.bytes|))
      decreases depth, 3
    {
      var len := hi - lo;
      if len == 0 {
        return Pass;
      }
      var end := offset + len;
      if end >= U64_LIMIT {
        return Fail(Corrupt);
      }
      if end > virtualSize {
        return Fail(OutOfBounds);
      }
      if footer.diskType.Fixed? {
        var ok := dev.ReadInto(offset, buf, lo, hi);
        return if ok then Pass else Fail(Io);
      }
      r := ReadSparse(offset, buf, lo, hi);
    }

    /** Where `cursor` falls and how much of `[cursor, end)` stays in its block.  The table
        covers the virtual size, so "block_idx past BAT" cannot happen. */
    method NextChunk(cursor: nat, end: nat) returns (inBlock: nat, blockIdx: nat, chunk: nat)
      requires Valid() && header.Some? && cursor < end <= virtualSize
      ensures IsAt(L(), cursor, blockIdx, inBlock) && blockIdx < |bat|
      ensures 0 < chunk && cursor + chunk <= end && inBlock + chunk <= L().blockSize
      ensures cursor + chunk == end || inBlock + chunk == L().blockSize
    {
      var blockSize := header.value.blockSize;
      Headers.MaskIsModulo(cursor, blockSize);
      ghost var k, q := SplitIndex(L(), cursor);
      inBlock := Headers.And(cursor, blockSize - 1);
      blockIdx := cursor / blockSize;
      var left := blockSize - inBlock;
      chunk := if left < end - cursor then left else end - cursor;
    }

    /** Walk the range block by block: an unallocated entry defers, an allocated one is
        read through its bitmap. */
    method ReadSparse(offset: nat, buf: array<byte>, lo: nat, hi: nat) returns (r: Outcome)
      requires Valid() && header.Some? && lo <= hi <= buf.Length && offset + (hi - lo) <= virtualSize
      modifies dev.env, buf
      ensures forall i :: 0 <= i < buf.Length && !(lo <= i < hi) ==> buf[i] == old(buf[i])
      ensures r.Pass? ==> forall i :: lo <= i < hi ==> buf[i] == ChainByte(Layers(), offset + (i - lo))
      ensures dev.env.Since(old(dev.env.faults), old(dev.env.Calm()))
      ensures dev.env.faults == old(dev.env.faults) ==> (Complete() ==> r.Pass?)
      decreases depth, 2
    {
      var cursor, end := offset, offset + (hi - lo);
      var at := lo;
      while cursor < end
        invariant offset <= cursor <= end && at == lo + (cursor - offset)
        invariant forall i :: 0 <= i < buf.Length && !(lo <= i < hi) ==> buf[i] == old(buf[i])
        invariant forall i :: lo <= i < at ==> buf[i] == ChainByte(Layers(), offset + (i - lo))
        invariant dev.env.Since(old(dev.env.faults), old(dev.env.Calm()))
      {
        var inBlock, blockIdx, chunk := NextChunk(cursor, end);
        r := ReadChunk(cursor, blockIdx, inBlock, chunk, buf, at);
        if r.Fail? {
          return;
        }
        cursor := cursor + chunk;
        at := at + chunk;
      }
      return Pass;
    }

    /** The part of a read that lies in one block. */
    method ReadChunk(cursor: nat, blockIdx: nat, inBlock: nat, n: nat, buf: array<byte>, at: nat) returns (r: Outcome)
      requires Valid() && header.Some? && 0 < n && cursor + n <= virtualSize && at + n <= buf.Length
      requires IsAt(L(), cursor, blockIdx, inBlock) && inBlock + n <= L().blockSize && blockIdx < |bat|
      modifies dev.env, buf
      ensures forall i :: 0 <= i < buf.Length && !(at <= i < at + n) ==> buf[i] == old(buf[i])
      ensures r.Pass? ==> forall i :: at <= i < at + n ==> buf[i] == ChainByte(Layers(), cursor + (i - at))
      ensures dev.env.Since(old(dev.env.faults), old(dev.env.Calm()))
      ensures dev.env.faults == old(dev.env.faults) ==> (Complete() ==> r.Pass?)
      decreases depth, 1, 2
    {
      hide LayoutOf, RunByte, ChainByte, ViewByte, Complete;
      ghost var l, bytes, chain, below := L(), dev.bytes, Layers(), Below();
      var entry := bat[blockIdx];
      if entry == UNALLOCATED {
        r := ReadBlockUnallocated(cursor, buf, at, at + n);
        if r.Pass? {
          forall i | at <= i < at + n ensures buf[i] == ChainByte(chain, cursor + (i - at)) {
            ChunkByte(cursor, blockIdx, inBlock, n, cursor + (i - at));
          }
        }
      } else {
        r := ReadAllocated(cursor, blockIdx, inBlock, n, buf, at);
      }
    }

    method ReadAllocated(cursor: nat, blockIdx: nat, inBlock: nat, n: nat, buf: array<byte>, at: nat)
      returns (r: Outcome)
      requires Valid() && header.Some? && 0 < n && cursor + n <= virtualSize && at + n <= buf.Length
      requires IsAt(L(), cursor, blockIdx, inBlock) && inBlock + n <= L().blockSize && blockIdx < |bat|
      requires bat[blockIdx] != UNALLOCATED
      modifies dev.env, buf
      ensures forall i :: 0 <= i < buf.Length && !(at <= i < at + n) ==> buf[i] == old(buf[i])
      ensures r.Pass? ==> forall i :: at <= i < at + n ==> buf[i] == ChainByte(Layers(), cursor + (i - at))
      ensures dev.env.Since(old(dev.env.faults), old(dev.env.Calm()))
      ensures dev.env.faults == old(dev.env.faults) ==> (Complete() ==> r.Pass?)
      decreases depth, 1, 1
    {
      hide LayoutOf, RunByte, ChainByte, ViewByte;
      ghost var l, bytes, chain, below := L(), dev.bytes, Layers(), Below();
      var home := Home(bat[blockIdx]);
      var ok, bitmap := dev.ReadAt(home, bitmapSize);
      if !ok {
        return Fail(Io);
      }
      ProductIsCursor(cursor, blockIdx, inBlock);
      r := ReadRuns(blockIdx * BlockSize(), home, bitmap, inBlock, n, buf, at);
      if r.Pass? {
        forall i | at <= i < at + n ensures buf[i] == ChainByte(chain, cursor + (i - at)) {
          var v := cursor + (i - at);
          ChunkByte(cursor, blockIdx, inBlock, n, v);
          RunByteIsView(l, bytes, home, inBlock + (i - at), ChainByte(below, v));
        }
      }
    }

    function BlockSize(): nat
      requires header.Some?
    {
      header.value.blockSize
    }

    lemma ProductIsCursor(cursor: nat, blockIdx: nat, inBlock: nat)
      requires header.Some? && L().blockSize > 0 && IsAt(L(), cursor, blockIdx, inBlock)
      ensures blockIdx * BlockSize() + inBlock == cursor
    {
      Remainder(cursor, L().blockSize);
    }

    /** What a chunk of one block must read: its data where the bit is set, what lies under
        it elsewhere. */
    lemma ChunkByte(cursor: nat, blockIdx: nat, inBlock: nat, n: nat, v: nat)
      requires Valid() && header.Some? && cursor <= v < cursor + n && cursor + n <= virtualSize
      requires IsAt(L(), cursor, blockIdx, inBlock) && inBlock + n <= L().blockSize && blockIdx < |bat|
      ensures var entry := bat[blockIdx];
              ChainByte(Layers(), v) ==
                if entry == UNALLOCATED then ChainByte(Below(), v)
                else ViewByte(L(), dev.bytes, Home(entry), inBlock + (v - cursor), ChainByte(Below(), v))
    {
      var l := L();
      var i, r := SplitIndex(l, v);
      ChunkIsInBlock(l, cursor, blockIdx, inBlock, n, v, i, r);
      assert Layers()[1..] == Below();
    }

    /** Walk runs of sectors that share a bitmap bit: one device read or one deferral each.
        `base` is the virtual offset of the block. */
    method ReadRuns(base: nat, home: nat, bitmap: seq<byte>, inBlock: nat, n: nat, buf: array<byte>, at: nat)
      returns (r: Outcome)
      requires Valid() && header.Some? && 0 < n && at + n <= buf.Length && inBlock + n <= L().blockSize
      requires |bitmap| == bitmapSize
      modifies dev.env, buf
      ensures forall i :: 0 <= i < buf.Length && !(at <= i < at + n) ==> buf[i] == old(buf[i])
      ensures r.Pass? ==> forall i :: at <= i < at + n ==>
                buf[i] == RunByte(L(), dev.bytes, home, bitmap, inBlock + (i - at),
                          ChainByte(Below(), base + inBlock + (i - at)))
      ensures dev.env.Since(old(dev.env.faults), old(dev.env.Calm()))
      ensures dev.env.faults == old(dev.env.faults) ==> (Complete() && home + L().Total() <= |dev.bytes| ==> r.Pass?)
      decreases depth, 1, 0
    {
      hide LayoutOf, RunByte, ChainByte, Complete, Bit, Layers, Below, Headers.And, Datum, BitmapGet,
        Environment.Calm;
      ghost var l, bytes, below := L(), dev.bytes, Below();
      var blockCursor, blockEnd, pos := inBlock, inBlock + n, at;
      while blockCursor < blockEnd
        invariant inBlock <= blockCursor <= blockEnd && pos == at + (blockCursor - inBlock)
        invariant forall i :: 0 <= i < buf.Length && !(at <= i < at + n) ==> buf[i] == old(buf[i])
        invariant forall i :: at <= i < pos ==>
                    buf[i] == RunByte(l, bytes, home, bitmap, inBlock + (i - at),
                              ChainByte(below, base + inBlock + (i - at)))
        invariant dev.env.Since(old(dev.env.faults), old(dev.env.Calm()))
      {
        SectorMask(blockCursor);
        var sector, inSector := blockCursor / SECTOR, Headers.And(blockCursor, SECTOR - 1);
        var bitSet := BitmapGet(bitmap, sector);
        var runEnd := RunEnd(bitmap, sector, (blockEnd - 1) / SECTOR);
        var slice := if runEnd * SECTOR - blockCursor < blockEnd - blockCursor then runEnd * SECTOR - blockCursor
          else blockEnd - blockCursor;
        r := ReadRun(home, sector, inSector, bitSet, base + blockCursor, buf, pos, pos + slice);
        if r.Fail? {
          return;
        }
        forall i | pos <= i < pos + slice
          ensures buf[i] == RunByte(l, bytes, home, bitmap, inBlock + (i - at),
                    ChainByte(below, base + inBlock + (i - at)))
        {
          RunByteInRun(l, bytes, home, bitmap, sector, runEnd, inBlock + (i - at), ChainByte(below,
            base + inBlock + (i - at)));
        }
        blockCursor := blockCursor + slice;
        pos := pos + slice;
      }
      return Pass;
    }

    /** One run: its data from the device, or whatever lies under the image. */
    method ReadRun(home: nat, sector: nat, inSector: nat, bitSet: bool, virt: nat, buf: array<byte>, lo: nat, hi: nat)
      returns (r: Outcome)
      requires Valid() && header.Some? && lo <= hi <= buf.Length
      modifies dev.env, buf
      ensures forall i :: 0 <= i < buf.Length && !(lo <= i < hi) ==> buf[i] == old(buf[i])
      ensures r.Pass? ==> forall i :: lo <= i < hi ==>
                buf[i] == if bitSet then Datum(L(), dev.bytes, home, sector * SECTOR + inSector + (i - lo))
                          else ChainByte(Below(), virt + (i - lo))
      ensures dev.env.Since(old(dev.env.faults), old(dev.env.Calm()))
      ensures dev.env.faults == old(dev.env.faults) ==>
                (Complete() && home + bitmapSize + sector * SECTOR + inSector + (hi - lo) <= |dev.bytes| ==> r.Pass?)
      decreases depth, 0, 1
    {
      if bitSet {
        var ok := dev.ReadInto(home + bitmapSize + sector * SECTOR + inSector, buf, lo, hi);
        return if ok then Pass else Fail(Io);
      }
      r := ReadBlockUnallocated(virt, buf, lo, hi);
    }

    /** End of the run of sectors that share the bit of sector `first`. */
    method RunEnd(bitmap: seq<byte>, first: nat, last: nat) returns (end: nat)
      requires first <= last && last / 8 < |bitmap|
      ensures first < end <= last + 1
      ensures forall s :: first <= s < end ==> BitmapGet(bitmap, s) == BitmapGet(bitmap, first)
    {
      end := first + 1;
      while end <= last && BitmapGet(bitmap, end) == BitmapGet(bitmap, first)
        invariant first < end <= last + 1
        invariant forall s :: first <= s < end ==> BitmapGet(bitmap, s) == BitmapGet(bitmap, first)
      {
        end := end + 1;
      }
    }

    /** Defer to the parent where it reaches, zero beyond it or without one. */
    method ReadBlockUnallocated(virt: nat, buf: array<byte>, lo: nat, hi: nat) returns (r: Outcome)
      requires Valid() && lo <= hi <= buf.Length
      modifies dev.env, buf
      ensures forall i :: 0 <= i < buf.Length && !(lo <= i < hi) ==> buf[i] == old(buf[i])
      ensures r.Pass? ==> forall i :: lo <= i < hi ==> buf[i] == ChainByte(Below(), virt + (i - lo))
      ensures dev.env.Since(old(dev.env.faults), old(dev.env.Calm()))
      ensures dev.env.faults == old(dev.env.faults) ==> (Complete() ==> r.Pass?)
      ensures parent == null ==> r.Pass?
      decreases depth, 0, 0
    {
      if parent == null {
        forall i | lo <= i < hi { buf[i] := 0; }
        return Pass;
      }
      var psize := parent.virtualSize;
      if virt >= psize {
        forall i | lo <= i < hi { buf[i] := 0; }
        r := Pass;
      } else if virt + (hi - lo) > psize {
        var n := psize - virt;
        r := parent.ReadAt(virt, buf, lo, lo + n);
        if r.Pass? {
          forall i | lo + n <= i < hi { buf[i] := 0; }
        }
      } else {
        r := parent.ReadAt(virt, buf, lo, hi);
      }
    }

    // ---- Allocation ----

    /** Make the device long enough; it only ever grows. */
    method DevGrowTo(end: nat) returns (ok: bool)
      modifies dev`bytes, dev`seen, dev.env
      ensures ok ==> dev.bytes == if |old(dev.bytes)| < end then Grow(old(dev.bytes), end) else old(dev.bytes)
      ensures !ok ==> dev.bytes == old(dev.bytes)
      ensures old(dev.seen) <= dev.seen <= old(dev.seen) + {dev.bytes}
      ensures dev.bytes != old(dev.bytes) ==> dev.bytes in dev.seen
      ensures dev.env.Since(old(dev.env.faults), old(dev.env.Calm()))
      ensures dev.env.faults == old(dev.env.faults) ==> ok
    {
      if |dev.bytes| >= end {
        return true;
      }
      ok := dev.SetLen(end);
    }

    /** No contents the device has had ends in anything but the footer. */
    ghost predicate Guarded()
      reads dev
    {
      EndsIn(dev.bytes, footerBytes) && AllEndIn(dev.seen, footerBytes)
    }

    /** Write the footer's new copy past the block, at the end of the device, and flush it. */
    method WriteFooterCopy(off: nat) returns (ok: bool)
      requires off + FOOTER_SIZE == |dev.bytes| && |footerBytes| == FOOTER_SIZE
      modifies dev, dev.env
      ensures SameOutside(old(dev.bytes), dev.bytes, off, off + FOOTER_SIZE)
      ensures old(TornSlot(dev.bytes, footerBytes)) ==> TornSlot(dev.bytes, footerBytes)
      ensures ok ==> EndsIn(dev.bytes, footerBytes) && dev.durable == dev.bytes
      ensures old(dev.seen) <= dev.seen && (old(Guarded()) ==> Guarded())
      ensures dev.env.Since(old(dev.env.faults), old(dev.env.Calm()))
      ensures dev.env.faults == old(dev.env.faults) ==> ok
    {
      hide TornSlot, AllEndIn;
      ok := PutFooterTwice(off);
      if !ok {
        return false;
      }
      ok := dev.Flush();
    }

    /** Write the footer's new copy, once more over the same range if the first write fails:
        a torn copy at the end of the device is given up on only after two faults. */
    method PutFooterTwice(off: nat) returns (ok: bool)
      requires off + FOOTER_SIZE == |dev.bytes| && |footerBytes| == FOOTER_SIZE
      modifies dev`bytes, dev`seen, dev.env
      ensures SameOutside(old(dev.bytes), dev.bytes, off, off + FOOTER_SIZE)
      ensures old(TornSlot(dev.bytes, footerBytes)) ==> TornSlot(dev.bytes, footerBytes)
      ensures ok ==> EndsIn(dev.bytes, footerBytes)
      ensures !ok ==> dev.env.faults >= old(dev.env.faults) + 2
      ensures old(dev.seen) <= dev.seen && (old(Guarded()) ==> Guarded())
      ensures dev.env.Since(old(dev.env.faults), old(dev.env.Calm()))
      ensures dev.env.faults == old(dev.env.faults) ==> ok
    {
      hide TornSlot, EndsIn, AllEndIn, Splice;
      ghost var b0, s0 := dev.bytes, dev.seen;
      ghost var j;
      ok, j := dev.WriteAt(off, footerBytes);
      FooterWriteTorn(b0, dev.bytes, footerBytes, j);
      if EndsIn(dev.bytes, footerBytes) {
        SeenMore(s0, dev.bytes, footerBytes);
      }
      if !ok {
        ghost var b1, s1 := dev.bytes, dev.seen;
        ok, j := dev.WriteAt(off, footerBytes);
        FooterWriteTorn(b1, dev.bytes, footerBytes, j);
        if EndsIn(dev.bytes, footerBytes) {
          SeenMore(s1, dev.bytes, footerBytes);
        }
      }
    }

    /** Zero the bitmap and the data area of the new block, a bounded chunk at a time. */
    method ZeroBlock(off: nat, total: nat) returns (ok: bool)
      requires off + total + FOOTER_SIZE == |dev.bytes| && EndsIn(dev.bytes, footerBytes)
      requires dev.durable == dev.bytes
      modifies dev, dev.env
      ensures SameOutside(old(dev.bytes), dev.bytes, off, off + total) && EndsIn(dev.bytes, footerBytes)
      ensures ok ==>
                && dev.durable == dev.bytes
                && forall a {:trigger At(dev.bytes, a)} :: off <= a < off + total ==> At(dev.bytes, a) == 0
      ensures old(dev.seen) <= dev.seen && (old(Guarded()) ==> Guarded())
      ensures dev.env.Since(old(dev.env.faults), old(dev.env.Calm()))
      ensures dev.env.faults == old(dev.env.faults) ==> ok
    {
      hide AllEndIn;
      var chunk := if ZERO_CHUNK < total then ZERO_CHUNK else total;
      var written := 0;
      while written < total
        invariant written <= total
        invariant SameOutside(old(dev.bytes), dev.bytes, off, off + total) && EndsIn(dev.bytes, footerBytes)
        invariant forall a {:trigger At(dev.bytes, a)} :: off <= a < off + written ==> At(dev.bytes, a) == 0
        invariant old(dev.seen) <= dev.seen && (old(Guarded()) ==> Guarded())
        invariant dev.env.Since(old(dev.env.faults), old(dev.env.Calm()))
      {
        var n := if total - written < chunk then total - written else chunk;
        ghost var b, s := dev.bytes, dev.seen;
        ghost var j;
        ok, j := dev.WriteAt(off + written, Zeros(n));
        assert Zeros(n)[..j] == Zeros(j);
        SameLastSector(b, dev.bytes);
        SeenMore(s, dev.bytes, footerBytes);
        if !ok {
          return false;
        }
        written := written + n;
      }
      ok := dev.Flush();
    }

    /** Steps 0 and 1 of an allocation: the footer past the block, then the zeroed block. */
    method PrepareBlock(off: nat, total: nat) returns (ok: bool)
      requires off + total + FOOTER_SIZE == |dev.bytes| && |footerBytes| == FOOTER_SIZE
      modifies dev, dev.env
      ensures SameOutside(old(dev.bytes), dev.bytes, off, |old(dev.bytes)|)
      ensures old(TornSlot(dev.bytes, footerBytes)) ==> TornSlot(dev.bytes, footerBytes)
      ensures ok ==>
                && dev.durable == dev.bytes && EndsIn(dev.bytes, footerBytes)
                && forall a {:trigger At(dev.bytes, a)} :: off <= a < off + total ==> At(dev.bytes, a) == 0
      ensures old(dev.seen) <= dev.seen && (old(Guarded()) ==> Guarded())
      ensures dev.env.Since(old(dev.env.faults), old(dev.env.Calm()))
      ensures dev.env.faults == old(dev.env.faults) ==> ok
    {
      hide TornSlot, EndsIn, AllEndIn;
      ok := WriteFooterCopy(off + total);
      if ok {
        ok := ZeroBlock(off, total);
        WholeFooterIsTorn(dev.bytes, footerBytes);
      }
    }

    /** The on-disk entry, all or nothing, and the flush that makes it last. */
    method PutEntry(blockIdx: nat, entry: nat) returns (ok: bool)
      requires header.Some? && blockIdx < L().entries && entry < UNALLOCATED && L().TableEnd() <= |dev.bytes|
      modifies dev, dev.env
      ensures var written := Splice(old(dev.bytes), L().tableOffset + 4 * blockIdx, U32Bytes(entry));
              && dev.bytes in {old(dev.bytes), written}
              && (ok ==> dev.bytes == written && dev.durable == dev.bytes)
      ensures dev.seen == old(dev.seen) + {dev.bytes}
      ensures dev.env.Since(old(dev.env.faults), old(dev.env.Calm()))
      ensures dev.env.faults == old(dev.env.faults) ==> ok
    {
      hide Splice;
      ok := dev.WriteEntry(header.value.tableOffset + 4 * blockIdx, U32Bytes(entry));
      if ok {
        ok := dev.Flush();
      }
    }

    /** Allocate a fresh block at the tail for entry `blockIdx`: check that the BAT can name
        it, make room, write the footer past it, zero it, commit the tail, publish the
        entry, and only then tell the cache. */
    method AllocateBlockLocked(blockIdx: nat) returns (r: Result<nat>)
      requires InBounds() && blockIdx < |bat| && bat[blockIdx] == UNALLOCATED
      modifies this`bat, this`nextAlloc, dev, dev.env
      ensures InBounds()
      ensures old(Ready()) ==>
                && Ready() && Keeps(old(State()), State(), footerBytes)
                && Contents(State()) == old(Contents(State()))
                && SameOn(old(dev.bytes), dev.bytes, L().dataStart, old(nextAlloc))
                && (r.Ok? ==> Blank(L(), dev.bytes, r.value))
                && (r.Ok? && old(Anchored(L(), dev.bytes, footerBytes)) ==> Recoverable(State(), footerBytes))
      ensures r.Ok? ==>
                && r.value == old(nextAlloc) && r.value == Home(r.value / SECTOR) && r.value / SECTOR < UNALLOCATED
                && bat == old(bat)[blockIdx := r.value / SECTOR] && Table(L(), dev.bytes)[blockIdx] == r.value / SECTOR
                && nextAlloc == old(nextAlloc) + L().Total() && |dev.bytes| == nextAlloc + FOOTER_SIZE
                && EndsIn(dev.bytes, footerBytes) && dev.durable == dev.bytes
                && Placed(old(State()), dev.bytes, blockIdx)
      ensures r.Err? ==> bat == old(bat) && nextAlloc in {old(nextAlloc), old(nextAlloc) + L().Total()}
      ensures old(nextAlloc) / SECTOR >= UNALLOCATED ==>
              r.Err? && dev.bytes == old(dev.bytes) && nextAlloc == old(nextAlloc)
      ensures old(EndedInUntil(dev.seen, dev.bytes, footerBytes)) && Footers.StartsWithCookie(footerBytes) ==>
              && (AllEndIn(dev.seen, footerBytes) <==>
                    EndsIn(old(dev.bytes), footerBytes) && |dev.bytes| == |old(dev.bytes)|)
              && (r.Ok? ==>
                    (AllEndIn(dev.seen, footerBytes) <==>
                       EndsIn(old(dev.bytes), footerBytes)
                       && |old(dev.bytes)| >= old(nextAlloc) + L().Total() + FOOTER_SIZE))
      ensures dev.env.Since(old(dev.env.faults), old(dev.env.Calm()))
      ensures dev.env.faults == old(dev.env.faults) ==> (r.Ok? <==> old(nextAlloc) / SECTOR < UNALLOCATED)
    {
      hide Inv, Keeps, Preparing, Prepared, Flat, Blank, Anchored, Recoverable, TornSlot, Environment.Calm, Splice,
        EndsIn, AllEndIn, EndedInUntil, Placed;
      ghost var d, s0 := State(), dev.seen;
      var total := bitmapSize + header.value.blockSize;
      var newBlock := nextAlloc;
      var named := BatEntryFor(newBlock);
      if named.Err? {
        if Ready() {
          KeepsItself(d, footerBytes);
        }
        SeenStill(s0, d.dev, dev.seen, footerBytes);
        return Err(named.error);
      }
      var ok := DevGrowTo(newBlock + total + FOOTER_SIZE);
      ghost var b1, s1 := dev.bytes, dev.seen;
      if !ok {
        if Inv(d) {
          KeepsItself(d, footerBytes);
        }
        SeenStill(s0, d.dev, s1, footerBytes);
        return Err(Io);
      }
      if Inv(d) {
        GrownIsPreparing(d, b1, footerBytes);
      }
      r := FillAndPublish(d, blockIdx, named.value);
      if Footers.StartsWithCookie(footerBytes) && EndedInUntil(s0, d.dev, footerBytes) {
        GrowthSeen(d, b1, footerBytes);
        GrowthDecides(s0, d.dev, b1, s1, dev.seen, footerBytes);
      }
    }

    /** Everything past making room: the footer, the zeroed block, the commit, the entry, the
        cache. */
    method FillAndPublish(ghost d: Disk, blockIdx: nat, entry: nat) returns (r: Result<nat>)
      requires Valid() && footer.diskType.Dynamic? && State() == d.(dev := dev.bytes) && Bounded(d)
      requires |dev.bytes| == d.tail + d.l.Total() + FOOTER_SIZE && (Inv(d) ==> Preparing(d, dev.bytes, footerBytes))
      requires SameOn(d.dev, dev.bytes, 0, d.tail)
      requires blockIdx < |bat| && bat[blockIdx] == UNALLOCATED && entry < UNALLOCATED && Home(entry) == nextAlloc
      modifies this`bat, this`nextAlloc, dev, dev.env
      ensures InBounds() && |dev.bytes| == |old(dev.bytes)|
      ensures Inv(d) ==>
                && Inv(State()) && Keeps(d, State(), footerBytes) && Contents(State()) == Contents(d)
                && SameOn(d.dev, dev.bytes, d.l.dataStart, d.tail)
                && (r.Ok? ==> Blank(L(), dev.bytes, r.value))
                && (r.Ok? && Anchored(d.l, d.dev, footerBytes) ==> Recoverable(State(), footerBytes))
      ensures r.Ok? ==>
                && r.value == Home(entry) && bat == old(bat)[blockIdx := entry] && nextAlloc == d.tail + d.l.Total()
                && |dev.bytes| == nextAlloc + FOOTER_SIZE && EndsIn(dev.bytes, footerBytes)
                && dev.durable == dev.bytes && Table(L(), dev.bytes)[blockIdx] == entry
                && Placed(d, dev.bytes, blockIdx)
      ensures r.Err? ==> bat == old(bat) && nextAlloc in {d.tail, d.tail + d.l.Total()}
      ensures old(dev.seen) <= dev.seen && (old(Guarded()) ==> Guarded())
      ensures dev.env.Since(old(dev.env.faults), old(dev.env.Calm()))
      ensures dev.env.faults == old(dev.env.faults) ==> r.Ok?
    {
      hide Inv, Keeps, Preparing, Prepared, Flat, Blank, Anchored, Recoverable, TornSlot, Environment.Calm, EndsIn,
        AllEndIn, Splice, Cleared, Placed;
      ghost var b1 := dev.bytes;
      var ok := PrepareBlock(nextAlloc, bitmapSize + header.value.blockSize);
      ghost var b2, s2 := dev.bytes, dev.seen;
      if Inv(d) {
        PreparationKept(d, b1, b2, footerBytes);
      }
      if !ok {
        return Err(Io);
      }
      BoundedFurther(d, b2);
      BlockCleared(d, b1, b2);
      if Inv(d) {
        BlockIsPrepared(d, b2, footerBytes);
        CommitKeeps(d, b2, footerBytes);
      }
      nextAlloc := nextAlloc + bitmapSize + header.value.blockSize;
      r := PublishEntry(d, blockIdx, entry);
    }

    /** Step 2 of an allocation: the on-disk entry and a flush, then the cached entry. */
    method PublishEntry(ghost d: Disk, blockIdx: nat, entry: nat) returns (r: Result<nat>)
      requires Valid() && footer.diskType.Dynamic? && Bounded(d)
      requires State() == d.(dev := dev.bytes, tail := d.tail + d.l.Total())
      requires |dev.bytes| == d.tail + d.l.Total() + FOOTER_SIZE && EndsIn(dev.bytes, footerBytes)
      requires Cleared(d, dev.bytes) && (Inv(d) ==> Prepared(d, dev.bytes, footerBytes))
      requires blockIdx < |bat| && bat[blockIdx] == UNALLOCATED && entry < UNALLOCATED && Home(entry) == d.tail
      modifies this`bat, dev, dev.env
      ensures InBounds() && |dev.bytes| == |old(dev.bytes)| && EndsIn(dev.bytes, footerBytes)
      ensures Inv(d) ==>
                && Inv(State()) && Keeps(d, State(), footerBytes) && Contents(State()) == Contents(d)
                && SameOn(d.dev, dev.bytes, d.l.dataStart, d.tail)
                && (r.Ok? ==> Blank(L(), dev.bytes, r.value))
                && (r.Ok? && Anchored(d.l, d.dev, footerBytes) ==> Recoverable(State(), footerBytes))
      ensures r.Ok? ==>
                && r.value == Home(entry) && bat == old(bat)[blockIdx := entry]
                && dev.durable == dev.bytes && Table(L(), dev.bytes)[blockIdx] == entry
                && Placed(d, dev.bytes, blockIdx)
      ensures r.Err? ==> bat == old(bat)
      ensures old(dev.seen) <= dev.seen && (old(Guarded()) ==> Guarded())
      ensures dev.env.Since(old(dev.env.faults), old(dev.env.Calm()))
      ensures dev.env.faults == old(dev.env.faults) ==> r.Ok?
    {
      hide Inv, Keeps, Prepared, Flat, Blank, Anchored, Recoverable, Environment.Calm, EndsIn, AllEndIn, Splice,
        LayoutOf, Bounded, Cleared, Placed;
      ghost var b2, s2 := dev.bytes, dev.seen;
      BoundedFurther(d, b2);
      var ok := PutEntry(blockIdx, entry);
      EntrySlot(d, b2, dev.bytes, blockIdx, entry, footerBytes);
      BoundedFurther(d, dev.bytes);
      SeenMore(s2, dev.bytes, footerBytes);
      if Inv(d) {
        EntryKept(d, b2, footerBytes, blockIdx, entry, dev.bytes);
      }
      if !ok {
        return Err(Io);
      }
      EntryPlaced(d, b2, dev.bytes, blockIdx, entry);
      if Inv(d) {
        CachePublished(d, State(), footerBytes, blockIdx, entry);
      }
      bat := bat[blockIdx := entry];
      return Ok(Home(entry));
    }

    // ---- Writing ----

    /** The block at `home` and a range inside it, on a dynamic image. */
    ghost predicate BlockRange(home: nat, inBlock: nat, n: nat)
      reads this, dev, readers, devices
    {
      && Valid() && footer.diskType.Dynamic?
      && 0 < n && inBlock + n <= L().blockSize && home + L().Total() <= |dev.bytes|
    }

    /** Give the uncovered parts of a partly written sector the contents a reader sees
        there today, so that its bit publishes nothing the caller did not write. */
    method DefinePartialSectors(home: nat, blockIdx: nat, inBlock: nat, n: nat) returns (r: Outcome)
      requires BlockRange(home, inBlock, n)
      modifies dev`bytes, dev`seen, dev.env
      ensures Valid() && SameOutside(old(dev.bytes), dev.bytes, home, home + L().Total())
      ensures SameViews(L(), old(dev.bytes), dev.bytes, home)
      ensures UncoveredMixed(L(), old(dev.bytes), dev.bytes, home, inBlock, n)
      ensures r.Pass? ==> PartialsDefined(L(), dev.bytes, home, inBlock, n)
      ensures dev.env.Since(old(dev.env.faults), old(dev.env.Calm()))
      ensures dev.env.faults == old(dev.env.faults) ==> r.Pass?
    {
      var ok, bitmap := dev.ReadAt(home, bitmapSize);
      if !ok {
        return Fail(Io);
      }
      ghost var b0 := dev.bytes;
      BitmapIsPresent(L(), b0, home, bitmap);
      var first, last := inBlock / SECTOR, (inBlock + n - 1) / SECTOR;
      r := DefineSector(home, blockIdx, inBlock, n, bitmap, first);
      if r.Fail? || first == last {
        if r.Pass? {
          EndsDefineAll(L(), dev.bytes, home, inBlock, n);
        }
        return;
      }
      ghost var b1 := dev.bytes;
      r := DefineSector(home, blockIdx, inBlock, n, bitmap, last);
      UncoveredTransitive(L(), b0, b1, dev.bytes, home, inBlock, n);
      SameViewsTransitive(L(), b0, b1, dev.bytes, home);
      if r.Pass? {
        DefinedElsewhere(L(), b1, dev.bytes, home, inBlock, n, last, first);
        EndsDefineAll(L(), dev.bytes, home, inBlock, n);
      }
    }

    /** One end of the range: nothing to do if the sector is published or wholly covered. */
    method DefineSector(home: nat, blockIdx: nat, inBlock: nat, n: nat, bitmap: seq<byte>, sector: nat)
      returns (r: Outcome)
      requires BlockRange(home, inBlock, n)
      requires |bitmap| == bitmapSize && sector < L().blockSize / SECTOR
      requires sector / 8 < bitmapSize && BitmapGet(bitmap, sector) == Present(dev.bytes, home, sector)
      requires Touched(inBlock, n, sector)
      modifies dev`bytes, dev`seen, dev.env
      ensures Valid()
      ensures SameOutside(old(dev.bytes), dev.bytes,
                          home + bitmapSize + sector * SECTOR, home + bitmapSize + sector * SECTOR + SECTOR)
      ensures SameViews(L(), old(dev.bytes), dev.bytes, home)
      ensures UncoveredMixed(L(), old(dev.bytes), dev.bytes, home, inBlock, n)
      ensures r.Pass? ==> SectorDefined(L(), dev.bytes, home, inBlock, n, sector)
      ensures dev.env.Since(old(dev.env.faults), old(dev.env.Calm()))
      ensures dev.env.faults == old(dev.env.faults) ==> r.Pass?
    {
      hide LayoutOf, ViewByte, ChainByte;
      if BitmapGet(bitmap, sector) {
        return Pass;
      }
      var start := sector * SECTOR;
      var head := Least(Monus(inBlock, start), SECTOR);
      var coveredEnd := Least(Monus(inBlock + n, start), SECTOR);
      if head == 0 && coveredEnd == SECTOR {
        return Pass;
      }
      ghost var b0 := dev.bytes;
      var zeros;
      r, zeros := SectorUnder(blockIdx * BlockSize() + start);
      if r.Fail? {
        return;
      }
      r := FillUncovered(home + bitmapSize + start, head, coveredEnd, zeros);
      HiddenWrite(L(), b0, dev.bytes, home, sector, start, start + SECTOR);
      FilledAreUncovered(L(), b0, dev.bytes, home, inBlock, n, sector, head, coveredEnd);
      if r.Pass? {
        UncoveredFilled(L(), dev.bytes, home, inBlock, n, sector, head, coveredEnd);
      }
    }

    /** What a reader sees today in the sector at `virt`, where the bit is clear. */
    method SectorUnder(virt: nat) returns (r: Outcome, sectorBytes: seq<byte>)
      requires Valid() && parent == null
      modifies dev.env
      ensures r.Pass? && sectorBytes == Zeros(SECTOR)
      ensures dev.env.Since(old(dev.env.faults), old(dev.env.Calm()))
    {
      var buf := new byte[SECTOR](i => 0);
      r := ReadBlockUnallocated(virt, buf, 0, SECTOR);
      sectorBytes := buf[..];
    }

    /** Write the two parts of a sector that the payload will not cover. */
    method FillUncovered(at: nat, head: nat, coveredEnd: nat, zeros: seq<byte>) returns (r: Outcome)
      requires head <= SECTOR && coveredEnd <= SECTOR && zeros == Zeros(SECTOR) && at + SECTOR <= |dev.bytes|
      modifies dev`bytes, dev`seen, dev.env
      ensures SameOutside(old(dev.bytes), dev.bytes, at, at + SECTOR)
      ensures forall i {:trigger At(dev.bytes, i)} ::
                || At(dev.bytes, i) == At(old(dev.bytes), i)
                || ((at <= i < at + head || at + coveredEnd <= i < at + SECTOR) && At(dev.bytes, i) == 0)
      ensures r.Pass? ==> forall i {:trigger At(dev.bytes, i)} ::
                at <= i < at + head || at + coveredEnd <= i < at + SECTOR ==> At(dev.bytes, i) == 0
      ensures dev.env.Since(old(dev.env.faults), old(dev.env.Calm()))
      ensures dev.env.faults == old(dev.env.faults) ==> r.Pass?
    {
      ghost var j;
      var ok;
      if head > 0 {
        ok, j := dev.WriteAt(at, zeros[..head]);
        if !ok {
          return Fail(Io);
        }
      }
      if coveredEnd < SECTOR {
        ok, j := dev.WriteAt(at + coveredEnd, zeros[coveredEnd..]);
        if !ok {
          return Fail(Io);
        }
      }
      return Pass;
    }

    /** Set the bits of the sectors that `[inBlock, inBlock + n)` touches: read, modify,
        write.  `bits` is what was written and `landed` how much of it. */
    method SetBitmapRange(home: nat, inBlock: nat, n: nat)
      returns (r: Outcome, ghost bits: seq<byte>, ghost landed: nat)
      requires BlockRange(home, inBlock, n)
      modifies dev`bytes, dev`seen, dev.env
      ensures landed <= |bits| == L().bitmapSize
      ensures dev.bytes == Splice(old(dev.bytes), home, bits[..landed])
      ensures landed > 0 || r.Pass? ==> BitsSet(L(), old(dev.bytes), home, inBlock, n, bits)
      ensures r.Pass? ==> landed == |bits|
      ensures dev.env.Since(old(dev.env.faults), old(dev.env.Calm()))
      ensures dev.env.faults == old(dev.env.faults) ==> r.Pass?
    {
      hide LayoutOf;
      bits, landed := Zeros(bitmapSize), 0;
      var ok, read := dev.ReadAt(home, bitmapSize);
      if !ok {
        assert dev.bytes == Splice(dev.bytes, home, bits[..0]);
        return Fail(Io), bits, 0;
      }
      BitmapIsPresent(L(), dev.bytes, home, read);
      var first, last := inBlock / SECTOR, (inBlock + n - 1) / SECTOR;
      assert last / 8 < bitmapSize;
      var bitmap := SetBits(read, first, last);
      bits := bitmap;
      assert BitsSet(L(), dev.bytes, home, inBlock, n, bits);
      ok, landed := dev.WriteAt(home, bitmap);
      r := if ok then Pass else Fail(Io);
    }

    /** What a chunk does to the cached BAT and the tail: nothing, or one allocation. */
    ghost predicate OneAllocation(bat0: seq<nat>, tail0: nat, k: nat)
      requires header.Some?
      reads this
    {
      || (bat == bat0 && nextAlloc == tail0)
      || (k < |bat0| && bat0[k] == UNALLOCATED && nextAlloc == tail0 + L().Total()
          && (bat == bat0 || bat == bat0[k := tail0 / SECTOR]))
    }

    /** One block's part of a write, under one hold of the lock: allocate if need be, define
        the partly covered sectors, splice the payload, publish the bits. */
    method WriteChunkLocked(cursor: nat, blockIdx: nat, inBlock: nat, data: seq<byte>) returns (r: Outcome)
      requires InBounds() && 0 < |data| && cursor + |data| <= virtualSize
      requires IsAt(L(), cursor, blockIdx, inBlock) && inBlock + |data| <= L().blockSize && blockIdx < |bat|
      modifies this`bat, this`nextAlloc, dev, dev.env
      ensures InBounds()
      ensures old(Ready()) ==>
                && Ready() && Keeps(old(State()), State(), footerBytes)
                && Mixed(old(Contents(State())), Contents(State()), cursor, data)
                && (r.Pass? ==> Contents(State()) == Splice(old(Contents(State())), cursor, data))
                && OtherBlocks(old(State()), dev.bytes, blockIdx)
                && (r.Pass? && old(bat)[blockIdx] == UNALLOCATED && old(Anchored(L(), dev.bytes, footerBytes)) ==>
                      Recoverable(State(), footerBytes))
      ensures OneAllocation(old(bat), old(nextAlloc), blockIdx)
      ensures old(bat)[blockIdx] != UNALLOCATED ==>
                && |dev.bytes| == |old(dev.bytes)| && nextAlloc == old(nextAlloc) && bat == old(bat)
                && RawMixed(L(), old(dev.bytes), dev.bytes, Home(bat[blockIdx]), inBlock, data)
                && (r.Pass? ==> RawLanded(L(), old(dev.bytes), dev.bytes, Home(bat[blockIdx]), inBlock, data))
      ensures r.Pass? ==> bat[blockIdx] != UNALLOCATED && dev.durable == dev.bytes
      ensures r.Pass? && old(bat)[blockIdx] == UNALLOCATED ==>
                && bat == old(bat)[blockIdx := old(nextAlloc) / SECTOR] && old(nextAlloc) / SECTOR < UNALLOCATED
                && nextAlloc == old(nextAlloc) + L().Total()
      ensures dev.env.Since(old(dev.env.faults), old(dev.env.Calm()))
      ensures dev.env.faults == old(dev.env.faults) ==> (r.Fail? ==>
                  old(bat)[blockIdx] == UNALLOCATED && old(nextAlloc) / SECTOR >= UNALLOCATED)
    {
      hide Inv, Keeps, Flat, LayoutOf, Mixed, Blank, BlockMixed, BlockLanded, RawLanded, RawMixed, OtherBlocks,
        Anchored, Recoverable, EndsIn, Splice, Environment.Calm, IsAt;
      ghost var d0, ready := State(), Ready();
      var ok := EnsureAllocated(blockIdx);
      if ok.Fail? {
        if ready {
          NothingMixed(Contents(d0), cursor, data);
          AllocationAside(d0, dev.bytes, blockIdx);
        }
        return ok;
      }
      ghost var d1 := State();
      r := WriteIntoBlock(blockIdx, inBlock, data);
      if ready {
        ChunkWritten(d0, d1, dev.bytes, cursor, blockIdx, inBlock, data, footerBytes, r.Pass?);
      }
    }

    /** A place for the block, if it has none yet. */
    method EnsureAllocated(blockIdx: nat) returns (r: Outcome)
      requires InBounds() && blockIdx < |bat|
      modifies this`bat, this`nextAlloc, dev, dev.env
      ensures InBounds()
      ensures old(Ready()) ==>
                && Ready() && Keeps(old(State()), State(), footerBytes)
                && Contents(State()) == old(Contents(State()))
                && SameOn(old(dev.bytes), dev.bytes, L().dataStart, old(nextAlloc))
                && (r.Pass? && old(bat)[blockIdx] == UNALLOCATED && old(Anchored(L(), dev.bytes, footerBytes)) ==>
                      Recoverable(State(), footerBytes))
      ensures OneAllocation(old(bat), old(nextAlloc), blockIdx)
      ensures old(bat)[blockIdx] != UNALLOCATED ==>
                r.Pass? && dev.bytes == old(dev.bytes) && nextAlloc == old(nextAlloc) && bat == old(bat)
      ensures r.Pass? && old(bat)[blockIdx] == UNALLOCATED ==>
                && bat == old(bat)[blockIdx := old(nextAlloc) / SECTOR] && old(nextAlloc) / SECTOR < UNALLOCATED
                && Home(bat[blockIdx]) == old(nextAlloc) && nextAlloc == old(nextAlloc) + L().Total()
      ensures r.Pass? ==> bat[blockIdx] != UNALLOCATED
      ensures dev.env.Since(old(dev.env.faults), old(dev.env.Calm()))
      ensures dev.env.faults == old(dev.env.faults) ==>
                (r.Fail? ==> old(bat)[blockIdx] == UNALLOCATED && old(nextAlloc) / SECTOR >= UNALLOCATED)
    {
      hide Inv, Keeps, Flat, LayoutOf, Blank, Anchored, Recoverable, EndsIn, AllEndIn, EndedInUntil, Bounded,
        Environment.Calm;
      if Ready() {
        KeepsItself(State(), footerBytes);
      }
      if bat[blockIdx] == UNALLOCATED {
        var home := AllocateBlockLocked(blockIdx);
        if home.Err? {
          return Fail(home.error);
        }
      }
      return Pass;
    }

    /** The part of the critical section that works inside an allocated block.  Nothing of it
        is on stable storage before its closing flush: not the payload when the bitmap is
        written, nor the bitmap. */
    method WriteIntoBlock(blockIdx: nat, inBlock: nat, data: seq<byte>) returns (r: Outcome)
      requires InBounds() && 0 < |data| && inBlock + |data| <= L().blockSize
      requires blockIdx < |bat| && bat[blockIdx] != UNALLOCATED
      modifies dev, dev.env
      ensures InBounds()
      ensures SameOutside(old(dev.bytes), dev.bytes, Home(bat[blockIdx]), Home(bat[blockIdx]) + L().Total())
      ensures BlockMixed(L(), old(dev.bytes), dev.bytes, bat[blockIdx], inBlock, data)
      ensures RawMixed(L(), old(dev.bytes), dev.bytes, Home(bat[blockIdx]), inBlock, data)
      ensures r.Pass? ==>
                && BlockLanded(L(), old(dev.bytes), dev.bytes, bat[blockIdx], inBlock, data)
                && RawLanded(L(), old(dev.bytes), dev.bytes, Home(bat[blockIdx]), inBlock, data)
      ensures dev.durable == if r.Pass? then dev.bytes else old(dev.durable)
      ensures dev.env.Since(old(dev.env.faults), old(dev.env.Calm()))
      ensures dev.env.faults == old(dev.env.faults) ==> r.Pass?
    {
      hide LayoutOf, ViewByte, BlockMixed, BlockLanded, Staged, PartialsDefined, SameViews, BitsSet, UncoveredMixed,
        RawMixed, RawLanded, Environment.Calm;
      ghost var b0, l, e := dev.bytes, L(), bat[blockIdx];
      var home := Home(bat[blockIdx]);
      r := DefinePartialSectors(home, blockIdx, inBlock, |data|);
      ghost var b1 := dev.bytes;
      SameViewsMixed(l, b0, b1, b1, e, inBlock, data);
      UncoveredIsRaw(l, b0, b1, home, inBlock, data);
      if r.Fail? {
        return;
      }
      var ok;
      ghost var k;
      ok, k := dev.WriteAt(home + bitmapSize + inBlock, data);
      ghost var b2 := dev.bytes;
      PayloadMixed(l, b1, b2, e, inBlock, data, k);
      PayloadRaw(l, b0, b1, b2, home, inBlock, data, k);
      SameViewsMixed(l, b0, b1, b2, e, inBlock, data);
      if !ok {
        return Fail(Io);
      }
      assert data[..k] == data;
      PayloadStaged(l, b0, b1, b2, home, inBlock, data);
      r := PublishBits(b0, blockIdx, inBlock, data);
    }

    /** The bitmap write and the flush that close the critical section. */
    method PublishBits(ghost was: seq<byte>, blockIdx: nat, inBlock: nat, data: seq<byte>) returns (r: Outcome)
      requires InBounds() && 0 < |data| && inBlock + |data| <= L().blockSize
      requires blockIdx < |bat| && bat[blockIdx] != UNALLOCATED
      requires SameOutside(was, dev.bytes, Home(bat[blockIdx]), Home(bat[blockIdx]) + L().Total())
      requires Staged(L(), was, dev.bytes, Home(bat[blockIdx]), inBlock, data)
      requires BlockMixed(L(), was, dev.bytes, bat[blockIdx], inBlock, data)
      requires RawMixed(L(), was, dev.bytes, Home(bat[blockIdx]), inBlock, data)
      modifies dev, dev.env
      ensures InBounds()
      ensures SameOutside(was, dev.bytes, Home(bat[blockIdx]), Home(bat[blockIdx]) + L().Total())
      ensures BlockMixed(L(), was, dev.bytes, bat[blockIdx], inBlock, data)
      ensures RawMixed(L(), was, dev.bytes, Home(bat[blockIdx]), inBlock, data)
      ensures r.Pass? ==>
                && BlockLanded(L(), was, dev.bytes, bat[blockIdx], inBlock, data)
                && RawLanded(L(), was, dev.bytes, Home(bat[blockIdx]), inBlock, data)
      ensures dev.durable == if r.Pass? then dev.bytes else old(dev.durable)
      ensures dev.env.Since(old(dev.env.faults), old(dev.env.Calm()))
      ensures dev.env.faults == old(dev.env.faults) ==> r.Pass?
    {
      hide LayoutOf, ViewByte, BlockMixed, BlockLanded, Staged, BitsSet, RawMixed, RawLanded, Environment.Calm;
      ghost var l, e, b2 := L(), bat[blockIdx], dev.bytes;
      var home := Home(bat[blockIdx]);
      ghost var bits, p;
      r, bits, p := SetBitmapRange(home, inBlock, |data|);
      BitmapWriteRaw(l, was, b2, dev.bytes, home, inBlock, data);
      if p > 0 || r.Pass? {
        BitmapPublishes(l, was, b2, dev.bytes, e, inBlock, data, bits, p);
      } else {
        NothingSpliced(b2, home, bits);
      }
      if r.Fail? {
        return;
      }
      var ok := dev.Flush();
      r := if ok then Pass else Fail(Io);
    }

    /** The first `done` bytes of the write have landed; `d0` is the disk before it. */
    ghost predicate SoFar(d0: Disk, offset: nat, data: seq<byte>, done: nat)
      requires d0.l.blockSize > 0 && done <= |data| && offset + |data| <= d0.l.virtualSize
      reads this, dev, readers, devices
    {
      && InBounds() && L() == d0.l && |bat| == |d0.bat| && Allotted(d0, State(), offset, done)
      && (done == 0 || done == |data| || InBlock(L(), offset + done) == 0)
      && (done > 0 ==> dev.durable == dev.bytes)
      && (Inv(d0) ==>
            && Inv(State()) && Keeps(d0, State(), footerBytes)
            && Contents(State()) == Splice(Contents(d0), offset, data[..done])
            && Landed(d0, State(), offset, data[..done], footerBytes))
    }

    /** Write `data` at `offset`, block by block, each under its own hold of the lock. */
    method WriteSparse(offset: nat, data: seq<byte>) returns (r: Outcome)
      requires InBounds() && offset + |data| <= virtualSize
      modifies this`bat, this`nextAlloc, dev, dev.env
      ensures InBounds()
      ensures old(Ready()) ==>
                && Ready() && Keeps(old(State()), State(), footerBytes)
                && Mixed(old(Contents(State())), Contents(State()), offset, data)
                && BlocksMixed(old(State()), dev.bytes, offset, data)
                && (r.Pass? ==> Contents(State()) == Splice(old(Contents(State())), offset, data))
                && (r.Pass? ==> Landed(old(State()), State(), offset, data, footerBytes))
      ensures r.Pass? ==> Allotted(old(State()), State(), offset, |data|) && (data != [] ==> dev.durable == dev.bytes)
      ensures dev.env.Since(old(dev.env.faults), old(dev.env.Calm()))
      ensures dev.env.faults == old(dev.env.faults) ==> (r.Pass? <==> old(Room(State(), offset, |data|)))
    {
      hide Inv, Keeps, Flat, LayoutOf, Mixed, Landed, Allotted, Room, BlocksMixed, Splice, Environment.Calm;
      ghost var d0 := State();
      var cursor, end := offset, offset + |data|;
      var written := 0;
      NothingSpliced(Contents(d0), offset, data);
      NothingLanded(d0, offset, footerBytes);
      assert data[..0] == [];
      if Inv(d0) {
        KeepsItself(d0, footerBytes);
      }
      while cursor < end
        invariant cursor == offset + written && written <= |data|
        invariant SoFar(d0, offset, data, written)
        invariant dev.env.Since(old(dev.env.faults), old(dev.env.Calm()))
      {
        var n;
        r, n := WriteNext(d0, offset, data, written);
        if r.Fail? {
          return;
        }
        cursor := cursor + n;
        written := written + n;
      }
      assert data[..written] == data;
      AllottedHadRoom(d0, State(), offset, |data|);
      if Inv(d0) {
        SpliceIsMixed(Contents(d0), offset, data);
        LandedIsMixture(d0, State(), offset, data, footerBytes);
      }
      return Pass;
    }

    /** The next chunk of a write. */
    method WriteNext(ghost d0: Disk, offset: nat, data: seq<byte>, written: nat) returns (r: Outcome, n: nat)
      requires d0.l.blockSize > 0 && offset + |data| <= d0.l.virtualSize && d0.l.virtualSize == virtualSize
      requires written < |data| && SoFar(d0, offset, data, written)
      modifies this`bat, this`nextAlloc, dev, dev.env
      ensures InBounds() && 0 < n && written + n <= |data|
      ensures r.Pass? ==> SoFar(d0, offset, data, written + n)
      ensures r.Fail? && Inv(d0) ==>
                && Inv(State()) && Keeps(d0, State(), footerBytes) && L() == d0.l
                && Mixed(Contents(d0), Contents(State()), offset, data) && BlocksMixed(d0, dev.bytes, offset, data)
      ensures dev.env.Since(old(dev.env.faults), old(dev.env.Calm()))
      ensures dev.env.faults == old(dev.env.faults) ==> (r.Fail? ==> !Room(d0, offset, |data|))
    {
      hide Inv, Keeps, Flat, LayoutOf, Mixed, IsAt, Splice, Landed, Allotted, Room, BlocksWritten, BlocksMixed,
        RawLanded, RawMixed, OtherBlocks, Anchored, Recoverable, Bounded, Environment.Calm;
      BoundedIsValid(State());
      var inBlock, blockIdx, chunk := NextChunk(offset + written, offset + |data|);
      n := chunk;
      ghost var d1 := State();
      r := WriteChunkLocked(offset + written, blockIdx, inBlock, data[written..written + n]);
      if r.Fail? {
        if Inv(d0) {
          ChunkFailed(d0, d1, State(), offset, data, written, n, blockIdx, inBlock, footerBytes);
        }
        if d1.bat[blockIdx] == UNALLOCATED && d1.tail / SECTOR >= UNALLOCATED {
          NoRoomAhead(d0, d1, offset, |data|, written, n, blockIdx, inBlock);
        }
        return;
      }
      ChunkAllotted(d0, d1, State(), offset, written, n, blockIdx, inBlock);
      if Inv(d0) {
        ChunkDone(d0, d1, State(), offset, data, written, n, blockIdx, inBlock, footerBytes);
      }
      if written + n < |data| {
        NextBlockStarts(L(), offset + written, blockIdx, inBlock, n);
      }
    }

    /** Fixed and dynamic images opened read-write can be written. */
    predicate HasWritePath(): (r: bool)
      ensures r <==> writable && !footer.diskType.Differencing?
    {
      writable && (footer.diskType.Fixed? || footer.diskType.Dynamic?)
    }

    ghost predicate Untouched(bytes: seq<byte>, bat0: seq<nat>, tail0: nat)
      reads this, dev
    {
      dev.bytes == bytes && bat == bat0 && nextAlloc == tail0
    }

    /** Write exactly `|data|` bytes at virtual `offset`. */
    method WriteAt(offset: nat, data: seq<byte>) returns (r: Outcome)
      requires Valid() && (footer.diskType.Dynamic? ==> InBounds())
      modifies this`bat, this`nextAlloc, dev, dev.env
      ensures Valid() && (footer.diskType.Dynamic? ==> InBounds())
      ensures !HasWritePath() ==> r == Fail(ReadOnly) && Untouched(old(dev.bytes), old(bat), old(nextAlloc))
      ensures data == [] && HasWritePath() ==> r == Pass && Untouched(old(dev.bytes), old(bat), old(nextAlloc))
      ensures data != [] && HasWritePath() && offset + |data| > virtualSize ==>
                r == Fail(if offset + |data| >= U64_LIMIT then Corrupt else OutOfBounds)
                && Untouched(old(dev.bytes), old(bat), old(nextAlloc))
      ensures old(Ready()) ==> Ready() && Keeps(old(State()), State(), footerBytes)
      ensures old(Ready()) && offset + |data| <= virtualSize ==>
                && Mixed(old(Contents(State())), Contents(State()), offset, data)
                && BlocksMixed(old(State()), dev.bytes, offset, data)
                && (r.Pass? ==> Contents(State()) == Splice(old(Contents(State())), offset, data))
                && (r.Pass? ==> Landed(old(State()), State(), offset, data, footerBytes))
      ensures footer.diskType.Dynamic? && r.Pass? && offset + |data| <= virtualSize ==>
                Allotted(old(State()), State(), offset, |data|) && (data != [] ==> dev.durable == dev.bytes)
      ensures footer.diskType.Fixed? ==>
                if offset + |data| <= |old(dev.bytes)| then Mixed(old(dev.bytes), dev.bytes, offset, data)
                else dev.bytes == old(dev.bytes)
      ensures footer.diskType.Fixed? && r.Pass? && data != [] ==>
                offset + |data| <= virtualSize && offset + |data| <= |old(dev.bytes)|
                && dev.bytes == Splice(old(dev.bytes), offset, data)
      ensures dev.env.Since(old(dev.env.faults), old(dev.env.Calm()))
      ensures dev.env.faults == old(dev.env.faults) && footer.diskType.Fixed? && HasWritePath() && data != [] ==>
                (r.Pass? <==> offset + |data| <= virtualSize && offset + |data| <= |old(dev.bytes)|)
      ensures dev.env.faults == old(dev.env.faults) && footer.diskType.Dynamic? && HasWritePath()
              && offset + |data| <= virtualSize ==>
                (r.Pass? <==> old(Room(State(), offset, |data|)))
    {
      hide Inv, Keeps, Flat, LayoutOf, Mixed, BlocksMixed, Landed, Allotted, Room;
      if footer.diskType.Dynamic? {
        NothingLanded(State(), offset, footerBytes);
        AllottedHadRoom(State(), State(), offset, 0);
        if Ready() {
          KeepsItself(State(), footerBytes);
          NothingSpread(State(), offset, data);
          if offset + |data| <= virtualSize {
            NothingMixed(Contents(State()), offset, data);
            NothingSpliced(Contents(State()), offset, data);
          }
        }
      }
      if offset + |data| <= |dev.bytes| {
        NothingMixed(dev.bytes, offset, data);
      }
      if !writable {
        return Fail(ReadOnly);
      }
      if !HasWritePath() {
        return Fail(ReadOnly);
      }
      if |data| == 0 {
        assert data == data[..0] == [];
        return Pass;
      }
      var end := offset + |data|;
      if end >= U64_LIMIT {
        return Fail(Corrupt);
      }
      if end > virtualSize {
        return Fail(OutOfBounds);
      }
      if footer.diskType.Fixed? {
        var ok;
        ghost var k;
        if end <= |dev.bytes| {
          PrefixMixed(dev.bytes, offset, data);
        }
        ok, k := dev.WriteAt(offset, data);
        assert ok ==> data[..k] == data;
        return if ok then Pass else Fail(Io);
      }
      r := WriteSparse(offset, data);
    }

    /** Sync the device; a read-only handle has nothing to sync. */
    method FlushWrites() returns (r: Outcome)
      modifies dev`durable, dev.env
      ensures writable && r.Pass? ==> dev.durable == dev.bytes
      ensures !writable ==> r == Pass
      ensures dev.env.Since(old(dev.env.faults), old(dev.env.Calm()))
      ensures dev.env.faults == old(dev.env.faults) ==> r == Pass
    {
      if !writable {
        return Pass;
      }
      var ok := dev.Flush();
      r := if ok then Pass else Fail(Io);
    }
  }
}
