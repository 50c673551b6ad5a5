/** A dynamic image as a value: its layout, the device's bytes, the cached BAT and the
    allocation tail.  What every step keeps, and what no step may change. */
module Disks {
  import opened Bytes
  import opened Format
  import opened Blocks

  datatype Disk = Disk(l: Layout, dev: seq<byte>, bat: seq<nat>, tail: nat)

  /** The BAT as the device holds it. */
  ghost function Table(l: Layout, dev: seq<byte>): (t: seq<nat>)
    ensures |t| == l.entries
    ensures forall i {:trigger t[i]} | 0 <= i < l.entries :: t[i] == ReadU32(dev, l.tableOffset + 4 * i)
  {
    seq(l.entries, i requires 0 <= i < l.entries => ReadU32(dev, l.tableOffset + 4 * i))
  }

  /** The extents of two blocks share no byte. */
  ghost predicate Apart(l: Layout, a: nat, b: nat) {
    Home(a) + l.Total() <= Home(b) || Home(b) + l.Total() <= Home(a)
  }

  /** Every named block lies in `[lo, hi)`, and no two share a byte. */
  ghost predicate TableFits(l: Layout, t: seq<nat>, lo: nat, hi: nat) {
    && (forall i {:trigger t[i]} :: 0 <= i < |t| && t[i] != UNALLOCATED ==>
          lo <= Home(t[i]) && Home(t[i]) + l.Total() <= hi)
    && (forall i, j {:trigger t[i], t[j]} :: 0 <= i < j < |t| && t[i] != UNALLOCATED && t[j] != UNALLOCATED ==>
          Apart(l, t[i], t[j]))
  }

  /** The cached BAT agrees with the device's, or holds back a block that reads as nothing:
      the trace of a BAT write that landed and was reported as failed. */
  ghost predicate Agrees(l: Layout, dev: seq<byte>, bat: seq<nat>)
    requires |bat| == l.entries
  {
    forall i {:trigger bat[i]} :: 0 <= i < |bat| ==>
      || bat[i] == Table(l, dev)[i]
      || (bat[i] == UNALLOCATED && Blank(l, dev, Home(Table(l, dev)[i])))
  }

  ghost predicate LengthFits(l: Layout, tail: nat, length: nat) {
    length == tail || length == tail + FOOTER_SIZE || length == tail + l.Total() + FOOTER_SIZE
  }

  ghost predicate Inv(d: Disk) {
    && d.l.Valid()
    && |d.bat| == d.l.entries
    && d.tail % SECTOR == 0 && d.l.dataStart <= d.tail
    && LengthFits(d.l, d.tail, |d.dev|)
    && TableFits(d.l, Table(d.l, d.dev), d.l.dataStart, d.tail)
    && Agrees(d.l, d.dev, d.bat)
  }

  /** What every handle on a dynamic image satisfies that open returns, also one whose tail
      lies inside the metadata: its blocks end at the tail or below it. */
  ghost predicate Bounded(d: Disk) {
    && d.l.Valid()
    && |d.bat| == d.l.entries
    && d.tail % SECTOR == 0 && d.l.dataStart <= d.tail + SECTOR
    && LengthFits(d.l, d.tail, |d.dev|)
    && forall i {:trigger d.bat[i]} :: 0 <= i < |d.bat| && d.bat[i] != UNALLOCATED ==>
         Home(d.bat[i]) + d.l.Total() <= d.tail
  }

  lemma BoundedIsValid(d: Disk)
    requires Bounded(d)
    ensures d.l.Valid() && |d.bat| == d.l.entries
  {
  }

  lemma InvIsBounded(d: Disk)
    requires Inv(d)
    ensures Bounded(d)
  {
    forall i | 0 <= i < |d.bat| && d.bat[i] != UNALLOCATED ensures Home(d.bat[i]) + d.l.Total() <= d.tail {
      assert d.bat[i] == Table(d.l, d.dev)[i];
    }
  }

  ghost function Contents(d: Disk): (r: seq<byte>)
    requires d.l.blockSize > 0
    ensures |r| == d.l.virtualSize
  {
    Flat(d.l, d.dev, d.bat)
  }

  /** Nothing outside `[lo, hi)` differs. */
  ghost predicate SameOutside(a: seq<byte>, b: seq<byte>, lo: int, hi: int) {
    && |a| == |b|
    && forall i {:trigger At(a, i)} {:trigger At(b, i)} :: !(lo <= i < hi) ==> At(a, i) == At(b, i)
  }

  lemma BlockIndexInRange(l: Layout, v: nat)
    requires l.Valid() && v < l.virtualSize
    ensures BlockIndex(l, v) < l.entries
  {
    CapacityIsProduct(l, l.entries);
    QuotientBelow(v, l.blockSize, l.entries);
  }

  lemma QuotientBelow(v: nat, n: nat, m: nat)
    requires n > 0 && v < m * n
    ensures v / n < m
  {
    Remainder(v, n);
    if v / n >= m {
      MulMonotone(m, v / n, n);
    }
  }

  /** Byte `v` of the disk is byte `r` of block `i`, whatever the device and the table hold. */
  lemma Locate(l: Layout, v: nat) returns (i: nat, r: nat)
    requires l.Valid() && v < l.virtualSize
    ensures IsAt(l, v, i, r) && i < l.entries && r < l.blockSize
    ensures forall dev, bat {:trigger Flat(l, dev, bat)} :: |bat| == l.entries ==>
              Flat(l, dev, bat)[v] == BlockByte(l, dev, bat[i], r, 0)
  {
    i, r := SplitIndex(l, v);
    forall dev, bat | |bat| == l.entries
      ensures Flat(l, dev, bat)[v] == BlockByte(l, dev, bat[i], r, 0)
    {
      FlatUnfolds(l, dev, bat, v, i, r);
    }
  }

  lemma SplitIndex(l: Layout, v: nat) returns (i: nat, r: nat)
    requires l.Valid() && v < l.virtualSize
    ensures IsAt(l, v, i, r) && i < l.entries && r < l.blockSize
  {
    BlockIndexInRange(l, v);
    i, r := BlockIndex(l, v), InBlock(l, v);
  }

  lemma FlatUnfolds(l: Layout, dev: seq<byte>, bat: seq<nat>, v: nat, i: nat, r: nat)
    requires 0 < l.blockSize && |bat| == l.entries && v < l.virtualSize
    requires IsAt(l, v, i, r) && i < l.entries
    ensures Flat(l, dev, bat)[v] == BlockByte(l, dev, bat[i], r, 0)
  {
    assert EntryOf(bat, i) == bat[i];
  }

  /** Byte `r` of block `i`, for every block and byte, is the same. */
  ghost predicate SameBlocks(l: Layout, dev: seq<byte>, bat: seq<nat>, dev': seq<byte>, bat': seq<nat>)
    requires |bat| == |bat'| == l.entries
  {
    forall i, r {:trigger BlockByte(l, dev', bat'[i], r, 0)} :: 0 <= i < l.entries && 0 <= r < l.blockSize ==>
      BlockByte(l, dev, bat[i], r, 0) == BlockByte(l, dev', bat'[i], r, 0)
  }

  /** Equal blocks make an equal disk. */
  lemma FlatFrame(l: Layout, dev: seq<byte>, bat: seq<nat>, dev': seq<byte>, bat': seq<nat>)
    requires l.Valid() && |bat| == |bat'| == l.entries
    requires SameBlocks(l, dev, bat, dev', bat')
    ensures Flat(l, dev, bat) == Flat(l, dev', bat')
  {
    var a, b := Flat(l, dev, bat), Flat(l, dev', bat');
    forall v | 0 <= v < l.virtualSize ensures a[v] == b[v] {
      var i, r := Locate(l, v);
    }
  }

  lemma TableFrame(l: Layout, dev: seq<byte>, dev': seq<byte>)
    requires SameOn(dev, dev', l.tableOffset, l.TableEnd())
    ensures Table(l, dev) == Table(l, dev')
  {
    forall i | 0 <= i < l.entries ensures Table(l, dev)[i] == Table(l, dev')[i] {
      SameU32(dev, dev', l.tableOffset + 4 * i);
    }
  }

  lemma SameU32(a: seq<byte>, b: seq<byte>, off: int)
    requires SameOn(a, b, off, off + 4)
    ensures ReadU32(a, off) == ReadU32(b, off)
  {
  }

  /** A blank block reads as nothing at all. */
  lemma BlankReads(l: Layout, dev: seq<byte>, home: nat, r: nat, under: byte)
    requires l.Valid() && r < l.blockSize && Blank(l, dev, home)
    ensures ViewByte(l, dev, home, r, under) == under
  {
    assert !Present(dev, home, r / SECTOR);
  }

  /** The live handle and the device's own table describe the same disk. */
  lemma LiveAgreesWithDevice(d: Disk)
    requires Inv(d)
    ensures Contents(d) == Flat(d.l, d.dev, Table(d.l, d.dev))
  {
    var t := Table(d.l, d.dev);
    forall i, r | 0 <= i < d.l.entries && 0 <= r < d.l.blockSize
      ensures BlockByte(d.l, d.dev, d.bat[i], r, 0) == BlockByte(d.l, d.dev, t[i], r, 0)
    {
      if d.bat[i] != t[i] {
        BlankReads(d.l, d.dev, Home(t[i]), r, 0);
      }
    }
    FlatFrame(d.l, d.dev, d.bat, d.dev, t);
  }

  /** Changing only what lies at or above the tail, or the length, changes nothing. */
  lemma AboveTail(d: Disk, dev': seq<byte>)
    requires Inv(d)
    requires SameOn(d.dev, dev', 0, d.tail) && LengthFits(d.l, d.tail, |dev'|)
    ensures Inv(d.(dev := dev'))
    ensures Contents(d.(dev := dev')) == Contents(d)
    ensures Table(d.l, dev') == Table(d.l, d.dev)
  {
    var t := Table(d.l, d.dev);
    TableFrame(d.l, d.dev, dev');
    forall i | 0 <= i < |t| && t[i] != UNALLOCATED && Blank(d.l, d.dev, Home(t[i]))
      ensures Blank(d.l, dev', Home(t[i]))
    {
      BlankFrame(d.l, d.dev, dev', Home(t[i]));
    }
    assert Agrees(d.l, dev', d.bat);
    forall i, r | 0 <= i < d.l.entries && 0 <= r < d.l.blockSize
      ensures BlockByte(d.l, d.dev, d.bat[i], r, 0) == BlockByte(d.l, dev', d.bat[i], r, 0)
    {
      if d.bat[i] != UNALLOCATED {
        ViewFrame(d.l, d.dev, dev', Home(d.bat[i]), r, 0);
      }
    }
    FlatFrame(d.l, d.dev, d.bat, dev', d.bat);
  }

  /** Changing only bytes of one block changes no other block. */
  lemma InsideBlock(d: Disk, dev': seq<byte>, k: nat)
    requires Inv(d) && k < d.l.entries && d.bat[k] != UNALLOCATED
    requires SameOutside(d.dev, dev', Home(d.bat[k]), Home(d.bat[k]) + d.l.Total())
    ensures Inv(d.(dev := dev'))
    ensures Table(d.l, dev') == Table(d.l, d.dev)
    ensures OthersKept(d.l, d.dev, dev', d.bat, k)
  {
    var t := Table(d.l, d.dev);
    assert t[k] == d.bat[k];
    TableFrame(d.l, d.dev, dev');
    forall i | 0 <= i < |t| && i != k && t[i] != UNALLOCATED
      ensures SameOn(d.dev, dev', Home(t[i]), Home(t[i]) + d.l.Total())
    {
      assert Apart(d.l, t[i], t[k]);
    }
    forall i | 0 <= i < |t| && i != k && t[i] != UNALLOCATED && Blank(d.l, d.dev, Home(t[i]))
      ensures Blank(d.l, dev', Home(t[i]))
    {
      BlankFrame(d.l, d.dev, dev', Home(t[i]));
    }
    assert Agrees(d.l, dev', d.bat);
    forall i, r | 0 <= i < d.l.entries && i != k && 0 <= r < d.l.blockSize
      ensures BlockByte(d.l, dev', d.bat[i], r, 0) == BlockByte(d.l, d.dev, d.bat[i], r, 0)
    {
      if d.bat[i] != UNALLOCATED {
        ViewFrame(d.l, d.dev, dev', Home(d.bat[i]), r, 0);
      }
    }
  }

  // ---- The steps of an allocation ----

  /** Moving the tail past a block changes nothing that is read. */
  lemma CommitTail(d: Disk)
    requires Inv(d) && |d.dev| == d.tail + d.l.Total() + FOOTER_SIZE
    ensures Inv(d.(tail := d.tail + d.l.Total()))
    ensures Contents(d.(tail := d.tail + d.l.Total())) == Contents(d)
  {
    FitsHigher(d.l, Table(d.l, d.dev), d.l.dataStart, d.tail, d.tail + d.l.Total());
    WholeSectors(d.tail / SECTOR, d.l.bitmapSize, d.l.blockSize);
  }

  lemma FitsHigher(l: Layout, t: seq<nat>, lo: nat, hi: nat, hi': nat)
    requires TableFits(l, t, lo, hi) && hi <= hi'
    ensures TableFits(l, t, lo, hi')
  {
  }

  lemma WholeSectors(e: nat, a: nat, b: nat)
    requires a % SECTOR == 0 && b % SECTOR == 0
    ensures (Home(e) + (a + b)) % SECTOR == 0
  {
  }

  lemma TableSlotsApart(l: Layout, dev: seq<byte>, dev': seq<byte>, k: nat, e: nat)
    requires k < l.entries && e < U32_LIMIT && l.tableOffset + 4 * k + 4 <= |dev|
    requires dev' == Splice(dev, l.tableOffset + 4 * k, U32Bytes(e))
    ensures Table(l, dev') == Table(l, dev)[k := e]
  {
    forall i | 0 <= i < l.entries ensures Table(l, dev')[i] == Table(l, dev)[k := e][i] {
      var off := l.tableOffset + 4 * i;
      if i == k {
        assert dev'[off..off + 4] == U32Bytes(e);
        ReadU32Bytes(dev', off, e);
      } else {
        SameU32(dev, dev', off);
      }
    }
  }

  /** Pointing table entry `k` at a blank block above every named one changes no byte of
      the disk, even while the cache still says the entry is unallocated. */
  lemma EntryWritten(d: Disk, k: nat, e: nat, dev': seq<byte>)
    requires Inv(d) && k < d.l.entries && d.bat[k] == UNALLOCATED
    requires e != UNALLOCATED && e < U32_LIMIT
    requires TableFits(d.l, Table(d.l, d.dev), d.l.dataStart, Home(e)) && d.l.dataStart <= Home(e)
    requires Home(e) + d.l.Total() <= d.tail && Blank(d.l, d.dev, Home(e))
    requires d.l.tableOffset + 4 * k + 4 <= |d.dev|
    requires dev' == Splice(d.dev, d.l.tableOffset + 4 * k, U32Bytes(e))
    ensures Inv(d.(dev := dev'))
    ensures Table(d.l, dev') == Table(d.l, d.dev)[k := e]
    ensures Contents(d.(dev := dev')) == Contents(d)
  {
    var t := Table(d.l, d.dev);
    TableSlotsApart(d.l, d.dev, dev', k, e);
    EntryFits(d.l, t, d.l.dataStart, k, e, d.tail);
    TableWriteKeepsBlocks(d, k, e, dev');
  }

  lemma EntryFits(l: Layout, t: seq<nat>, lo: nat, k: nat, e: nat, hi: nat)
    requires k < |t| && TableFits(l, t, lo, Home(e)) && lo <= Home(e) && Home(e) + l.Total() <= hi
    ensures TableFits(l, t[k := e], lo, hi)
  {
  }

  lemma TableWriteKeepsBlocks(d: Disk, k: nat, e: nat, dev': seq<byte>)
    requires Inv(d) && k < d.l.entries && d.bat[k] == UNALLOCATED
    requires d.l.dataStart <= Home(e) && Home(e) + d.l.Total() <= d.tail && Blank(d.l, d.dev, Home(e))
    requires SameOn(d.dev, dev', d.l.dataStart, d.tail)
    requires Table(d.l, dev') == Table(d.l, d.dev)[k := e]
    ensures Agrees(d.l, dev', d.bat)
    ensures Flat(d.l, dev', d.bat) == Contents(d)
  {
    var t := Table(d.l, d.dev);
    BlankFrame(d.l, d.dev, dev', Home(e));
    forall i | 0 <= i < |t| && t[i] != UNALLOCATED && Blank(d.l, d.dev, Home(t[i]))
      ensures Blank(d.l, dev', Home(t[i]))
    {
      BlankFrame(d.l, d.dev, dev', Home(t[i]));
    }
    assert Agrees(d.l, dev', d.bat);
    forall i, r | 0 <= i < d.l.entries && 0 <= r < d.l.blockSize
      ensures BlockByte(d.l, d.dev, d.bat[i], r, 0) == BlockByte(d.l, dev', d.bat[i], r, 0)
    {
      if d.bat[i] != UNALLOCATED {
        ViewFrame(d.l, d.dev, dev', Home(d.bat[i]), r, 0);
      }
    }
    FlatFrame(d.l, d.dev, d.bat, dev', d.bat);
  }

  /** Admitting to the cache a blank block that the table already names changes no byte. */
  lemma CacheEntry(d: Disk, k: nat)
    requires Inv(d) && k < d.l.entries && d.bat[k] == UNALLOCATED
    requires Table(d.l, d.dev)[k] != UNALLOCATED
    ensures Inv(d.(bat := d.bat[k := Table(d.l, d.dev)[k]]))
    ensures Contents(d.(bat := d.bat[k := Table(d.l, d.dev)[k]])) == Contents(d)
  {
    var e := Table(d.l, d.dev)[k];
    var bat' := d.bat[k := e];
    assert d.bat[k] != e;
    forall i, r | 0 <= i < d.l.entries && 0 <= r < d.l.blockSize
      ensures BlockByte(d.l, d.dev, d.bat[i], r, 0) == BlockByte(d.l, d.dev, bat'[i], r, 0)
    {
      if i == k {
        BlankReads(d.l, d.dev, Home(e), r, 0);
      }
    }
    FlatFrame(d.l, d.dev, d.bat, d.dev, bat');
  }

  // ---- Writes seen through the disk ----

  /** `cur` is `was` with part of `data` laid over it at `off`: outside the range nothing
      moved, inside every byte is the old one or the new one. */
  ghost predicate Mixed(was: seq<byte>, cur: seq<byte>, off: nat, data: seq<byte>) {
    && |was| == |cur| && off + |data| <= |was|
    && forall v {:trigger cur[v]} :: 0 <= v < |was| ==>
         || cur[v] == was[v]
         || (off <= v < off + |data| && cur[v] == data[v - off])
  }

  /** Virtual offset `start` is byte `inBlock` of block `k`. */
  ghost predicate IsAt(l: Layout, start: nat, k: nat, inBlock: nat)
    requires l.blockSize > 0
  {
    k == BlockIndex(l, start) && inBlock == InBlock(l, start)
  }

  /** The bytes `[start, start + n)` that stay in block `k` are bytes of block `k`, in order. */
  lemma ChunkIsInBlock(l: Layout, start: nat, k: nat, inBlock: nat, n: nat, v: nat, i: nat, r: nat)
    requires l.blockSize > 0 && IsAt(l, start, k, inBlock) && IsAt(l, v, i, r) && inBlock + n <= l.blockSize
    ensures start <= v < start + n <==> i == k && inBlock <= r < inBlock + n
    ensures i == k ==> r - inBlock == v - start
  {
    Remainder(start, l.blockSize);
    Remainder(v, l.blockSize);
    if start <= v < start + n {
      DivMod(v, l.blockSize, k, inBlock + (v - start));
    }
  }

  /** The other blocks that the cache names are, bitmap and data, what they were. */
  ghost predicate OtherBlocks(d: Disk, dev': seq<byte>, k: nat) {
    forall i {:trigger d.bat[i]} :: 0 <= i < |d.bat| && i != k && d.bat[i] != UNALLOCATED ==>
      SameOn(d.dev, dev', Home(d.bat[i]), Home(d.bat[i]) + d.l.Total())
  }

  /** Whether a block already named or the one past the tail is written, no other is. */
  lemma OneBlockWritten(d: Disk, dev1: seq<byte>, dev2: seq<byte>, k: nat, home: nat)
    requires Inv(d) && k < d.l.entries
    requires SameOn(d.dev, dev1, d.l.dataStart, d.tail) && SameOutside(dev1, dev2, home, home + d.l.Total())
    requires home == if d.bat[k] == UNALLOCATED then d.tail else Home(d.bat[k])
    ensures OtherBlocks(d, dev2, k)
  {
    var t := Table(d.l, d.dev);
    forall i | 0 <= i < |d.bat| && i != k && d.bat[i] != UNALLOCATED
      ensures SameOn(d.dev, dev2, Home(d.bat[i]), Home(d.bat[i]) + d.l.Total())
    {
      assert d.bat[i] == t[i];
      if d.bat[k] != UNALLOCATED {
        assert d.bat[k] == t[k];
        assert Apart(d.l, t[i], t[k]) || Apart(d.l, t[k], t[i]);
      }
    }
  }

  /** The other blocks are untouched. */
  ghost predicate OthersKept(l: Layout, dev: seq<byte>, dev': seq<byte>, bat: seq<nat>, k: nat)
    requires |bat| == l.entries
  {
    forall i, r {:trigger BlockByte(l, dev', bat[i], r, 0)} ::
      0 <= i < l.entries && i != k && 0 <= r < l.blockSize ==>
        BlockByte(l, dev', bat[i], r, 0) == BlockByte(l, dev, bat[i], r, 0)
  }

  /** One block changed, its bytes as `old or new`: the disk changed by part of the chunk. */
  lemma FlatMixed(l: Layout, dev: seq<byte>, dev': seq<byte>, bat: seq<nat>, start: nat, k: nat, inBlock: nat,
    data: seq<byte>)
    requires l.Valid() && |bat| == l.entries && start + |data| <= l.virtualSize
    requires IsAt(l, start, k, inBlock) && inBlock + |data| <= l.blockSize && k < l.entries
    requires OthersKept(l, dev, dev', bat, k)
    requires BlockMixed(l, dev, dev', bat[k], inBlock, data)
    ensures Mixed(Flat(l, dev, bat), Flat(l, dev', bat), start, data)
  {
    var a, b := Flat(l, dev, bat), Flat(l, dev', bat);
    forall v | 0 <= v < l.virtualSize
      ensures b[v] == a[v] || (start <= v < start + |data| && b[v] == data[v - start])
    {
      var i, r := Locate(l, v);
      ChunkIsInBlock(l, start, k, inBlock, |data|, v, i, r);
    }
  }

  /** The same, with the whole chunk landed. */
  lemma FlatLanded(l: Layout, dev: seq<byte>, dev': seq<byte>, bat: seq<nat>, start: nat, k: nat, inBlock: nat,
    data: seq<byte>)
    requires l.Valid() && |bat| == l.entries && start + |data| <= l.virtualSize
    requires IsAt(l, start, k, inBlock) && inBlock + |data| <= l.blockSize && k < l.entries
    requires OthersKept(l, dev, dev', bat, k)
    requires BlockLanded(l, dev, dev', bat[k], inBlock, data)
    ensures Flat(l, dev', bat) == Splice(Flat(l, dev, bat), start, data)
  {
    var a, b := Flat(l, dev, bat), Flat(l, dev', bat);
    var c := Splice(a, start, data);
    forall v | 0 <= v < l.virtualSize ensures b[v] == c[v] {
      var i, r := Locate(l, v);
      ChunkIsInBlock(l, start, k, inBlock, |data|, v, i, r);
      assert At(c, v) == c[v] && At(a, v) == a[v];
    }
  }

  ghost predicate BlockMixed(l: Layout, dev: seq<byte>, dev': seq<byte>, entry: nat, inBlock: nat, data: seq<byte>) {
    forall r {:trigger BlockByte(l, dev', entry, r, 0)} :: 0 <= r < l.blockSize ==>
      || BlockByte(l, dev', entry, r, 0) == BlockByte(l, dev, entry, r, 0)
      || (inBlock <= r < inBlock + |data| && BlockByte(l, dev', entry, r, 0) == data[r - inBlock])
  }

  ghost predicate BlockLanded(l: Layout, dev: seq<byte>, dev': seq<byte>, entry: nat, inBlock: nat, data: seq<byte>) {
    forall r {:trigger BlockByte(l, dev', entry, r, 0)} :: 0 <= r < l.blockSize ==>
      BlockByte(l, dev', entry, r, 0) ==
        if inBlock <= r < inBlock + |data| then data[r - inBlock] else BlockByte(l, dev, entry, r, 0)
  }
}
