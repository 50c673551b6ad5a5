/** What a whole write leaves on the device itself, byte by byte of every block that had a
    place before it, and whether it had to allocate. */
module Landing {
  import opened Bytes
  import opened Format
  import opened Blocks
  import opened Disks
  import opened Images
  import opened Publishing
  import opened Steps

  /** Virtual offset of the first byte of block `i`. */
  function Base(l: Layout, i: nat): nat { i * l.blockSize }

  /** The `len` bytes from `start` and the `n` bytes from `offset` share a byte. */
  predicate Overlaps(start: nat, len: nat, offset: nat, n: nat) {
    n > 0 && start < offset + n && offset < start + len
  }

  /** Byte `r` of the data area of the block at `home`, whose first byte is `base`, after
      `data` was written at `offset`: a sector with a byte of the range is published whole,
      any other keeps what it held, published or not. */
  ghost function WrittenByte(l: Layout, dev: seq<byte>, home: nat, base: nat, offset: nat, data: seq<byte>,
    r: nat): byte
  {
    if offset <= base + r < offset + |data| then data[base + r - offset]
    else if Overlaps(base + r / SECTOR * SECTOR, SECTOR, offset, |data|) then ViewByte(l, dev, home, r, 0)
    else Datum(l, dev, home, r)
  }

  ghost predicate BlockWritten(l: Layout, dev: seq<byte>, dev': seq<byte>, home: nat, base: nat, offset: nat,
    data: seq<byte>)
  {
    && (!Overlaps(base, l.blockSize, offset, |data|) ==> SameOn(dev, dev', home, home + l.Total()))
    && forall r {:trigger Datum(l, dev', home, r)} :: 0 <= r < l.blockSize ==>
         Datum(l, dev', home, r) == WrittenByte(l, dev, home, base, offset, data, r)
  }

  ghost predicate BlocksWritten(d: Disk, dev': seq<byte>, offset: nat, data: seq<byte>) {
    forall i {:trigger d.bat[i]} :: 0 <= i < |d.bat| && d.bat[i] != UNALLOCATED ==>
      BlockWritten(d.l, d.dev, dev', Home(d.bat[i]), Base(d.l, i), offset, data)
  }

  /** Wherever the write was cut short, every byte of every such block is the old one or the
      one that the whole write leaves, and the payload landed in order. */
  ghost predicate BlocksMixed(d: Disk, dev': seq<byte>, offset: nat, data: seq<byte>) {
    forall i {:trigger d.bat[i]} :: 0 <= i < |d.bat| && d.bat[i] != UNALLOCATED ==>
      BlockMixture(d.l, d.dev, dev', Home(d.bat[i]), Base(d.l, i), offset, data)
  }

  ghost predicate BlockMixture(l: Layout, dev: seq<byte>, dev': seq<byte>, home: nat, base: nat, offset: nat,
    data: seq<byte>)
  {
    && (forall r {:trigger Datum(l, dev', home, r)} :: 0 <= r < l.blockSize ==>
          Datum(l, dev', home, r) in {Datum(l, dev, home, r), WrittenByte(l, dev, home, base, offset, data, r)})
    && LandsInOrder(l, dev, dev', home, base, offset, data)
  }

  /** Once a byte of the payload is seen to have landed in the block, every byte of the block
      outside the range is final, and so is every byte below. */
  ghost predicate LandsInOrder(l: Layout, dev: seq<byte>, dev': seq<byte>, home: nat, base: nat, offset: nat,
    data: seq<byte>)
  {
    forall r, s {:trigger Datum(l, dev', home, r), Datum(l, dev', home, s)} ::
      0 <= r < l.blockSize && 0 <= s < l.blockSize && offset <= base + s < offset + |data|
      && Datum(l, dev', home, s) != Datum(l, dev, home, s)
      && (r < s || !(offset <= base + r < offset + |data|)) ==>
        Datum(l, dev', home, r) == WrittenByte(l, dev, home, base, offset, data, r)
  }

  // ---- Which blocks a write must allocate, and whether they can be named ----

  /** Block `b` holds a byte of the range. */
  ghost predicate Reaches(l: Layout, offset: nat, n: nat, b: nat)
    requires l.blockSize > 0
  {
    exists v: nat {:trigger BlockIndex(l, v)} :: offset <= v < offset + n && BlockIndex(l, v) == b
  }

  /** The blocks of the range that have no place yet. */
  ghost function Unplaced(l: Layout, bat: seq<nat>, offset: nat, n: nat): set<nat>
    requires l.blockSize > 0
  {
    set b: nat | b < |bat| && bat[b] == UNALLOCATED && Reaches(l, offset, n, b)
  }

  /** The tail after `n` allocations. */
  ghost function TailAfter(l: Layout, tail: nat, n: nat): nat {
    if n == 0 then tail else TailAfter(l, tail, n - 1) + l.Total()
  }

  /** A table entry can name each of `n` blocks placed from `tail` on. */
  ghost predicate Nameable(l: Layout, tail: nat, n: nat) {
    n == 0 || TailAfter(l, tail, n - 1) / SECTOR < UNALLOCATED
  }

  lemma {:induction false} TailAfterRises(l: Layout, tail: nat, m: nat, n: nat)
    requires m <= n
    ensures TailAfter(l, tail, m) <= TailAfter(l, tail, n)
  {
    if m < n {
      TailAfterRises(l, tail, m, n - 1);
    }
  }

  /** The table can name a place for every block that the write must allocate. */
  ghost predicate Room(d: Disk, offset: nat, n: nat)
    requires d.l.blockSize > 0
  {
    Nameable(d.l, d.tail, |Unplaced(d.l, d.bat, offset, n)|)
  }

  /** Exactly the blocks of the range that had no place have been given one, each once. */
  ghost predicate Allotted(d0: Disk, d1: Disk, offset: nat, n: nat)
    requires d0.l.blockSize > 0
  {
    && d1.l == d0.l && |d1.bat| == |d0.bat|
    && (forall i {:trigger d1.bat[i]} :: 0 <= i < |d0.bat| ==>
          if d0.bat[i] != UNALLOCATED then d1.bat[i] == d0.bat[i]
          else d1.bat[i] != UNALLOCATED <==> i in Unplaced(d0.l, d0.bat, offset, n))
    && d1.tail == TailAfter(d0.l, d0.tail, |Unplaced(d0.l, d0.bat, offset, n)|)
    && Room(d0, offset, n)
  }

  /** A write landed whole: its bytes are in the blocks, and if it allocated, the image can be
      reopened from either footer. */
  ghost predicate Landed(d0: Disk, d1: Disk, offset: nat, data: seq<byte>, footer: seq<byte>)
    requires d0.l.blockSize > 0
  {
    && BlocksWritten(d0, d1.dev, offset, data)
    && Allotted(d0, d1, offset, |data|)
    && (Unplaced(d0.l, d0.bat, offset, |data|) == {} ==> |d1.dev| == |d0.dev|)
    && (Unplaced(d0.l, d0.bat, offset, |data|) != {} && Anchored(d0.l, d0.dev, footer) ==> Recoverable(d1, footer))
  }

  lemma NothingLanded(d: Disk, offset: nat, footer: seq<byte>)
    requires d.l.blockSize > 0
    ensures Unplaced(d.l, d.bat, offset, 0) == {}
    ensures Allotted(d, d, offset, 0) && Landed(d, d, offset, [], footer)
  {
    assert Unplaced(d.l, d.bat, offset, 0) == {};
  }

  // ---- One chunk further ----

  /** Sectors and blocks do not straddle a block's end. */
  lemma SectorInBlock(l: Layout, r: nat)
    requires l.Valid() && r < l.blockSize
    ensures r / SECTOR * SECTOR <= r && r / SECTOR * SECTOR + SECTOR <= l.blockSize
  {
  }

  lemma BasesApart(l: Layout, i: nat, k: nat)
    requires i != k
    ensures Base(l, i) + l.blockSize <= Base(l, k) || Base(l, k) + l.blockSize <= Base(l, i)
  {
    if i < k {
      MulMonotone(i + 1, k, l.blockSize);
    } else {
      MulMonotone(k + 1, i, l.blockSize);
    }
  }

  /** A chunk of another block changes nothing here. */
  lemma OtherBlockStays(l: Layout, dev0: seq<byte>, dev: seq<byte>, dev': seq<byte>, home: nat, base: nat, offset: nat,
    data: seq<byte>, done: nat, n: nat)
    requires l.Valid() && done + n <= |data| && n > 0
    requires BlockWritten(l, dev0, dev, home, base, offset, data[..done])
    requires SameOn(dev, dev', home, home + l.Total())
    requires base + l.blockSize <= offset + done || offset + done + n <= base
    ensures BlockWritten(l, dev0, dev', home, base, offset, data[..done + n])
  {
    forall r | 0 <= r < l.blockSize
      ensures Datum(l, dev', home, r) == WrittenByte(l, dev0, home, base, offset, data[..done + n], r)
    {
      SectorInBlock(l, r);
      assert Datum(l, dev', home, r) == Datum(l, dev, home, r);
    }
  }

  /** A chunk of this block, the first to reach it, changes it as the range says. */
  lemma OwnBlockLands(l: Layout, dev0: seq<byte>, dev: seq<byte>, dev': seq<byte>, home: nat, base: nat, offset: nat,
    data: seq<byte>, done: nat, n: nat, inBlock: nat)
    requires l.Valid() && done + n <= |data| && n > 0
    requires BlockWritten(l, dev0, dev, home, base, offset, data[..done])
    requires offset + done == base + inBlock && inBlock + n <= l.blockSize && (done == 0 || inBlock == 0)
    requires RawLanded(l, dev, dev', home, inBlock, data[done..done + n])
    ensures BlockWritten(l, dev0, dev', home, base, offset, data[..done + n])
  {
    forall r | 0 <= r < l.blockSize
      ensures Datum(l, dev', home, r) == WrittenByte(l, dev0, home, base, offset, data[..done + n], r)
    {
      SectorInBlock(l, r);
      ViewFrame(l, dev0, dev, home, r, 0);
      TouchedIsOverlap(inBlock, n, r / SECTOR);
      assert Datum(l, dev, home, r) == Datum(l, dev0, home, r);
    }
  }

  lemma TouchedIsOverlap(inBlock: nat, n: nat, s: nat)
    requires n > 0
    ensures Touched(inBlock, n, s) <==> Overlaps(s * SECTOR, SECTOR, inBlock, n)
  {
  }

  lemma BlocksExtend(d0: Disk, d1: Disk, dev': seq<byte>, offset: nat, data: seq<byte>, done: nat, n: nat,
    k: nat, inBlock: nat)
    requires d0.l.Valid() && d1.l == d0.l && |d1.bat| == |d0.bat| && done + n <= |data| && n > 0 && k < |d0.bat|
    requires forall i :: 0 <= i < |d0.bat| && d0.bat[i] != UNALLOCATED ==> d1.bat[i] == d0.bat[i]
    requires BlocksWritten(d0, d1.dev, offset, data[..done])
    requires offset + done == Base(d0.l, k) + inBlock && inBlock + n <= d0.l.blockSize && (done == 0 || inBlock == 0)
    requires OtherBlocks(d1, dev', k)
    requires d0.bat[k] != UNALLOCATED ==> RawLanded(d0.l, d1.dev, dev', Home(d0.bat[k]), inBlock, data[done..done + n])
    ensures BlocksWritten(d0, dev', offset, data[..done + n])
  {
    hide BlockWritten, RawLanded, Base;
    forall i | 0 <= i < |d0.bat| && d0.bat[i] != UNALLOCATED
      ensures BlockWritten(d0.l, d0.dev, dev', Home(d0.bat[i]), Base(d0.l, i), offset, data[..done + n])
    {
      if i == k {
        OwnBlockLands(d0.l, d0.dev, d1.dev, dev', Home(d0.bat[i]), Base(d0.l, i), offset, data, done, n, inBlock);
      } else {
        assert d1.bat[i] == d0.bat[i];
        BasesApart(d0.l, i, k);
        OtherBlockStays(d0.l, d0.dev, d1.dev, dev', Home(d0.bat[i]), Base(d0.l, i), offset, data, done, n);
      }
    }
  }

  /** The bytes before a chunk that starts its block, or starts the write, are in other blocks. */
  lemma UnplacedExtends(l: Layout, bat: seq<nat>, offset: nat, done: nat, n: nat, k: nat, inBlock: nat)
    requires l.blockSize > 0 && n > 0 && k < |bat|
    requires IsAt(l, offset + done, k, inBlock) && inBlock + n <= l.blockSize && (done == 0 || inBlock == 0)
    ensures k !in Unplaced(l, bat, offset, done)
    ensures Unplaced(l, bat, offset, done + n) ==
            Unplaced(l, bat, offset, done) + if bat[k] == UNALLOCATED then {k} else {}
  {
    forall v: nat | offset <= v < offset + done + n ensures BlockIndex(l, v) == k <==> offset + done <= v {
      ChunkIsInBlock(l, offset + done, k, inBlock, n, v, BlockIndex(l, v), InBlock(l, v));
    }
    assert BlockIndex(l, offset + done) == k;
    ReachesMore(l, offset, done, n, k);
  }

  lemma ReachesMore(l: Layout, offset: nat, done: nat, n: nat, k: nat)
    requires l.blockSize > 0 && n > 0
    requires forall v: nat {:trigger BlockIndex(l, v)} :: offset <= v < offset + done + n ==>
               (BlockIndex(l, v) == k <==> offset + done <= v)
    ensures forall b {:trigger Reaches(l, offset, done + n, b)} ::
              Reaches(l, offset, done + n, b) <==> Reaches(l, offset, done, b) || b == k
    ensures !Reaches(l, offset, done, k)
  {
    assert BlockIndex(l, offset + done) == k;
    forall b | Reaches(l, offset, done, b) ensures Reaches(l, offset, done + n, b) {
      var v: nat :| offset <= v < offset + done && BlockIndex(l, v) == b;
    }
  }

  /** One chunk further, one allocation at most. */
  lemma ChunkAllotted(d0: Disk, d1: Disk, d2: Disk, offset: nat, done: nat, n: nat, k: nat, inBlock: nat)
    requires d0.l.blockSize > 0 && Allotted(d0, d1, offset, done) && n > 0 && k < |d1.bat|
    requires IsAt(d0.l, offset + done, k, inBlock) && inBlock + n <= d0.l.blockSize && (done == 0 || inBlock == 0)
    requires d2.l == d1.l
    requires d1.bat[k] != UNALLOCATED ==> d2.bat == d1.bat && d2.tail == d1.tail
    requires d1.bat[k] == UNALLOCATED ==>
               && d1.tail / SECTOR < UNALLOCATED && d2.bat == d1.bat[k := d1.tail / SECTOR]
               && d2.tail == d1.tail + d1.l.Total()
    ensures d0.bat[k] == d1.bat[k] && Allotted(d0, d2, offset, done + n)
  {
    hide Reaches, IsAt;
    UnplacedExtends(d0.l, d0.bat, offset, done, n, k, inBlock);
    var was, now := Unplaced(d0.l, d0.bat, offset, done), Unplaced(d0.l, d0.bat, offset, done + n);
    assert |now| == |was| + if d0.bat[k] == UNALLOCATED then 1 else 0;
  }

  /** A chunk with nowhere to go shows that there was no room for the whole write. */
  lemma NoRoomAhead(d0: Disk, d1: Disk, offset: nat, size: nat, done: nat, n: nat, k: nat, inBlock: nat)
    requires d0.l.blockSize > 0 && Allotted(d0, d1, offset, done) && n > 0 && k < |d1.bat| && done + n <= size
    requires IsAt(d0.l, offset + done, k, inBlock) && inBlock + n <= d0.l.blockSize && (done == 0 || inBlock == 0)
    requires d1.bat[k] == UNALLOCATED && d1.tail / SECTOR >= UNALLOCATED
    ensures !Room(d0, offset, size)
  {
    hide IsAt, Reaches, Unplaced;
    UnplacedExtends(d0.l, d0.bat, offset, done, n, k, inBlock);
    UnplacedRises(d0.l, d0.bat, offset, done + n, size);
    var was, all := Unplaced(d0.l, d0.bat, offset, done), Unplaced(d0.l, d0.bat, offset, size);
    OneMore(was, all, k);
    TailAfterRises(d0.l, d0.tail, |was|, |all| - 1);
  }

  lemma UnplacedRises(l: Layout, bat: seq<nat>, offset: nat, m: nat, n: nat)
    requires l.blockSize > 0 && m <= n
    ensures Unplaced(l, bat, offset, m) <= Unplaced(l, bat, offset, n)
  {
    forall b | b in Unplaced(l, bat, offset, m) ensures Reaches(l, offset, n, b) {
      var v: nat :| offset <= v < offset + m && BlockIndex(l, v) == b;
    }
  }

  lemma OneMore(was: set<nat>, all: set<nat>, k: nat)
    requires was <= all && k in all && k !in was
    ensures |was| + 1 <= |all|
  {
    assert all == was + (all - was) && k in all - was;
  }

  /** One chunk more of the write landed. */
  lemma ChunkLands(d0: Disk, d1: Disk, d2: Disk, offset: nat, data: seq<byte>, done: nat, n: nat, k: nat,
    inBlock: nat, footer: seq<byte>)
    requires d0.l.Valid() && done + n <= |data| && n > 0 && k < |d1.bat| && |d1.bat| == |d0.bat|
    requires Keeps(d0, d1, footer) && Keeps(d1, d2, footer) && Landed(d0, d1, offset, data[..done], footer)
    requires IsAt(d0.l, offset + done, k, inBlock) && inBlock + n <= d0.l.blockSize && (done == 0 || inBlock == 0)
    requires OtherBlocks(d1, d2.dev, k)
    requires d1.bat[k] != UNALLOCATED ==>
               && |d2.dev| == |d1.dev| && d2.tail == d1.tail && d2.bat == d1.bat
               && RawLanded(d1.l, d1.dev, d2.dev, Home(d1.bat[k]), inBlock, data[done..done + n])
    requires d1.bat[k] == UNALLOCATED ==>
               && d1.tail / SECTOR < UNALLOCATED && d2.bat == d1.bat[k := d1.tail / SECTOR]
               && d2.tail == d1.tail + d1.l.Total()
               && (Anchored(d1.l, d1.dev, footer) ==> Recoverable(d2, footer))
    ensures Landed(d0, d2, offset, data[..done + n], footer)
  {
    hide Inv, Anchored, Recoverable, BlocksWritten, OtherBlocks, RawLanded, Allotted, Unplaced, IsAt, Base;
    KeepsCached(d0, d1, footer);
    KeepsCached(d1, d2, footer);
    BaseOf(d0.l, offset + done, k, inBlock);
    BlocksExtend(d0, d1, d2.dev, offset, data, done, n, k, inBlock);
    UnplacedExtends(d0.l, d0.bat, offset, done, n, k, inBlock);
    ChunkAllotted(d0, d1, d2, offset, done, n, k, inBlock);
  }

  // ---- A write cut short ----

  /** What the write leaves in a block is decided by the bytes up to the block's end. */
  lemma SameInBlock(l: Layout, dev: seq<byte>, home: nat, base: nat, offset: nat, data: seq<byte>, m: nat, r: nat)
    requires l.Valid() && r < l.blockSize && m <= |data| && (m == |data| || base + l.blockSize <= offset + m)
    ensures WrittenByte(l, dev, home, base, offset, data[..m], r) == WrittenByte(l, dev, home, base, offset, data, r)
  {
    SectorInBlock(l, r);
    assert m == |data| ==> data[..m] == data;
  }

  /** A block past the chunk that was cut short, or before it. */
  lemma OtherBlockMixed(l: Layout, dev0: seq<byte>, dev: seq<byte>, dev': seq<byte>, home: nat, base: nat, offset: nat,
    data: seq<byte>, done: nat)
    requires l.Valid() && done <= |data| && BlockWritten(l, dev0, dev, home, base, offset, data[..done])
    requires SameOn(dev, dev', home, home + l.Total())
    requires base + l.blockSize <= offset + done || offset + done <= base
    ensures BlockMixture(l, dev0, dev', home, base, offset, data)
  {
    forall r | 0 <= r < l.blockSize
      ensures Datum(l, dev', home, r) ==
              if base + l.blockSize <= offset + done then WrittenByte(l, dev0, home, base, offset, data, r)
              else Datum(l, dev0, home, r)
    {
      SectorInBlock(l, r);
      assert Datum(l, dev', home, r) == Datum(l, dev, home, r);
      if base + l.blockSize <= offset + done {
        SameInBlock(l, dev0, home, base, offset, data, done, r);
      }
    }
  }

  /** In the block that the chunk lies in, the first to reach it, the chunk alone decides. */
  lemma ChunkDecides(l: Layout, dev0: seq<byte>, dev: seq<byte>, home: nat, base: nat, offset: nat, data: seq<byte>,
    done: nat, n: nat, inBlock: nat, r: nat)
    requires l.Valid() && done + n <= |data| && n > 0 && r < l.blockSize
    requires BlockWritten(l, dev0, dev, home, base, offset, data[..done])
    requires offset + done == base + inBlock && inBlock + n <= l.blockSize && (done == 0 || inBlock == 0)
    requires done + n == |data| || inBlock + n == l.blockSize
    ensures Datum(l, dev, home, r) == Datum(l, dev0, home, r)
    ensures inBlock <= r < inBlock + n <==> offset <= base + r < offset + |data|
    ensures RawByte(l, dev, home, inBlock, data[done..done + n], r) ==
            WrittenByte(l, dev0, home, base, offset, data, r)
  {
    SectorInBlock(l, r);
    ViewFrame(l, dev0, dev, home, r, 0);
    TouchedIsOverlap(inBlock, n, r / SECTOR);
    SameInBlock(l, dev0, home, base, offset, data, done + n, r);
  }

  /** The block whose chunk was cut short. */
  lemma OwnBlockMixed(l: Layout, dev0: seq<byte>, dev: seq<byte>, dev': seq<byte>, home: nat, base: nat, offset: nat,
    data: seq<byte>, done: nat, n: nat, inBlock: nat)
    requires l.Valid() && done + n <= |data| && n > 0
    requires BlockWritten(l, dev0, dev, home, base, offset, data[..done])
    requires offset + done == base + inBlock && inBlock + n <= l.blockSize && (done == 0 || inBlock == 0)
    requires done + n == |data| || inBlock + n == l.blockSize
    requires RawMixed(l, dev, dev', home, inBlock, data[done..done + n])
    ensures BlockMixture(l, dev0, dev', home, base, offset, data)
  {
    hide BlockWritten, Datum, RawByte, WrittenByte;
    forall r: int {:trigger Datum(l, dev', home, r)} | 0 <= r < l.blockSize
      ensures Datum(l, dev, home, r) == Datum(l, dev0, home, r)
      ensures inBlock <= r < inBlock + n <==> offset <= base + r < offset + |data|
      ensures RawByte(l, dev, home, inBlock, data[done..done + n], r) ==
              WrittenByte(l, dev0, home, base, offset, data, r)
    {
      ChunkDecides(l, dev0, dev, home, base, offset, data, done, n, inBlock, r);
    }
  }

  /** Whole chunks and then one that was cut short. */
  lemma ChunkSpreads(d0: Disk, d1: Disk, dev': seq<byte>, offset: nat, data: seq<byte>, done: nat, n: nat, k: nat,
    inBlock: nat)
    requires d0.l.Valid() && d1.l == d0.l && |d1.bat| == |d0.bat| && done + n <= |data| && n > 0 && k < |d0.bat|
    requires forall i :: 0 <= i < |d0.bat| && d0.bat[i] != UNALLOCATED ==> d1.bat[i] == d0.bat[i]
    requires BlocksWritten(d0, d1.dev, offset, data[..done])
    requires offset + done == Base(d0.l, k) + inBlock && inBlock + n <= d0.l.blockSize && (done == 0 || inBlock == 0)
    requires done + n == |data| || inBlock + n == d0.l.blockSize
    requires OtherBlocks(d1, dev', k)
    requires d0.bat[k] != UNALLOCATED ==> RawMixed(d0.l, d1.dev, dev', Home(d0.bat[k]), inBlock, data[done..done + n])
    ensures BlocksMixed(d0, dev', offset, data)
  {
    hide BlockWritten, RawMixed, BlockMixture, Base;
    forall i | 0 <= i < |d0.bat| && d0.bat[i] != UNALLOCATED
      ensures BlockMixture(d0.l, d0.dev, dev', Home(d0.bat[i]), Base(d0.l, i), offset, data)
    {
      if i == k {
        OwnBlockMixed(d0.l, d0.dev, d1.dev, dev', Home(d0.bat[i]), Base(d0.l, i), offset, data, done, n, inBlock);
      } else {
        assert d1.bat[i] == d0.bat[i];
        BasesApart(d0.l, i, k);
        OtherBlockMixed(d0.l, d0.dev, d1.dev, dev', Home(d0.bat[i]), Base(d0.l, i), offset, data, done);
      }
    }
  }

  /** A write that landed whole is a mixture too. */
  lemma LandedSpreads(d0: Disk, dev': seq<byte>, offset: nat, data: seq<byte>)
    requires BlocksWritten(d0, dev', offset, data)
    ensures BlocksMixed(d0, dev', offset, data)
  {
  }

  lemma LandedIsMixture(d0: Disk, d1: Disk, offset: nat, data: seq<byte>, footer: seq<byte>)
    requires d0.l.blockSize > 0 && Landed(d0, d1, offset, data, footer)
    ensures BlocksMixed(d0, d1.dev, offset, data)
  {
    LandedSpreads(d0, d1.dev, offset, data);
  }

  lemma NothingSpread(d: Disk, offset: nat, data: seq<byte>)
    ensures BlocksMixed(d, d.dev, offset, data)
  {
  }

  lemma AllottedHadRoom(d0: Disk, d1: Disk, offset: nat, n: nat)
    requires d0.l.blockSize > 0 && Allotted(d0, d1, offset, n)
    ensures Room(d0, offset, n)
  {
  }

  lemma CutShort(d0: Disk, d1: Disk, dev': seq<byte>, offset: nat, data: seq<byte>, done: nat, n: nat, k: nat,
    inBlock: nat, footer: seq<byte>)
    requires d0.l.Valid() && done + n <= |data| && n > 0 && k < |d1.bat| && |d1.bat| == |d0.bat|
    requires Keeps(d0, d1, footer) && Landed(d0, d1, offset, data[..done], footer)
    requires IsAt(d0.l, offset + done, k, inBlock) && inBlock + n <= d0.l.blockSize && (done == 0 || inBlock == 0)
    requires done + n == |data| || inBlock + n == d0.l.blockSize
    requires OtherBlocks(d1, dev', k)
    requires d1.bat[k] != UNALLOCATED ==> RawMixed(d1.l, d1.dev, dev', Home(d1.bat[k]), inBlock, data[done..done + n])
    ensures BlocksMixed(d0, dev', offset, data)
  {
    hide Inv, Anchored, Recoverable, BlocksWritten, BlocksMixed, OtherBlocks, RawMixed, Allotted, Unplaced, IsAt, Base;
    KeepsCached(d0, d1, footer);
    BaseOf(d0.l, offset + done, k, inBlock);
    ChunkSpreads(d0, d1, dev', offset, data, done, n, k, inBlock);
  }

  /** One chunk more of a write: the disk so far is the splice of what has landed. */
  lemma ChunkDone(d0: Disk, d1: Disk, d2: Disk, offset: nat, data: seq<byte>, done: nat, n: nat, k: nat,
    inBlock: nat, footer: seq<byte>)
    requires d0.l.Valid() && done + n <= |data| && n > 0 && k < |d1.bat| && |d1.bat| == |d0.bat|
    requires Keeps(d0, d1, footer) && Keeps(d1, d2, footer) && Landed(d0, d1, offset, data[..done], footer)
    requires IsAt(d0.l, offset + done, k, inBlock) && inBlock + n <= d0.l.blockSize && (done == 0 || inBlock == 0)
    requires OtherBlocks(d1, d2.dev, k)
    requires d1.bat[k] != UNALLOCATED ==>
               && |d2.dev| == |d1.dev| && d2.tail == d1.tail && d2.bat == d1.bat
               && RawLanded(d1.l, d1.dev, d2.dev, Home(d1.bat[k]), inBlock, data[done..done + n])
    requires d1.bat[k] == UNALLOCATED ==>
               && d1.tail / SECTOR < UNALLOCATED && d2.bat == d1.bat[k := d1.tail / SECTOR]
               && d2.tail == d1.tail + d1.l.Total()
               && (Anchored(d1.l, d1.dev, footer) ==> Recoverable(d2, footer))
    requires d1.l == d0.l && d2.l == d0.l && offset + |data| <= d0.l.virtualSize
    requires Contents(d1) == Splice(Contents(d0), offset, data[..done])
    requires Contents(d2) == Splice(Contents(d1), offset + done, data[done..done + n])
    ensures Keeps(d0, d2, footer) && Landed(d0, d2, offset, data[..done + n], footer)
    ensures Contents(d2) == Splice(Contents(d0), offset, data[..done + n])
  {
    hide Inv, Keeps, Flat, Landed, OtherBlocks, RawLanded, Anchored, Recoverable, IsAt, Splice;
    KeepsTransitive(d0, d1, d2, footer);
    SpliceExtends(Contents(d0), offset, data, done, n);
    ChunkLands(d0, d1, d2, offset, data, done, n, k, inBlock, footer);
  }

  /** Or that chunk was cut short. */
  lemma ChunkFailed(d0: Disk, d1: Disk, d2: Disk, offset: nat, data: seq<byte>, done: nat, n: nat, k: nat,
    inBlock: nat, footer: seq<byte>)
    requires d0.l.Valid() && done + n <= |data| && n > 0 && k < |d1.bat| && |d1.bat| == |d0.bat|
    requires Keeps(d0, d1, footer) && Keeps(d1, d2, footer) && Landed(d0, d1, offset, data[..done], footer)
    requires IsAt(d0.l, offset + done, k, inBlock) && inBlock + n <= d0.l.blockSize && (done == 0 || inBlock == 0)
    requires done + n == |data| || inBlock + n == d0.l.blockSize
    requires OtherBlocks(d1, d2.dev, k)
    requires d1.bat[k] != UNALLOCATED ==> RawMixed(d1.l, d1.dev, d2.dev, Home(d1.bat[k]), inBlock, data[done..done + n])
    requires d1.l == d0.l && d2.l == d0.l && offset + |data| <= d0.l.virtualSize
    requires Contents(d1) == Splice(Contents(d0), offset, data[..done])
    requires Mixed(Contents(d1), Contents(d2), offset + done, data[done..done + n])
    ensures Keeps(d0, d2, footer) && BlocksMixed(d0, d2.dev, offset, data)
    ensures Mixed(Contents(d0), Contents(d2), offset, data)
  {
    hide Inv, Keeps, Flat, Landed, OtherBlocks, RawMixed, BlocksMixed, Mixed, IsAt, Splice;
    KeepsTransitive(d0, d1, d2, footer);
    MixedAfterSplice(Contents(d0), Contents(d2), offset, data, done, n);
    CutShort(d0, d1, d2.dev, offset, data, done, n, k, inBlock, footer);
  }

  /** A chunk that runs to the end of its block leaves the next one at a block's start. */
  lemma NextBlockStarts(l: Layout, v: nat, k: nat, inBlock: nat, n: nat)
    requires l.blockSize > 0 && IsAt(l, v, k, inBlock) && inBlock + n == l.blockSize
    ensures IsAt(l, v + n, k + 1, 0)
  {
    BaseOf(l, v, k, inBlock);
    DivMod(v + n, l.blockSize, k + 1, 0);
  }

  lemma BaseOf(l: Layout, v: nat, k: nat, inBlock: nat)
    requires l.blockSize > 0 && IsAt(l, v, k, inBlock)
    ensures v == Base(l, k) + inBlock
  {
    Remainder(v, l.blockSize);
  }
}
