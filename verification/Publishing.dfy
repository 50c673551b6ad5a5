/** Publishing part of a block: the bitmap describes whole sectors, a write covers bytes.

    A clear bit leaves a sector's data bytes undefined, so setting it publishes whatever
    the uncovered part of the sector holds.  The uncovered parts are defined first, then
    the payload lands, then the bits are set. */
module Publishing {
  import opened Bytes
  import opened Format
  import opened Blocks
  import opened Disks

  /** Sector `s` holds at least one byte of `[inBlock, inBlock + n)`. */
  predicate Touched(inBlock: nat, n: nat, s: nat)
    requires n > 0
  {
    inBlock / SECTOR <= s <= (inBlock + n - 1) / SECTOR
  }

  ghost predicate SameViews(l: Layout, dev: seq<byte>, dev': seq<byte>, home: nat) {
    && (forall s {:trigger Present(dev', home, s)} :: 0 <= s < l.blockSize / SECTOR ==>
          Present(dev', home, s) == Present(dev, home, s))
    && (forall r {:trigger ViewByte(l, dev', home, r, 0)} :: 0 <= r < l.blockSize ==>
          ViewByte(l, dev', home, r, 0) == ViewByte(l, dev, home, r, 0))
  }

  /** Every uncovered byte of sector `s` reads zero from the data area, if the bit is clear. */
  ghost predicate SectorDefined(l: Layout, dev: seq<byte>, home: nat, inBlock: nat, n: nat, s: nat) {
    !Present(dev, home, s) ==>
      forall r {:trigger Datum(l, dev, home, r)} ::
        s * SECTOR <= r < s * SECTOR + SECTOR && !(inBlock <= r < inBlock + n) ==>
          Datum(l, dev, home, r) == 0
  }

  ghost predicate PartialsDefined(l: Layout, dev: seq<byte>, home: nat, inBlock: nat, n: nat)
    requires n > 0
  {
    forall s {:trigger Touched(inBlock, n, s)} :: 0 <= s && Touched(inBlock, n, s) ==>
      SectorDefined(l, dev, home, inBlock, n, s)
  }

  /** Outside the range, every data byte is what it was or, in a touched sector, what a reader
      saw there; inside it nothing moved. */
  ghost predicate UncoveredMixed(l: Layout, dev: seq<byte>, dev': seq<byte>, home: nat, inBlock: nat, n: nat)
    requires n > 0
  {
    forall r {:trigger Datum(l, dev', home, r)} :: 0 <= r < l.blockSize ==>
      || Datum(l, dev', home, r) == Datum(l, dev, home, r)
      || (Touched(inBlock, n, r / SECTOR) && !(inBlock <= r < inBlock + n)
          && Datum(l, dev', home, r) == ViewByte(l, dev, home, r, 0))
  }

  /** The payload is in the data area and nothing has been published yet. */
  ghost predicate Staged(l: Layout, dev: seq<byte>, dev': seq<byte>, home: nat, inBlock: nat, data: seq<byte>)
    requires |data| > 0
  {
    && (forall r {:trigger Datum(l, dev', home, r)} :: inBlock <= r < inBlock + |data| ==>
          Datum(l, dev', home, r) == data[r - inBlock])
    && (forall s {:trigger Present(dev', home, s)} :: 0 <= s < l.blockSize / SECTOR ==>
          Present(dev', home, s) == Present(dev, home, s))
    && (forall r {:trigger Datum(l, dev', home, r)} ::
          0 <= r < l.blockSize && !(inBlock <= r < inBlock + |data|) ==>
            if Present(dev, home, r / SECTOR) then Datum(l, dev', home, r) == Datum(l, dev, home, r)
            else Touched(inBlock, |data|, r / SECTOR) ==> Datum(l, dev', home, r) == 0)
    && (forall r {:trigger Datum(l, dev', home, r)} :: 0 <= r < l.blockSize && !Touched(inBlock, |data|, r / SECTOR) ==>
          Datum(l, dev', home, r) == Datum(l, dev, home, r))
  }

  /** What the device itself holds for byte `r` of a block after a chunk: the payload where it
      landed, what a reader saw in the rest of a touched sector, the old byte elsewhere. */
  ghost function RawByte(l: Layout, dev: seq<byte>, home: nat, inBlock: nat, data: seq<byte>, r: nat): byte
    requires |data| > 0
  {
    if inBlock <= r < inBlock + |data| then data[r - inBlock]
    else if Touched(inBlock, |data|, r / SECTOR) then ViewByte(l, dev, home, r, 0)
    else Datum(l, dev, home, r)
  }

  ghost predicate RawLanded(l: Layout, dev: seq<byte>, dev': seq<byte>, home: nat, inBlock: nat, data: seq<byte>)
    requires |data| > 0
  {
    forall r {:trigger Datum(l, dev', home, r)} :: 0 <= r < l.blockSize ==>
      Datum(l, dev', home, r) == RawByte(l, dev, home, inBlock, data, r)
  }

  /** Wherever the chunk was cut short, every byte is the old one or the final one. */
  ghost predicate RawMixed(l: Layout, dev: seq<byte>, dev': seq<byte>, home: nat, inBlock: nat, data: seq<byte>)
    requires |data| > 0
  {
    && (forall r {:trigger Datum(l, dev', home, r)} :: 0 <= r < l.blockSize ==>
          Datum(l, dev', home, r) in {Datum(l, dev, home, r), RawByte(l, dev, home, inBlock, data, r)})
    && RawInOrder(l, dev, dev', home, inBlock, data)
  }

  /** Once a byte of the payload is seen to have landed, every byte outside its range is final,
      and so is every byte below. */
  ghost predicate RawInOrder(l: Layout, dev: seq<byte>, dev': seq<byte>, home: nat, inBlock: nat, data: seq<byte>)
    requires |data| > 0
  {
    forall r, s {:trigger Datum(l, dev', home, r), Datum(l, dev', home, s)} ::
      0 <= r < l.blockSize && 0 <= s < l.blockSize && inBlock <= s < inBlock + |data|
      && Datum(l, dev', home, s) != Datum(l, dev, home, s)
      && (r < s || !(inBlock <= r < inBlock + |data|)) ==>
        Datum(l, dev', home, r) == RawByte(l, dev, home, inBlock, data, r)
  }

  /** The bitmap write leaves the data bytes alone. */
  lemma BitmapWriteRaw(l: Layout, was: seq<byte>, dev: seq<byte>, dev': seq<byte>, home: nat, inBlock: nat,
    data: seq<byte>)
    requires |data| > 0 && SameOutside(dev, dev', home, home + l.bitmapSize)
    ensures Staged(l, was, dev, home, inBlock, data) ==> RawLanded(l, was, dev', home, inBlock, data)
    ensures RawMixed(l, was, dev, home, inBlock, data) ==> RawMixed(l, was, dev', home, inBlock, data)
  {
    forall r | 0 <= r < l.blockSize ensures Datum(l, dev', home, r) == Datum(l, dev, home, r) {
    }
  }

  /** Part of the payload after the uncovered parts are defined. */
  lemma PayloadRaw(l: Layout, was: seq<byte>, dev: seq<byte>, dev': seq<byte>, home: nat, inBlock: nat, data: seq<byte>,
    k: nat)
    requires l.Valid() && |data| > 0 && inBlock + |data| <= l.blockSize && k <= |data|
    requires UncoveredMixed(l, was, dev, home, inBlock, |data|) && home + l.bitmapSize + inBlock + k <= |dev|
    requires SameViews(l, was, dev, home) && PartialsDefined(l, dev, home, inBlock, |data|)
    requires dev' == Splice(dev, home + l.bitmapSize + inBlock, data[..k])
    ensures RawMixed(l, was, dev', home, inBlock, data)
  {
    hide SameViews, PartialsDefined;
    forall r | 0 <= r < l.blockSize
      ensures Datum(l, dev', home, r) ==
              if inBlock + k <= r < inBlock + |data| then Datum(l, was, home, r)
              else RawByte(l, was, home, inBlock, data, r)
    {
      assert Datum(l, dev', home, r) ==
             if inBlock <= r < inBlock + k then data[r - inBlock] else Datum(l, dev, home, r);
      if inBlock <= r < inBlock + |data| {
        assert Datum(l, dev, home, r) == Datum(l, was, home, r);
      } else {
        DefinedIsRaw(l, was, dev, home, inBlock, data, r);
      }
    }
  }

  /** Once the partly covered sectors are defined, what the payload will not cover is final. */
  lemma DefinedIsRaw(l: Layout, was: seq<byte>, dev: seq<byte>, home: nat, inBlock: nat, data: seq<byte>, r: nat)
    requires l.Valid() && |data| > 0 && r < l.blockSize && !(inBlock <= r < inBlock + |data|)
    requires UncoveredMixed(l, was, dev, home, inBlock, |data|)
    requires SameViews(l, was, dev, home) && PartialsDefined(l, dev, home, inBlock, |data|)
    ensures Datum(l, dev, home, r) == RawByte(l, was, home, inBlock, data, r)
  {
    var s := r / SECTOR;
    assert Present(dev, home, s) == Present(was, home, s);
    if Touched(inBlock, |data|, s) {
      assert SectorDefined(l, dev, home, inBlock, |data|, s);
    }
    assert Datum(l, dev, home, r) == Datum(l, dev, home, r);
  }

  lemma UncoveredIsRaw(l: Layout, dev: seq<byte>, dev': seq<byte>, home: nat, inBlock: nat, data: seq<byte>)
    requires |data| > 0 && UncoveredMixed(l, dev, dev', home, inBlock, |data|)
    ensures RawMixed(l, dev, dev', home, inBlock, data)
  {
  }

  /** Zeros over uncovered bytes of one touched sector whose bit is clear. */
  lemma SectorWriteUncovered(l: Layout, dev: seq<byte>, dev': seq<byte>, home: nat, inBlock: nat, n: nat, sector: nat)
    requires n > 0 && Touched(inBlock, n, sector) && !Present(dev, home, sector)
    requires forall a {:trigger At(dev', a)} ::
               || At(dev', a) == At(dev, a)
               || (UncoveredAt(l, home, inBlock, n, sector, a) && At(dev', a) == 0)
    ensures UncoveredMixed(l, dev, dev', home, inBlock, n)
  {
    forall r | 0 <= r < l.blockSize
      ensures Datum(l, dev', home, r) == Datum(l, dev, home, r)
           || (Touched(inBlock, n, r / SECTOR) && !(inBlock <= r < inBlock + n)
               && Datum(l, dev', home, r) == ViewByte(l, dev, home, r, 0))
    {
      var a := home + l.bitmapSize + r;
      if At(dev', a) != At(dev, a) {
        assert r / SECTOR == sector;
      }
    }
  }

  /** Offset `a` of the device is a byte of that sector outside the range. */
  predicate UncoveredAt(l: Layout, home: nat, inBlock: nat, n: nat, sector: nat, a: int) {
    var r := a - home - l.bitmapSize;
    sector * SECTOR <= r < sector * SECTOR + SECTOR && !(inBlock <= r < inBlock + n)
  }

  lemma UncoveredTransitive(l: Layout, a: seq<byte>, b: seq<byte>, c: seq<byte>, home: nat, inBlock: nat, n: nat)
    requires n > 0 && UncoveredMixed(l, a, b, home, inBlock, n) && UncoveredMixed(l, b, c, home, inBlock, n)
    requires SameViews(l, a, b, home)
    ensures UncoveredMixed(l, a, c, home, inBlock, n)
  {
    forall r | 0 <= r < l.blockSize
      ensures Datum(l, c, home, r) == Datum(l, a, home, r)
           || (Touched(inBlock, n, r / SECTOR) && !(inBlock <= r < inBlock + n)
               && Datum(l, c, home, r) == ViewByte(l, a, home, r, 0))
    {
      assert Datum(l, b, home, r) == Datum(l, b, home, r);
      assert ViewByte(l, b, home, r, 0) == ViewByte(l, a, home, r, 0);
    }
  }

  /** Bytes under a clear bit can be changed unseen. */
  lemma HiddenWrite(l: Layout, dev: seq<byte>, dev': seq<byte>, home: nat, s: nat, lo: nat, hi: nat)
    requires l.Valid() && !Present(dev, home, s)
    requires s * SECTOR <= lo <= hi <= s * SECTOR + SECTOR
    requires SameOutside(dev, dev', home + l.bitmapSize + lo, home + l.bitmapSize + hi)
    ensures SameViews(l, dev, dev', home)
  {
    forall r | 0 <= r < l.blockSize
      ensures Present(dev', home, r / SECTOR) == Present(dev, home, r / SECTOR)
      ensures ViewByte(l, dev', home, r, 0) == ViewByte(l, dev, home, r, 0)
    {
      assert r / SECTOR / 8 < l.bitmapSize;
      assert At(dev', home + r / SECTOR / 8) == At(dev, home + r / SECTOR / 8);
      if lo <= r < hi {
        assert r / SECTOR == s;
      } else {
        assert Datum(l, dev', home, r) == Datum(l, dev, home, r);
      }
    }
  }

  lemma SameViewsTransitive(l: Layout, a: seq<byte>, b: seq<byte>, c: seq<byte>, home: nat)
    requires SameViews(l, a, b, home) && SameViews(l, b, c, home)
    ensures SameViews(l, a, c, home)
  {
    forall r | 0 <= r < l.blockSize ensures ViewByte(l, c, home, r, 0) == ViewByte(l, a, home, r, 0) {
      assert ViewByte(l, b, home, r, 0) == ViewByte(l, a, home, r, 0);
      assert ViewByte(l, c, home, r, 0) == ViewByte(l, b, home, r, 0);
    }
  }

  /** A payload write torn after `k` bytes: every byte of the block reads old or new. */
  lemma PayloadMixed(l: Layout, dev: seq<byte>, dev': seq<byte>, entry: nat, inBlock: nat, data: seq<byte>, k: nat)
    requires l.Valid() && entry != UNALLOCATED && k <= |data| && inBlock + |data| <= l.blockSize
    requires Home(entry) + l.bitmapSize + inBlock + k <= |dev|
    requires dev' == Splice(dev, Home(entry) + l.bitmapSize + inBlock, data[..k])
    ensures BlockMixed(l, dev, dev', entry, inBlock, data)
  {
    var home := Home(entry);
    forall r | 0 <= r < l.blockSize
      ensures BlockByte(l, dev', entry, r, 0) == BlockByte(l, dev, entry, r, 0)
           || (inBlock <= r < inBlock + |data| && BlockByte(l, dev', entry, r, 0) == data[r - inBlock])
    {
      assert r / SECTOR / 8 < l.bitmapSize;
      assert At(dev', home + r / SECTOR / 8) == At(dev, home + r / SECTOR / 8);
      assert Datum(l, dev', home, r) ==
             if inBlock <= r < inBlock + k then data[r - inBlock] else Datum(l, dev, home, r);
      assert BlockByte(l, dev, entry, r, 0) == ViewByte(l, dev, home, r, 0);
      assert Present(dev', home, r / SECTOR) == Present(dev, home, r / SECTOR);
    }
  }

  /** Once the partly covered sectors are defined, the whole payload is staged. */
  lemma PayloadStaged(l: Layout, was: seq<byte>, dev: seq<byte>, dev': seq<byte>, home: nat, inBlock: nat,
    data: seq<byte>)
    requires l.Valid() && |data| > 0 && inBlock + |data| <= l.blockSize
    requires SameViews(l, was, dev, home) && PartialsDefined(l, dev, home, inBlock, |data|)
    requires UncoveredMixed(l, was, dev, home, inBlock, |data|)
    requires home + l.bitmapSize + inBlock + |data| <= |dev|
    requires dev' == Splice(dev, home + l.bitmapSize + inBlock, data)
    ensures Staged(l, was, dev', home, inBlock, data)
  {
    forall r | 0 <= r < l.blockSize && !Touched(inBlock, |data|, r / SECTOR)
      ensures Datum(l, dev', home, r) == Datum(l, was, home, r)
    {
      assert Datum(l, dev, home, r) == Datum(l, was, home, r);
    }
    forall s | 0 <= s < l.blockSize / SECTOR ensures Present(dev', home, s) == Present(was, home, s) {
      assert s / 8 < l.bitmapSize;
      assert At(dev', home + s / 8) == At(dev, home + s / 8);
      assert Present(dev, home, s) == Present(was, home, s);
    }
    forall r | 0 <= r < l.blockSize && !(inBlock <= r < inBlock + |data|)
      ensures if Present(was, home, r / SECTOR) then Datum(l, dev', home, r) == Datum(l, was, home, r)
              else Touched(inBlock, |data|, r / SECTOR) ==> Datum(l, dev', home, r) == 0
    {
      var s := r / SECTOR;
      assert Present(dev, home, s) == Present(was, home, s);
      assert ViewByte(l, dev, home, r, 0) == ViewByte(l, was, home, r, 0);
      assert Datum(l, dev', home, r) == Datum(l, dev, home, r);
      if !Present(was, home, s) && Touched(inBlock, |data|, s) {
        assert SectorDefined(l, dev, home, inBlock, |data|, s);
      }
    }
  }

  /** The bitmap read back with the touched sectors' bits set. */
  ghost predicate BitsSet(l: Layout, dev: seq<byte>, home: nat, inBlock: nat, n: nat, bitmap: seq<byte>)
    requires n > 0
  {
    && |bitmap| == l.bitmapSize
    && forall s: nat {:trigger BitmapGet(bitmap, s)} :: s / 8 < l.bitmapSize ==>
         (BitmapGet(bitmap, s) <==> Touched(inBlock, n, s) || Present(dev, home, s))
  }

  /** Writing the bitmap, torn after `p` bytes, publishes only what was written. */
  lemma BitmapPublishes(l: Layout, was: seq<byte>, dev: seq<byte>, dev': seq<byte>, entry: nat, inBlock: nat,
    data: seq<byte>, bitmap: seq<byte>, p: nat)
    requires l.Valid() && entry != UNALLOCATED && |data| > 0 && inBlock + |data| <= l.blockSize
    requires Staged(l, was, dev, Home(entry), inBlock, data)
    requires BitsSet(l, dev, Home(entry), inBlock, |data|, bitmap)
    requires p <= |bitmap| && Home(entry) + |bitmap| <= |dev|
    requires dev' == Splice(dev, Home(entry), bitmap[..p])
    ensures BlockMixed(l, was, dev', entry, inBlock, data)
    ensures p == |bitmap| ==> BlockLanded(l, was, dev', entry, inBlock, data)
  {
    var home := Home(entry);
    forall r | 0 <= r < l.blockSize
      ensures BlockByte(l, dev', entry, r, 0) == BlockByte(l, was, entry, r, 0)
           || (inBlock <= r < inBlock + |data| && BlockByte(l, dev', entry, r, 0) == data[r - inBlock])
      ensures p == |bitmap| ==>
                BlockByte(l, dev', entry, r, 0) ==
                (if inBlock <= r < inBlock + |data| then data[r - inBlock] else BlockByte(l, was, entry, r, 0))
    {
      PublishedByte(l, was, dev, dev', home, inBlock, data, bitmap, p, r);
    }
  }

  lemma PublishedByte(l: Layout, was: seq<byte>, dev: seq<byte>, dev': seq<byte>, home: nat, inBlock: nat,
    data: seq<byte>, bitmap: seq<byte>, p: nat, r: nat)
    requires l.Valid() && |data| > 0 && inBlock + |data| <= l.blockSize && r < l.blockSize
    requires Staged(l, was, dev, home, inBlock, data)
    requires BitsSet(l, dev, home, inBlock, |data|, bitmap)
    requires p <= |bitmap| && home + |bitmap| <= |dev|
    requires dev' == Splice(dev, home, bitmap[..p])
    ensures ViewByte(l, dev', home, r, 0) == ViewByte(l, was, home, r, 0)
         || (inBlock <= r < inBlock + |data| && ViewByte(l, dev', home, r, 0) == data[r - inBlock])
    ensures p == |bitmap| ==>
              ViewByte(l, dev', home, r, 0) ==
              (if inBlock <= r < inBlock + |data| then data[r - inBlock] else ViewByte(l, was, home, r, 0))
  {
    var s := r / SECTOR;
    var a := home + l.bitmapSize + r;
    PublishedBit(l, dev, dev', home, inBlock, |data|, bitmap, p, s);
    assert Present(dev, home, r / SECTOR) == Present(was, home, s);
    assert At(dev', a) == Datum(l, dev, home, r);
    if inBlock <= r < inBlock + |data| {
      assert Touched(inBlock, |data|, s);
      assert At(dev', a) == data[r - inBlock];
    } else if Present(was, home, s) {
      assert At(dev', a) == At(was, a);
    } else if Present(dev', home, s) {
      assert At(dev', a) == 0;
    }
  }

  /** After a bitmap write torn at byte `p`: a bit already set stays set, and a bit newly
      set is a touched sector's; the whole write sets every touched bit. */
  lemma PublishedBit(l: Layout, dev: seq<byte>, dev': seq<byte>, home: nat, inBlock: nat, n: nat, bitmap: seq<byte>,
    p: nat, s: nat)
    requires n > 0 && s / 8 < l.bitmapSize
    requires BitsSet(l, dev, home, inBlock, n, bitmap)
    requires p <= |bitmap| && home + |bitmap| <= |dev|
    requires dev' == Splice(dev, home, bitmap[..p])
    ensures Present(dev, home, s) ==> Present(dev', home, s)
    ensures Present(dev', home, s) ==> Present(dev, home, s) || Touched(inBlock, n, s)
    ensures p == |bitmap| && Touched(inBlock, n, s) ==> Present(dev', home, s)
  {
    if s / 8 < p {
      assert At(dev', home + s / 8) == bitmap[..p][s / 8] == bitmap[s / 8];
      assert Present(dev', home, s) == BitmapGet(bitmap, s);
    } else {
      assert At(dev', home + s / 8) == At(dev, home + s / 8);
    }
  }

  /** A hidden write to one sector leaves another sector's uncovered bytes as they were. */
  lemma DefinedElsewhere(l: Layout, dev: seq<byte>, dev': seq<byte>, home: nat, inBlock: nat, n: nat, s: nat, t: nat)
    requires SectorDefined(l, dev, home, inBlock, n, t) && s != t
    requires Present(dev', home, t) == Present(dev, home, t)
    requires SameOutside(dev, dev', home + l.bitmapSize + s * SECTOR, home + l.bitmapSize + s * SECTOR + SECTOR)
    ensures SectorDefined(l, dev', home, inBlock, n, t)
  {
    if !Present(dev', home, t) {
      forall r | t * SECTOR <= r < t * SECTOR + SECTOR && !(inBlock <= r < inBlock + n)
        ensures Datum(l, dev', home, r) == 0
      {
        assert Datum(l, dev', home, r) == Datum(l, dev, home, r);
      }
    }
  }

  /** Only the first and the last touched sector can be partly covered. */
  lemma EndsDefineAll(l: Layout, dev: seq<byte>, home: nat, inBlock: nat, n: nat)
    requires n > 0
    requires SectorDefined(l, dev, home, inBlock, n, inBlock / SECTOR)
    requires SectorDefined(l, dev, home, inBlock, n, (inBlock + n - 1) / SECTOR)
    ensures PartialsDefined(l, dev, home, inBlock, n)
  {
    forall s | 0 <= s && Touched(inBlock, n, s) ensures SectorDefined(l, dev, home, inBlock, n, s) {
      assert inBlock / SECTOR < s < (inBlock + n - 1) / SECTOR ==>
               inBlock <= s * SECTOR && s * SECTOR + SECTOR <= inBlock + n;
    }
  }

  /** An unchanged view is a trivial mixture. */
  lemma SameViewsMixed(l: Layout, was: seq<byte>, dev: seq<byte>, dev': seq<byte>, entry: nat, inBlock: nat,
    data: seq<byte>)
    requires entry != UNALLOCATED && SameViews(l, was, dev, Home(entry))
    requires dev' == dev || BlockMixed(l, dev, dev', entry, inBlock, data)
    ensures BlockMixed(l, was, dev', entry, inBlock, data)
  {
    forall r | 0 <= r < l.blockSize
      ensures BlockByte(l, dev', entry, r, 0) == BlockByte(l, was, entry, r, 0)
           || (inBlock <= r < inBlock + |data| && BlockByte(l, dev', entry, r, 0) == data[r - inBlock])
    {
      assert ViewByte(l, dev, Home(entry), r, 0) == ViewByte(l, was, Home(entry), r, 0);
    }
  }
}
